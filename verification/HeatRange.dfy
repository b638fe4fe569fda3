/**
  The range of one heat dimension over a population, in 32-bit unsigned arithmetic,
  and the bucket index derived from it.
 */
module HeatRanges {
  import opened Arith

  const BUCKET_NUM: nat := 10
  const DEFAULT_BUCKET_BOUNDARY: nat := 3
  const UINT32_MAX: nat := 0xFFFF_FFFF

  /** What is assigned to the lower portion boundary, wrapping as the source does. */
  function MinPortion(min: nat, max: nat, avg: nat): nat
  {
    var half := Wrap(min + avg) / 2;
    var quarter := Wrap(3 * min) / 4 + max / 4;
    if half > quarter then half else quarter
  }

  function MaxPortion(min: nat, max: nat, avg: nat): nat
  {
    var half := Wrap(max + avg) / 2;
    var quarter := min / 4 + Wrap(3 * max) / 4;
    if half > quarter then half else quarter
  }

  /** At least both candidates, and one of them. */
  predicate GreaterOf(x: nat, a: nat, b: nat)
  {
    x >= a && x >= b && (x == a || x == b)
  }

  /**
    Each boundary is the greater of its two candidates: half the way from one extreme to the average,
    and a quarter of the way from the same extreme to the other, as far as they are below a word.
   */
  lemma PortionsAreGreater(min: nat, max: nat, avg: nat)
    ensures min + avg < U32 && 3 * min < U32 ==>
              GreaterOf(MinPortion(min, max, avg), (min + avg) / 2, 3 * min / 4 + max / 4)
    ensures max + avg < U32 && 3 * max < U32 ==>
              GreaterOf(MaxPortion(min, max, avg), (max + avg) / 2, min / 4 + 3 * max / 4)
  {
    WrapBounds(min + avg);
    WrapBounds(3 * min);
    WrapBounds(max + avg);
    WrapBounds(3 * max);
    hide Wrap;
  }

  lemma PortionsOfNothing()
    ensures GreaterOf(0, (0 + 0) / 2, 3 * 0 / 4 + 0 / 4) && GreaterOf(0, (0 + 0) / 2, 0 / 4 + 3 * 0 / 4)
  {
  }

  class HeatRange {
    var min: nat
    var max: nat
    var bucketCap: nat
    var minPortion: nat
    var maxPortion: nat
    var avg: nat
    var sum: nat

    /** The fields fit the words that hold them; the running sum has 64 bits in the source. */
    ghost predicate Valid()
      reads this
    {
      min < U32 && max < U32 && bucketCap < U32 && avg < U32
    }

    /** What the disks seen so far left in the fields: extremes over all objects, and the sum of the disks' sums. */
    ghost predicate Holds(disks: seq<seq<nat>>)
      reads this
    {
      && sum == DiskSums(disks)
      && (Join(disks) == [] ==> min == UINT32_MAX && max == 0)
      && (Join(disks) != [] ==> min in Join(disks) && max in Join(disks))
      && forall h :: h in Join(disks) ==> min <= h <= max
    }

    constructor ()
      ensures Valid() && Holds([])
      ensures bucketCap == UINT32_MAX
    {
      min, max, bucketCap, sum, avg := UINT32_MAX, 0, UINT32_MAX, 0, 0;
      minPortion, maxPortion := UINT32_MAX, 0;
    }

    /** Folds in the extremes and the 32-bit sum that one disk keeps of its objects. */
    method ObserveDisk(diskMin: nat, diskMax: nat, diskSum: nat, ghost disks: seq<seq<nat>>, ghost heats: seq<nat>)
      requires Valid() && Holds(disks) && DiskHolds(heats, diskMin, diskMax, diskSum)
      modifies this
      ensures Valid() && Holds(disks + [heats])
      ensures bucketCap == old(bucketCap)
    {
      JoinSnoc(disks, heats);
      sum := sum + diskSum;
      if diskMin < min {
        min := diskMin;
      }
      if diskMax > max {
        max := diskMax;
      }
    }

    /**
      The whole new state, and what it means for the population: if no disk's sum wrapped, the
      average is the truncated mean and lies between the extremes, and the boundaries are in
      order when the greater half sum fits, which for narrow populations is also needed.
     */
    method Calculate(objnum: nat, ghost disks: seq<seq<nat>>)
      requires Valid() && Holds(disks) && objnum == |Join(disks)|
      modifies this
      ensures Valid() && Holds(disks) && min == old(min) && max == old(max)
      ensures Join(disks) == [] ==>
                && bucketCap == old(bucketCap) && avg == old(avg)
                && minPortion == old(minPortion) && maxPortion == old(maxPortion)
      ensures Join(disks) != [] ==>
                && bucketCap == (max - min) / BUCKET_NUM
                && (max == 0 ==> avg == minPortion == maxPortion == 0)
                && (max > 0 ==> avg == Wrap(Quotient(sum, |Join(disks)|)))
                && (max > 0 ==> minPortion == MinPortion(min, max, avg) && maxPortion == MaxPortion(min, max, avg))
      ensures Join(disks) != [] && 3 * max < U32 && max + avg < U32 ==>
                && GreaterOf(minPortion, (min + avg) / 2, 3 * min / 4 + max / 4)
                && GreaterOf(maxPortion, (max + avg) / 2, min / 4 + 3 * max / 4)
      ensures Join(disks) != [] && SumsFit(disks) ==>
                && avg == Quotient(Sum(Join(disks)), |Join(disks)|) && min <= avg <= max
                && (max + avg < U32 ==> min <= minPortion <= maxPortion <= max)
                && (max - min < NARROW ==> (min <= minPortion <= maxPortion <= max <==> max + avg < U32))
    {
      hide Sum, Join, DiskSums, Quotient, Wrap, MinPortion, MaxPortion, SumsFit, GreaterOf;
      if min == UINT32_MAX && max == 0 {
        NoExtremes(Join(disks), min, max);
        return;
      }
      if max == 0 {
        PortionsOfNothing();
        bucketCap, avg, minPortion, maxPortion := 0, 0, 0, 0;
        AllZero(disks);
      } else {
        bucketCap := (max - min) / BUCKET_NUM;
        avg := Wrap(Quotient(sum, objnum));
        WrapFacts(Quotient(sum, objnum));
        PortionsAreGreater(min, max, avg);
        minPortion := MinPortion(min, max, avg);
        maxPortion := MaxPortion(min, max, avg);
        if SumsFit(disks) {
          DiskSumsExactIff(disks);
          AverageBetweenExtremes(Join(disks), min, max);
          OrderOfBoundaries(min, max, avg);
        }
      }
    }
  }

  lemma NoExtremes(heats: seq<nat>, min: nat, max: nat)
    requires min > max
    requires forall h :: h in heats ==> min <= h <= max
    ensures heats == []
  {
    if heats != [] {
      SomeMember(heats);
    }
  }

  lemma SomeMember(heats: seq<nat>)
    requires heats != []
    ensures heats[0] in heats
  {
  }

  lemma AllZero(disks: seq<seq<nat>>)
    requires Join(disks) != [] && forall h :: h in Join(disks) ==> h == 0
    ensures Quotient(Sum(Join(disks)), |Join(disks)|) == 0
  {
    hide Sum, Join, Quotient;
    SumBetween(Join(disks), 0, 0);
    QuotientAtMost(0, |Join(disks)|, 0);
  }

  /** All objects of all disks. */
  function Join(disks: seq<seq<nat>>): seq<nat>
  {
    if disks == [] then [] else Join(disks[..|disks| - 1]) + disks[|disks| - 1]
  }

  lemma JoinSnoc(disks: seq<seq<nat>>, heats: seq<nat>)
    ensures Join(disks + [heats]) == Join(disks) + heats
    ensures DiskSums(disks + [heats]) == DiskSums(disks) + Wrap(Sum(heats))
  {
    assert (disks + [heats])[..|disks|] == disks;
  }

  /** The sum of the sums the disks keep, each in its word. */
  function DiskSums(disks: seq<seq<nat>>): nat
  {
    if disks == [] then 0 else DiskSums(disks[..|disks| - 1]) + Wrap(Sum(disks[|disks| - 1]))
  }

  /** What a disk keeps of its objects. */
  ghost predicate DiskHolds(heats: seq<nat>, min: nat, max: nat, sum: nat)
  {
    && sum == Wrap(Sum(heats)) && min < U32 && max < U32
    && (heats == [] ==> min == UINT32_MAX && max == 0)
    && (heats != [] ==> min in heats && max in heats)
    && forall h :: h in heats ==> min <= h <= max
  }

  predicate SumsFit(disks: seq<seq<nat>>)
  {
    forall i :: 0 <= i < |disks| ==> Sum(disks[i]) < U32
  }

  lemma {:induction false} SumJoin(a: seq<nat>, b: seq<nat>)
    ensures Sum(a + b) == Sum(a) + Sum(b)
  {
    if b == [] {
      assert a + b == a;
    } else {
      var k := |b| - 1;
      SumJoin(a, b[..k]);
      SumSnoc(a + b[..k], b[k]);
      assert a + b == (a + b[..k]) + [b[k]];
    }
  }

  /** The range's sum is that of the population exactly when no disk's sum wrapped; otherwise it is too small. */
  lemma {:induction false} DiskSumsExactIff(disks: seq<seq<nat>>)
    ensures DiskSums(disks) <= Sum(Join(disks))
    ensures DiskSums(disks) == Sum(Join(disks)) <==> SumsFit(disks)
  {
    if disks != [] {
      var k := |disks| - 1;
      DiskSumsExactIff(disks[..k]);
      SumJoin(Join(disks[..k]), disks[k]);
      WrapFacts(Sum(disks[k]));
      hide Wrap, Sum;
      assert SumsFit(disks) <==> SumsFit(disks[..k]) && Sum(disks[k]) < U32;
    }
  }

  function Sum(heats: seq<nat>): nat
  {
    if heats == [] then 0 else Sum(heats[..|heats| - 1]) + heats[|heats| - 1]
  }

  lemma SumSnoc(heats: seq<nat>, h: nat)
    ensures Sum(heats + [h]) == Sum(heats) + h
  {
    assert (heats + [h])[..|heats|] == heats;
  }

  lemma {:induction false} SumBetween(heats: seq<nat>, lo: nat, hi: nat)
    requires forall h :: h in heats ==> lo <= h <= hi
    ensures lo * |heats| <= Sum(heats) <= hi * |heats|
  {
    if heats != [] {
      var k := |heats| - 1;
      forall h | h in heats[..k] ensures lo <= h <= hi {
        assert h in heats;
      }
      SumBetween(heats[..k], lo, hi);
      assert heats[k] in heats;
      assert lo * |heats| == lo * k + lo && hi * |heats| == hi * k + hi;
    }
  }

  /** The average of a population fits its word and lies between its extremes. */
  lemma AverageBetweenExtremes(heats: seq<nat>, min: nat, max: nat)
    requires heats != [] && min in heats && max in heats && max < U32
    requires forall h :: h in heats ==> min <= h <= max
    ensures min <= Wrap(Quotient(Sum(heats), |heats|)) == Quotient(Sum(heats), |heats|) <= max
  {
    hide Sum, Quotient;
    SumBetween(heats, min, max);
    QuotientAtLeast(Sum(heats), |heats|, min);
    QuotientAtMost(Sum(heats), |heats|, max);
  }

  /**
    The four truncating divisions keep the boundaries in order whenever the larger of
    the two half sums does not wrap; wrapping of the tripled terms does no harm.
   */
  lemma BoundariesInOrder(min: nat, max: nat, avg: nat)
    requires min <= avg <= max < U32
    requires max + avg < U32
    ensures min <= MinPortion(min, max, avg) <= MaxPortion(min, max, avg) <= max
  {
    hide Wrap;
    WrapFacts(min + avg);
    WrapFacts(max + avg);
    WrapFacts(3 * min);
    WrapFacts(3 * max);
    assert (3 * min) / 4 + max / 4 <= (max + min) / 2;
  }

  lemma WrapFacts(x: nat)
    ensures Wrap(x) <= x && Wrap(x) < U32
    ensures x < U32 ==> Wrap(x) == x
    ensures U32 <= x < 2 * U32 ==> Wrap(x) == x - U32
    ensures U32 <= x ==> Wrap(x) <= x - U32
  {
  }

  /**
    Spreads for which the order of the boundaries depends on the half sum alone; the boundaries are
    read only for spreads below ten.
   */
  const NARROW: nat := 0x4000_0000

  /** For a narrow population the boundaries are in order if and only if the greater half sum fits its word. */
  lemma NarrowBoundariesInOrderIff(min: nat, max: nat, avg: nat)
    requires min <= avg <= max < U32 && max - min < NARROW
    ensures min <= MinPortion(min, max, avg) <= MaxPortion(min, max, avg) <= max <==> max + avg < U32
  {
    if max + avg < U32 {
      BoundariesInOrder(min, max, avg);
    } else {
      hide Wrap;
      WrapFacts(min + avg);
      WrapFacts(max + avg);
      WrapFacts(3 * min);
      WrapFacts(3 * max);
    }
  }

  /** A wide population can keep the order although the half sum wraps. */
  lemma WideBoundariesByChance()
    ensures UINT32_MAX < U32 <= UINT32_MAX + 1
    ensures 0 <= MinPortion(0, UINT32_MAX, 1) <= MaxPortion(0, UINT32_MAX, 1) <= UINT32_MAX
  {
  }

  lemma OrderOfBoundaries(min: nat, max: nat, avg: nat)
    requires min <= avg <= max < U32
    ensures max + avg < U32 ==> min <= MinPortion(min, max, avg) <= MaxPortion(min, max, avg) <= max
    ensures max - min < NARROW ==>
              (min <= MinPortion(min, max, avg) <= MaxPortion(min, max, avg) <= max <==> max + avg < U32)
  {
    hide MinPortion, MaxPortion;
    if max + avg < U32 {
      BoundariesInOrder(min, max, avg);
    }
    if max - min < NARROW {
      NarrowBoundariesInOrderIff(min, max, avg);
    }
  }

  /** The smallest population that wraps: one heat of 2^31 puts its lower boundary below the minimum. */
  lemma BoundariesCanWrap()
    ensures Wrap(Quotient(Sum([0x8000_0000]), 1)) == 0x8000_0000
    ensures MinPortion(0x8000_0000, 0x8000_0000, 0x8000_0000) < 0x8000_0000
  {
    SumSnoc([], 0x8000_0000);
    assert [] + [0x8000_0000] == [0x8000_0000];
  }

  datatype AdviceType = CtrHot | CtrCold | AnyOther

  /** The bucket of an object; BUCKET_NUM means the object takes no part. rnd is the random draw. */
  function BucketIndex(advice: AdviceType, heat: nat, min: nat, cap: nat, minPortion: nat, maxPortion: nat,
                       rnd: nat): (b: nat)
    ensures b <= BUCKET_NUM
    ensures 0 < cap < UINT32_MAX ==> b < BUCKET_NUM
  {
    if cap == UINT32_MAX then
      BUCKET_NUM
    else if cap == 0 then
      if advice == CtrHot && maxPortion < heat then
        DEFAULT_BUCKET_BOUNDARY + rnd % (BUCKET_NUM - DEFAULT_BUCKET_BOUNDARY)
      else if advice == CtrCold && minPortion > heat then
        rnd % DEFAULT_BUCKET_BOUNDARY
      else
        var draw := rnd % 100;
        if draw < 80 then BUCKET_NUM else draw % BUCKET_NUM
    else
      var diff := if heat > min then heat - min else 0;
      var index := Quotient(diff, cap);
      if index >= BUCKET_NUM then BUCKET_NUM - 1 else index
  }

  /** With a positive capacity the bucket is the one whose interval holds the heat; the last one has no upper end. */
  lemma BucketHoldsHeat(advice: AdviceType, heat: nat, min: nat, cap: nat, minPortion: nat, maxPortion: nat, rnd: nat)
    requires 0 < cap < UINT32_MAX
    ensures var b := BucketIndex(advice, heat, min, cap, minPortion, maxPortion, rnd);
            && (heat <= min ==> b == 0)
            && (heat >= min ==> min + b * cap <= heat)
            && (heat < min + (b + 1) * cap || b == BUCKET_NUM - 1)
  {
    var diff := if heat > min then heat - min else 0;
    var q := Quotient(diff, cap);
    hide Quotient;
    if heat <= min {
      QuotientAtMost(diff, cap, 0);
    }
    if q >= BUCKET_NUM {
      MulMonotone(BUCKET_NUM - 1, q, cap);
    } else {
      assert cap * q == q * cap && (q + 1) * cap == cap * q + cap;
    }
  }

  /**
    Without a capacity the draw decides: a hot object above the upper boundary goes to buckets 3 to 9,
    a cold one below the lower boundary to 0 to 2, and of the others one draw in five takes part, in any bucket.
    A range that was never calculated takes no object.
   */
  lemma BucketOfDraw(advice: AdviceType, heat: nat, min: nat, minPortion: nat, maxPortion: nat, rnd: nat)
    ensures BucketIndex(advice, heat, min, UINT32_MAX, minPortion, maxPortion, rnd) == 10
    ensures var b := BucketIndex(advice, heat, min, 0, minPortion, maxPortion, rnd);
            && (advice == CtrHot && heat > maxPortion ==> 3 <= b <= 9 && b == 3 + rnd % 7)
            && (advice == CtrCold && heat < minPortion ==> 0 <= b <= 2 && b == rnd % 3)
            && (!(advice == CtrHot && heat > maxPortion) && !(advice == CtrCold && heat < minPortion) ==>
                  if rnd % 100 < 80 then b == 10 else 0 <= b <= 9 && b == rnd % 100 % 10)
  {
  }

  /** Hotter objects never land in a lower bucket, whatever was drawn. */
  lemma BucketIndexMonotone(advice: AdviceType, h1: nat, h2: nat, min: nat, cap: nat, minPortion: nat,
                            maxPortion: nat, r1: nat, r2: nat)
    requires 0 < cap < UINT32_MAX && h1 <= h2
    ensures BucketIndex(advice, h1, min, cap, minPortion, maxPortion, r1)
         <= BucketIndex(advice, h2, min, cap, minPortion, maxPortion, r2)
  {
    QuotientMonotone(if h1 > min then h1 - min else 0, if h2 > min then h2 - min else 0, cap);
  }

  /** A spread of at least ten makes the capacity positive and reaches both end buckets. */
  lemma BucketIndexEnds(advice: AdviceType, min: nat, max: nat, minPortion: nat, maxPortion: nat, r1: nat, r2: nat)
    requires min < max < U32
    ensures var cap := (max - min) / BUCKET_NUM;
            0 < cap <==> max - min >= BUCKET_NUM
    ensures var cap := (max - min) / BUCKET_NUM;
            0 < cap ==> && BucketIndex(advice, min, min, cap, minPortion, maxPortion, r1) == 0
                        && BucketIndex(advice, max, min, cap, minPortion, maxPortion, r2) == BUCKET_NUM - 1
  {
    var cap := (max - min) / BUCKET_NUM;
    if cap > 0 {
      QuotientAtLeast(max - min, cap, BUCKET_NUM);
    }
  }
}
