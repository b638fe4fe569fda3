/**
  Partitioning a population into a heat bucket, and what the walk over the sorted part
  of that bucket is compared with a full sort of the population.
 */
module HeatDistributions {
  import opened Arith
  import opened Common
  import opened HeatOrder
  import opened HeatRanges
  import opened LazySort
  import opened HeatBuckets

  /** An object as the partition meets it; rnd is the draw used when the capacity is zero. */
  datatype Candidate = Candidate(obj: Obj, monitored: bool, rnd: nat)

  datatype Rule = Rule(advice: AdviceType, min: nat, cap: nat, minPortion: nat, maxPortion: nat)

  function IndexOf(rule: Rule, c: Candidate): (b: nat)
    ensures b <= BUCKET_NUM
  {
    if !c.monitored then BUCKET_NUM
    else BucketIndex(rule.advice, c.obj.heat, rule.min, rule.cap, rule.minPortion, rule.maxPortion, c.rnd)
  }

  function Landed(rule: Rule, cs: seq<Candidate>, k: nat): seq<Obj>
  {
    if cs == [] then []
    else
      var n := |cs| - 1;
      Landed(rule, cs[..n], k) + if IndexOf(rule, cs[n]) == k then [cs[n].obj] else []
  }

  function Admitted(rule: Rule, cs: seq<Candidate>): seq<Obj>
  {
    if cs == [] then []
    else
      var n := |cs| - 1;
      Admitted(rule, cs[..n]) + if IndexOf(rule, cs[n]) < BUCKET_NUM then [cs[n].obj] else []
  }

  function BucketsOf(rule: Rule, cs: seq<Candidate>): (b: seq<seq<Obj>>)
    ensures |b| == BUCKET_NUM
  {
    seq(BUCKET_NUM, k requires 0 <= k < BUCKET_NUM => Landed(rule, cs, k))
  }

  lemma LandedSnoc(rule: Rule, cs: seq<Candidate>, i: nat)
    requires i < |cs|
    ensures var b, index := BucketsOf(rule, cs[..i]), IndexOf(rule, cs[i]);
            BucketsOf(rule, cs[..i + 1]) == (if index < BUCKET_NUM then b[index := b[index] + [cs[i].obj]] else b)
    ensures Admitted(rule, cs[..i + 1])
         == Admitted(rule, cs[..i]) + if IndexOf(rule, cs[i]) < BUCKET_NUM then [cs[i].obj] else []
  {
    assert cs[..i + 1][..i] == cs[..i];
    var b, b', index := BucketsOf(rule, cs[..i]), BucketsOf(rule, cs[..i + 1]), IndexOf(rule, cs[i]);
    forall k | 0 <= k < BUCKET_NUM ensures b'[k] == if k == index then b[k] + [cs[i].obj] else b[k] {
    }
    if index < BUCKET_NUM {
      assert b' == b[index := b[index] + [cs[i].obj]];
    } else {
      assert b' == b;
    }
  }

  /** Puts every object that takes part into its bucket and counts both sides. */
  method Partition(rule: Rule, cs: seq<Candidate>, bucket: HeatBucket) returns (ok: bool)
    requires bucket.Shape() && bucket.CursorsInside() && bucket.lastAbove == bucket.lastBelow == BUCKET_NUM
    requires bucket.sortedAbove == bucket.sortedBelow == 0
    requires bucket.buckets == BucketsOf(rule, [])
    modifies bucket
    ensures bucket.buckets == BucketsOf(rule, cs)
    ensures ok <==> Admitted(rule, cs) != []
    ensures bucket.lastAbove == bucket.lastBelow == BUCKET_NUM
    ensures ok ==> bucket.Valid() && bucket.boundary == DEFAULT_BUCKET_BOUNDARY
    ensures ok ==> bucket.objsAbove + bucket.objsBelow == |Admitted(rule, cs)|
    ensures ok && 0 < rule.cap < UINT32_MAX ==>
              forall o :: o in Admitted(rule, cs) ==>
                            (o in Flat(bucket.HotSide()) <==> o.heat >= rule.min + 4 * rule.cap)
                            && (o in Flat(bucket.ColdSide()) <==> o.heat < rule.min + 4 * rule.cap)
  {
    hide IndexOf, Landed, Admitted, BucketsOf, Total, Flat, Side;
    var partitioned := 0;
    assert cs[..0] == [];
    AdmittedNone(rule);
    for i := 0 to |cs|
      invariant bucket.buckets == BucketsOf(rule, cs[..i])
      invariant partitioned == |Admitted(rule, cs[..i])|
      invariant bucket.lastAbove == bucket.lastBelow == BUCKET_NUM
      invariant bucket.sortedAbove == bucket.sortedBelow == 0
      invariant bucket.boundary < BUCKET_NUM - 1
      invariant bucket.curHotBucket + 1 == BUCKET_NUM && bucket.curHotIt == 0
      invariant bucket.curColdBucket == 0 && bucket.curColdIt <= |bucket.buckets[0]|
    {
      LandedSnoc(rule, cs, i);
      var index := IndexOf(rule, cs[i]);
      if 0 <= index < BUCKET_NUM {
        partitioned := partitioned + 1;
        bucket.AddOBJ(index, cs[i].obj);
      }
    }
    assert cs[..|cs|] == cs;
    ok := partitioned != 0;
    if ok {
      bucket.boundary := DEFAULT_BUCKET_BOUNDARY;
      bucket.objsAbove := bucket.CalculateOBJsAboveBoundary();
      bucket.objsBelow := bucket.CalculateOBJsBelowBoundary();
      NothingYet(Hot, bucket.buckets, bucket.boundary, 0);
      NothingYet(Cold, bucket.buckets, bucket.boundary, 0);
      EveryObjectInOneBucket(rule, cs, bucket.boundary);
      FlatSize(bucket.HotSide());
      FlatSize(bucket.ColdSide());
      SizeOfUnion(Flat(bucket.HotSide()), Flat(bucket.ColdSide()), Admitted(rule, cs));
      if 0 < rule.cap < UINT32_MAX {
        SidesByHeat(rule, cs, bucket.boundary);
      }
    }
  }

  lemma AdmittedNone(rule: Rule)
    ensures Admitted(rule, []) == []
  {
  }

  lemma SizeOfUnion(a: seq<Obj>, b: seq<Obj>, c: seq<Obj>)
    requires multiset(c) == multiset(a) + multiset(b)
    ensures |c| == |a| + |b|
  {
    assert |multiset(c)| == |multiset(a)| + |multiset(b)|;
  }

  lemma {:induction false} FlatUpdate(s: seq<seq<Obj>>, i: nat, x: Obj)
    requires i < |s|
    ensures multiset(Flat(s[i := s[i] + [x]])) == multiset(Flat(s)) + multiset{x}
  {
    var t := s[i := s[i] + [x]];
    if i > 0 {
      FlatUpdate(s[1..], i - 1, x);
      assert t[1..] == s[1..][i - 1 := s[1..][i - 1] + [x]];
    } else {
      assert t[1..] == s[1..];
    }
  }

  /** Adding an object to one bucket adds it to what the two sides hold together. */
  lemma SidesGrow(a: seq<seq<Obj>>, index: nat, x: Obj, boundary: nat)
    requires |a| == BUCKET_NUM && index < BUCKET_NUM && boundary < BUCKET_NUM - 1
    ensures var b := a[index := a[index] + [x]];
            multiset(Flat(Side(Hot, b, boundary))) + multiset(Flat(Side(Cold, b, boundary)))
            == multiset(Flat(Side(Hot, a, boundary))) + multiset(Flat(Side(Cold, a, boundary))) + multiset{x}
  {
    hide Flat;
    var dir := if index > boundary then Hot else Cold;
    var e := if index > boundary then BUCKET_NUM - 1 - index else index;
    SideUpdate(dir, a, e, a[index] + [x], boundary);
    FlatUpdate(Side(dir, a, boundary), e, x);
  }

  lemma NoObjectsYet(rule: Rule, boundary: nat)
    requires boundary < BUCKET_NUM - 1
    ensures var b := BucketsOf(rule, []);
            Admitted(rule, []) == Flat(Side(Hot, b, boundary)) == Flat(Side(Cold, b, boundary)) == []
  {
    NoObjects(Side(Hot, BucketsOf(rule, []), boundary));
    NoObjects(Side(Cold, BucketsOf(rule, []), boundary));
  }

  /** Above plus below is exactly the admitted population, each object once. */
  lemma {:induction false} EveryObjectInOneBucket(rule: Rule, cs: seq<Candidate>, boundary: nat)
    requires boundary < BUCKET_NUM - 1
    ensures var b := BucketsOf(rule, cs);
            multiset(Admitted(rule, cs))
              == multiset(Flat(Side(Hot, b, boundary))) + multiset(Flat(Side(Cold, b, boundary)))
  {
    hide Landed, Admitted, BucketsOf, Flat, IndexOf, Side;
    if cs == [] {
      NoObjectsYet(rule, boundary);
    } else {
      var n := |cs| - 1;
      assert cs[..n + 1] == cs;
      LandedSnoc(rule, cs, n);
      EveryObjectInOneBucket(rule, cs[..n], boundary);
      if IndexOf(rule, cs[n]) < BUCKET_NUM {
        SidesGrow(BucketsOf(rule, cs[..n]), IndexOf(rule, cs[n]), cs[n].obj, boundary);
      }
    }
  }

  lemma {:induction false} NoObjects(s: seq<seq<Obj>>)
    requires forall k :: 0 <= k < |s| ==> s[k] == []
    ensures Flat(s) == []
  {
    if s != [] {
      NoObjects(s[1..]);
    }
  }

  lemma {:induction false} LandedBecause(rule: Rule, cs: seq<Candidate>, k: nat, x: Obj) returns (i: nat)
    requires x in Landed(rule, cs, k)
    ensures i < |cs| && cs[i].obj == x && IndexOf(rule, cs[i]) == k
  {
    var n := |cs| - 1;
    if x in Landed(rule, cs[..n], k) {
      i := LandedBecause(rule, cs[..n], k, x);
    } else {
      i := n;
    }
  }

  /** Where an object landed its heat belongs. */
  lemma LandedByHeat(rule: Rule, cs: seq<Candidate>, k: nat, x: Obj)
    requires 0 < rule.cap < UINT32_MAX && k < BUCKET_NUM && x in Landed(rule, cs, k)
    ensures k > 0 ==> x.heat >= rule.min + k * rule.cap
    ensures k < BUCKET_NUM - 1 ==> x.heat < rule.min + (k + 1) * rule.cap
  {
    var i := LandedBecause(rule, cs, k, x);
    BucketHoldsHeat(rule.advice, x.heat, rule.min, rule.cap, rule.minPortion, rule.maxPortion, cs[i].rnd);
    hide BucketIndex;
  }

  /**
    With a positive capacity an admitted object is on the hot side exactly when its heat is at least
    the least heat plus the capacity for each bucket of the cold side.
   */
  lemma SidesByHeat(rule: Rule, cs: seq<Candidate>, boundary: nat)
    requires 0 < rule.cap < UINT32_MAX && boundary < BUCKET_NUM - 1
    ensures var b, start := BucketsOf(rule, cs), rule.min + (boundary + 1) * rule.cap;
            forall x :: x in Admitted(rule, cs) ==>
                          && (x in Flat(Side(Hot, b, boundary)) <==> x.heat >= start)
                          && (x in Flat(Side(Cold, b, boundary)) <==> x.heat < start)
  {
    var b, start := BucketsOf(rule, cs), rule.min + (boundary + 1) * rule.cap;
    EveryObjectInOneBucket(rule, cs, boundary);
    hide Landed, Flat, Admitted;
    forall x | x in Admitted(rule, cs)
      ensures x in Flat(Side(Hot, b, boundary)) <==> x.heat >= start
      ensures x in Flat(Side(Cold, b, boundary)) <==> x.heat < start
    {
      assert x in multiset(Admitted(rule, cs));
      assert x in Flat(Side(Hot, b, boundary)) || x in Flat(Side(Cold, b, boundary));
      SideByHeat(rule, cs, boundary, x);
    }
  }

  lemma SideByHeat(rule: Rule, cs: seq<Candidate>, boundary: nat, x: Obj)
    requires 0 < rule.cap < UINT32_MAX && boundary < BUCKET_NUM - 1
    ensures var b, start := BucketsOf(rule, cs), rule.min + (boundary + 1) * rule.cap;
            && (x in Flat(Side(Hot, b, boundary)) ==> x.heat >= start)
            && (x in Flat(Side(Cold, b, boundary)) ==> x.heat < start)
  {
    hide Landed, Flat;
    var b := BucketsOf(rule, cs);
    FlatMember(Side(Hot, b, boundary), x);
    FlatMember(Side(Cold, b, boundary), x);
    if x in Flat(Side(Hot, b, boundary)) {
      var i :| 0 <= i < |Side(Hot, b, boundary)| && x in Side(Hot, b, boundary)[i];
      var k := BUCKET_NUM - 1 - i;
      LandedByHeat(rule, cs, k, x);
      MulMonotone(boundary + 1, k, rule.cap);
    }
    if x in Flat(Side(Cold, b, boundary)) {
      var k :| 0 <= k < |Side(Cold, b, boundary)| && x in Side(Cold, b, boundary)[k];
      LandedByHeat(rule, cs, k, x);
      MulMonotone(k + 1, boundary + 1, rule.cap);
    }
  }

  /** With a positive capacity exactly the monitored objects take part, in meeting order. */
  lemma {:induction false} AdmittedAreMonitored(rule: Rule, cs: seq<Candidate>)
    requires 0 < rule.cap < UINT32_MAX
    ensures Admitted(rule, cs) == Monitored(cs)
  {
    if cs != [] {
      AdmittedAreMonitored(rule, cs[..|cs| - 1]);
    }
  }

  function Monitored(cs: seq<Candidate>): seq<Obj>
  {
    if cs == [] then []
    else
      var n := |cs| - 1;
      Monitored(cs[..n]) + if cs[n].monitored then [cs[n].obj] else []
  }

  /** With a positive capacity a lower bucket holds strictly smaller heats. */
  lemma LowerBucketIsColder(rule: Rule, cs: seq<Candidate>, i: nat, j: nat, x: Obj, y: Obj)
    requires 0 < rule.cap < UINT32_MAX && i < j < BUCKET_NUM
    requires x in Landed(rule, cs, i) && y in Landed(rule, cs, j)
    ensures x.heat < y.heat
  {
    var p := LandedBecause(rule, cs, i, x);
    var q := LandedBecause(rule, cs, j, y);
    if y.heat <= x.heat {
      BucketIndexMonotone(rule.advice, y.heat, x.heat, rule.min, rule.cap, rule.minPortion, rule.maxPortion,
                          cs[q].rnd, cs[p].rnd);
    }
  }

  /** Each side is partitioned by heat, and nothing on the cold side is hotter than the hot side. */
  lemma PartitionSeparates(rule: Rule, cs: seq<Candidate>, boundary: nat, dir: Direction)
    requires 0 < rule.cap < UINT32_MAX && boundary < BUCKET_NUM - 1
    ensures var b := BucketsOf(rule, cs);
            && Partitioned(dir, Side(dir, b, boundary))
            && AllBefore(dir, Flat(Side(dir, b, boundary)), Flat(Side(Opposite(dir), b, boundary)))
  {
    hide Landed, Flat;
    var b := BucketsOf(rule, cs);
    var s, o := Side(dir, b, boundary), Side(Opposite(dir), b, boundary);
    forall i, j, x: Obj, y: Obj | 0 <= i < j < |s| && x in s[i] && y in s[j] ensures Before(dir, x.heat, y.heat) {
      if dir == Hot {
        LowerBucketIsColder(rule, cs, BUCKET_NUM - 1 - j, BUCKET_NUM - 1 - i, y, x);
      } else {
        LowerBucketIsColder(rule, cs, i, j, x, y);
      }
    }
    forall x, y | x in Flat(s) && y in Flat(o) ensures Before(dir, x.heat, y.heat) {
      FlatMember(s, x);
      FlatMember(o, y);
      var i :| 0 <= i < |s| && x in s[i];
      var j :| 0 <= j < |o| && y in o[j];
      if dir == Hot {
        LowerBucketIsColder(rule, cs, j, BUCKET_NUM - 1 - i, y, x);
      } else {
        LowerBucketIsColder(rule, cs, i, BUCKET_NUM - 1 - j, x, y);
      }
    }
  }

  /**
    The agreement with a full sort. However many buckets a history of sort requests has
    sorted on one side, the walk over them hands out admitted objects only, each once, at
    least as many as the largest request (or the whole side), and its heats are the front
    of any full sort of the admitted population in that direction.
   */
  lemma WalkAgreesWithFullSort(rule: Rule, cs: seq<Candidate>, boundary: nat, dir: Direction, ns: seq<nat>,
                               ts: seq<seq<seq<Obj>>>, ds: seq<nat>, full: seq<Obj>)
    requires 0 < rule.cap < UINT32_MAX && boundary < BUCKET_NUM - 1
    requires SortHistory(dir, Side(dir, BucketsOf(rule, cs), boundary), ns, ts, ds)
    requires Ordered(dir, full) && multiset(full) == multiset(Admitted(rule, cs))
    ensures var walk := Flat(ts[|ns|][..ds[|ns|]]);
            && multiset(walk) <= multiset(full)
            && |walk| >= Min(Largest(ns), |Flat(Side(dir, BucketsOf(rule, cs), boundary))|)
            && |walk| <= |full| && Heats(walk) == Heats(full)[..|walk|]
  {
    var b := BucketsOf(rule, cs);
    hide BucketsOf, Admitted, Flat, Ordered, Partitioned, Total;
    var s, across := Side(dir, b, boundary), Flat(Side(Opposite(dir), b, boundary));
    var t, d := ts[|ns|], ds[|ns|];
    HistoryIsOneRequest(dir, s, ns, ts, ds);
    PartitionSeparates(rule, cs, boundary, dir);
    EveryObjectInOneBucket(rule, cs, boundary);
    LazyWalk(dir, s, Largest(ns), t, d);
    LazyWalkIsPrefixOfFullSort(dir, s, Largest(ns), t, d, across, full);
  }

  /** The first sort after a partition: a side that is asked for nothing is not sorted. */
  method SortBucket(bucket: HeatBucket, above: nat, below: nat)
    requires bucket.Valid() && bucket.lastAbove == bucket.lastBelow == BUCKET_NUM && bucket.registered
    modifies bucket
    ensures bucket.Valid()
    ensures Extends(Hot, old(bucket.HotSide()), 0, above, bucket.HotSide(), bucket.HotDepth())
    ensures Extends(Cold, old(bucket.ColdSide()), 0, below, bucket.ColdSide(), bucket.ColdDepth())
  {
    hide Side, Total, HeatBucket.Counted, Ordered;
    NothingAsked(Hot, bucket.HotSide(), 0, above);
    NothingAsked(Cold, bucket.ColdSide(), 0, below);
    if above > 0 {
      var _ := bucket.SortAbove(above);
    }
    if below > 0 {
      var _ := bucket.SortBelow(below);
    }
  }

  /** A later rule with the same bases: a side is extended when more is asked than is sorted. */
  method SetupExisting(bucket: HeatBucket, above: nat, below: nat)
    requires bucket.Valid() && bucket.registered
    modifies bucket
    ensures bucket.Valid()
    ensures Extends(Hot, old(bucket.HotSide()), old(bucket.HotDepth()), above, bucket.HotSide(), bucket.HotDepth())
    ensures Extends(Cold, old(bucket.ColdSide()), old(bucket.ColdDepth()), below, bucket.ColdSide(), bucket.ColdDepth())
  {
    NothingAsked(Hot, bucket.HotSide(), bucket.HotDepth(), above);
    NothingAsked(Cold, bucket.ColdSide(), bucket.ColdDepth(), below);
    hide Side, Total, Ordered;
    if above > bucket.sortedAbove {
      var _ := bucket.ExtendSortAboveBoundary(above);
    }
    if below > bucket.sortedBelow {
      var _ := bucket.ExtendSortBelowBoundary(below);
    }
  }

  /** Doing nothing answers a request that the sorted part already covers. */
  lemma NothingAsked(dir: Direction, s: seq<seq<Obj>>, d: nat, n: nat)
    requires d <= |s|
    ensures n <= Total(s[..d]) ==> Extends(dir, s, d, n, s, d)
    ensures n == 0 ==> Extends(dir, s, d, n, s, d)
  {
  }
}
