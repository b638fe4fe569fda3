/**
  The heat bucket: ten vectors of objects, a boundary between the hot and the cold side,
  how far each side is sorted, and one cursor per side.
 */
module HeatBuckets {
  import opened Common
  import opened HeatOrder
  import opened HeatRanges
  import opened LazySort

  /** One side in walk order. */
  function Side(dir: Direction, b: seq<seq<Obj>>, boundary: nat): (s: seq<seq<Obj>>)
    requires |b| == BUCKET_NUM && boundary < BUCKET_NUM - 1
    ensures |s| == (if dir == Hot then BUCKET_NUM - 1 - boundary else boundary + 1)
    ensures forall k :: 0 <= k < |s| ==> s[k] == b[if dir == Hot then BUCKET_NUM - 1 - k else k]
  {
    match dir
    case Hot => seq(BUCKET_NUM - 1 - boundary, k requires 0 <= k < BUCKET_NUM - 1 - boundary => b[BUCKET_NUM - 1 - k])
    case Cold => b[..boundary + 1]
  }

  function Opposite(dir: Direction): Direction { if dir == Hot then Cold else Hot }

  /** On one side, depths d to e of b were sorted in place; the other side was not touched. */
  ghost predicate SideSorted(dir: Direction, b: seq<seq<Obj>>, boundary: nat, d: nat, c: seq<seq<Obj>>, e: nat)
    requires |b| == BUCKET_NUM && boundary < BUCKET_NUM - 1
  {
    && |c| == |b|
    && Side(Opposite(dir), c, boundary) == Side(Opposite(dir), b, boundary)
    && SortedBetween(dir, Side(dir, b, boundary), d, Side(dir, c, boundary), e)
  }

  /** The bucket at depth e of a side. */
  function At(dir: Direction, e: int): int { if dir == Hot then BUCKET_NUM - 1 - e else e }

  /** Replacing one bucket replaces one entry of the side it lies on. */
  lemma SideUpdate(dir: Direction, b: seq<seq<Obj>>, e: nat, v: seq<Obj>, boundary: nat)
    requires |b| == BUCKET_NUM && boundary < BUCKET_NUM - 1 && e < |Side(dir, b, boundary)|
    ensures Side(dir, b[At(dir, e) := v], boundary) == Side(dir, b, boundary)[e := v]
    ensures Side(Opposite(dir), b[At(dir, e) := v], boundary) == Side(Opposite(dir), b, boundary)
  {
  }

  /** Sorting the next bucket in walk order makes the sorted part one bucket deeper. */
  lemma SortOneMore(dir: Direction, b: seq<seq<Obj>>, boundary: nat, d: nat, c: seq<seq<Obj>>, e: nat, v: seq<Obj>)
    requires |b| == BUCKET_NUM && boundary < BUCKET_NUM - 1 && e < |Side(dir, b, boundary)|
    requires SideSorted(dir, b, boundary, d, c, e)
    requires Ordered(dir, v) && multiset(v) == multiset(c[At(dir, e)])
    ensures SideSorted(dir, b, boundary, d, c[At(dir, e) := v], e + 1)
    ensures Total(Side(dir, b, boundary)[..e + 1]) == Total(Side(dir, b, boundary)[..e]) + |v|
  {
    SideUpdate(dir, c, e, v, boundary);
    var s := Side(dir, b, boundary);
    TotalSnoc(s, e);
    assert |multiset(s[e])| == |multiset(v)|;
  }

  /** A loop that stops as soon as enough is sorted has reached the depth for the request. */
  lemma DepthReached(dir: Direction, b: seq<seq<Obj>>, boundary: nat, d: nat, n: nat, c: seq<seq<Obj>>, e: nat)
    requires |b| == BUCKET_NUM && boundary < BUCKET_NUM - 1
    requires SideSorted(dir, b, boundary, d, c, e)
    requires var s := Side(dir, b, boundary);
             && Total(s[..e]) >= Min(n, Total(s))
             && (e > d ==> Total(s[..e - 1]) < Min(n, Total(s)))
    ensures Extends(dir, Side(dir, b, boundary), d, n, Side(dir, c, boundary), e)
    ensures Side(Opposite(dir), c, boundary) == Side(Opposite(dir), b, boundary)
    ensures |c| == |b|
  {
  }

  /** Before the loop starts, nothing more than the given depth is sorted. */
  lemma NothingYet(dir: Direction, b: seq<seq<Obj>>, boundary: nat, d: nat)
    requires |b| == BUCKET_NUM && boundary < BUCKET_NUM - 1 && d <= |Side(dir, b, boundary)|
    ensures SideSorted(dir, b, boundary, d, b, d)
    ensures Total(Side(dir, b, boundary)[..0]) == 0
    ensures Total(Side(dir, b, boundary)[..|Side(dir, b, boundary)|]) == Total(Side(dir, b, boundary))
  {
    assert Side(dir, b, boundary)[..|Side(dir, b, boundary)|] == Side(dir, b, boundary);
  }

  lemma TotalsKept(dir: Direction, b: seq<seq<Obj>>, boundary: nat, d: nat, c: seq<seq<Obj>>, e: nat)
    requires |b| == BUCKET_NUM && boundary < BUCKET_NUM - 1
    requires SideSorted(dir, b, boundary, d, c, e)
    ensures Total(Side(dir, c, boundary)) == Total(Side(dir, b, boundary))
    ensures Total(Side(dir, c, boundary)[..e]) == Total(Side(dir, b, boundary)[..e])
    ensures forall k :: 0 <= k < BUCKET_NUM ==> |c[k]| == |b[k]|
  {
    hide Ordered, Total;
    var s, t := Side(dir, b, boundary), Side(dir, c, boundary);
    TotalOfSameBags(s, t, e);
    TotalOfSameBags(s, t, |s|);
    assert s[..|s|] == s && t[..|t|] == t;
    forall k | 0 <= k < BUCKET_NUM ensures |c[k]| == |b[k]| {
      SizeKept(dir, b, boundary, d, c, e, k);
    }
  }

  lemma SizeKept(dir: Direction, b: seq<seq<Obj>>, boundary: nat, d: nat, c: seq<seq<Obj>>, e: nat, k: nat)
    requires |b| == BUCKET_NUM && boundary < BUCKET_NUM - 1 && k < BUCKET_NUM
    requires SideSorted(dir, b, boundary, d, c, e)
    ensures |c[k]| == |b[k]|
  {
    hide Ordered, Total;
    var x := if k > boundary then Hot else Cold;
    var i := if k > boundary then BUCKET_NUM - 1 - k else k;
    assert Side(x, b, boundary)[i] == b[k] && Side(x, c, boundary)[i] == c[k];
    assert |multiset(c[k])| == |multiset(b[k])|;
  }

  lemma {:induction false} TotalOfEmpty(s: seq<seq<Obj>>, k: nat)
    requires k <= |s| && forall i :: 0 <= i < k ==> s[i] == []
    ensures Total(s[..k]) == 0
  {
    if k > 0 {
      TotalOfEmpty(s, k - 1);
      TotalSnoc(s, k - 1);
    }
  }

  lemma FlatSplit(s: seq<seq<Obj>>, i: nat, d: nat, e: nat)
    requires i <= d <= e <= |s|
    ensures Flat(s[i..e]) == Flat(s[i..d]) + Flat(s[d..e])
  {
    FlatConcat(s[i..d], s[d..e]);
    assert s[i..e] == s[i..d] + s[d..e];
  }

  /** What a cursor at depth k, position it, of a side sorted to depth d has still to hand out. */
  function RestOf(s: seq<seq<Obj>>, d: nat, k: nat, it: nat): seq<Obj>
    requires d <= |s| && (k < d ==> it <= |s[k]|)
  {
    if k >= d then [] else s[k][it..] + Flat(s[k + 1..d])
  }

  /**
    Sorting deeper only adds to the end of what a cursor has to hand out, also when it
    had already reported the end.
   */
  lemma RestGrows(dir: Direction, s: seq<seq<Obj>>, d: nat, n: nat, t: seq<seq<Obj>>, e: nat, k: nat, it: nat)
    requires Extends(dir, s, d, n, t, e)
    requires k <= d && (k < d ==> it <= |s[k]|) && (k == d ==> it == 0)
    ensures k < e ==> it <= |t[k]|
    ensures RestOf(t, e, k, it) == RestOf(s, d, k, it) + Flat(t[d..e])
  {
    hide Total, Ordered, Flat, DepthFor, SameBags;
    assert e <= |t| && forall j :: k <= j < d ==> t[j] == s[j] by {
      assert |t| == |s| by {
        assert SameBags(s, t);
        SameLength(s, t);
      }
    }
    if k < d {
      FlatSplit(t, k + 1, d, e);
      assert t[k + 1..d] == s[k + 1..d];
      Associative(s[k][it..], Flat(s[k + 1..d]), Flat(t[d..e]));
    } else if k < e {
      WalkFrom(t, k, e);
    } else {
      WalkFrom(t, d, e);
    }
  }

  lemma SameLength(s: seq<seq<Obj>>, t: seq<seq<Obj>>)
    requires SameBags(s, t)
    ensures |s| == |t|
  {
  }

  lemma DeeperOnly(dir: Direction, s: seq<seq<Obj>>, d: nat, n: nat, t: seq<seq<Obj>>, e: nat)
    requires Extends(dir, s, d, n, t, e)
    ensures d <= e
  {
  }

  /** A cursor that was moved over the first bucket before anything was sorted. */
  lemma RestFromBucket0(s: seq<seq<Obj>>, e: nat, it: nat)
    requires 0 < |s| && e <= |s| && it <= |s[0]|
    ensures e > 0 ==> Flat(s[..e]) == s[0][..it] + RestOf(s, e, 0, it)
  {
    if e > 0 {
      WalkFrom(s, 0, e);
      assert s[0..e] == s[..e];
      assert s[0] == s[0][..it] + s[0][it..];
      Associative(s[0][..it], s[0][it..], Flat(s[1..e]));
    }
  }

  lemma WalkFrom(s: seq<seq<Obj>>, i: nat, d: nat)
    requires i <= d <= |s|
    ensures i < d ==> Flat(s[i..d]) == s[i] + Flat(s[i + 1..d])
    ensures i == d ==> Flat(s[i..d]) == []
  {
    if i < d {
      assert s[i..d][1..] == s[i + 1..d];
    }
  }

  class HeatBucket {
    const registered: bool
    var buckets: seq<seq<Obj>>
    var sortedAbove: nat
    var sortedBelow: nat
    var boundary: nat
    var objsAbove: nat
    var objsBelow: nat
    var lastAbove: nat
    var lastBelow: nat
    var curHotBucket: nat
    var curHotIt: nat
    var curColdBucket: nat
    var curColdIt: nat

    /** Bucket 10 stands for "nothing sorted" on both sides. */
    ghost predicate Shape()
      reads `buckets, `boundary, `lastAbove, `lastBelow
    {
      && |buckets| == BUCKET_NUM
      && boundary < BUCKET_NUM - 1
      && boundary < lastAbove <= BUCKET_NUM
      && (lastBelow <= boundary || lastBelow == BUCKET_NUM)
    }

    ghost function HotSide(): seq<seq<Obj>>
      reads `buckets, `boundary, `lastAbove, `lastBelow
      requires Shape()
    {
      Side(Hot, buckets, boundary)
    }

    ghost function ColdSide(): seq<seq<Obj>>
      reads `buckets, `boundary, `lastAbove, `lastBelow
      requires Shape()
    {
      Side(Cold, buckets, boundary)
    }

    ghost function HotDepth(): nat
      reads `buckets, `boundary, `lastAbove, `lastBelow
      requires Shape()
    {
      BUCKET_NUM - lastAbove
    }

    ghost function ColdDepth(): nat
      reads `lastBelow
    {
      if lastBelow == BUCKET_NUM then 0 else lastBelow + 1
    }

    ghost predicate Counted()
      reads `buckets, `boundary, `lastAbove, `lastBelow, `objsAbove, `objsBelow, `sortedAbove, `sortedBelow
      requires Shape()
    {
      && objsAbove == Total(HotSide())
      && objsBelow == Total(ColdSide())
      && sortedAbove == Total(HotSide()[..HotDepth()])
      && sortedBelow == Total(ColdSide()[..ColdDepth()])
      && (ColdDepth() > 0 ==> sortedBelow > 0)
    }

    /**
      A cursor is inside the sorted part, or parked at the head of the first bucket beyond it.
      Only the cold one may be moved over bucket 0 although nothing is sorted.
     */
    ghost predicate HotCursor()
      reads `buckets, `lastAbove, `curHotBucket, `curHotIt
    {
      |buckets| == BUCKET_NUM &&
      if curHotBucket + 1 == lastAbove then curHotIt == 0
      else lastAbove <= curHotBucket < BUCKET_NUM && curHotIt <= |buckets[curHotBucket]|
    }

    ghost predicate ColdCursor()
      reads `buckets, `lastBelow, `curColdBucket, `curColdIt
    {
      |buckets| == BUCKET_NUM &&
      if ColdDepth() == 0 then curColdBucket == 0 && curColdIt <= |buckets[0]|
      else if curColdBucket == ColdDepth() then curColdIt == 0
      else curColdBucket < ColdDepth() <= BUCKET_NUM && curColdIt <= |buckets[curColdBucket]|
    }

    ghost predicate CursorsInside()
      reads `buckets, `lastAbove, `lastBelow, `curHotBucket, `curHotIt, `curColdBucket, `curColdIt
    {
      HotCursor() && ColdCursor()
    }

    ghost predicate Valid()
      reads this
    {
      Shape() && Counted() && CursorsInside()
    }

    /** What the hot cursor has still to hand out. */
    ghost function HotRest(): seq<Obj>
      reads this
      requires Shape() && HotCursor()
    {
      RestOf(HotSide(), HotDepth(), BUCKET_NUM - 1 - curHotBucket, curHotIt)
    }

    /** What the cold cursor has still to hand out, if anything is sorted at all. */
    ghost function ColdRest(): seq<Obj>
      reads this
      requires Shape() && ColdCursor()
    {
      RestOf(ColdSide(), ColdDepth(), curColdBucket, curColdIt)
    }

    constructor (registered: bool)
      ensures Valid() && this.registered == registered
      ensures |buckets| == 10 && forall k :: 0 <= k < 10 ==> buckets[k] == []
      ensures lastAbove == lastBelow == 10 && boundary == 3 && curColdIt == 0
    {
      this.registered := registered;
      buckets := seq(BUCKET_NUM, _ => []);
      sortedAbove, sortedBelow, objsAbove, objsBelow := 0, 0, 0, 0;
      boundary := DEFAULT_BUCKET_BOUNDARY;
      lastAbove, lastBelow := BUCKET_NUM, BUCKET_NUM;
      curHotBucket, curHotIt := BUCKET_NUM - 1, 0;
      curColdBucket, curColdIt := 0, 0;
      new;
      TotalOfEmpty(HotSide(), |HotSide()|);
      TotalOfEmpty(ColdSide(), |ColdSide()|);
      assert HotSide()[..|HotSide()|] == HotSide() && ColdSide()[..|ColdSide()|] == ColdSide();
    }

    method AddOBJ(index: nat, obj: Obj)
      requires index < |buckets|
      modifies this`buckets
      ensures |buckets| == |old(buckets)| && buckets == old(buckets)[index := old(buckets)[index] + [obj]]
    {
      buckets := buckets[index := buckets[index] + [obj]];
    }

    method CalculateOBJsAboveBoundary() returns (total: nat)
      requires Shape()
      ensures total == Total(HotSide())
    {
      hide Total;
      NothingYet(Hot, buckets, boundary, 0);
      var index := BUCKET_NUM - 1;
      total := 0;
      while index > boundary
        invariant boundary <= index < BUCKET_NUM
        invariant total == Total(HotSide()[..BUCKET_NUM - 1 - index])
      {
        TotalSnoc(HotSide(), BUCKET_NUM - 1 - index);
        total := total + |buckets[index]|;
        index := index - 1;
      }
    }

    method CalculateOBJsBelowBoundary() returns (total: nat)
      requires Shape()
      ensures total == Total(ColdSide())
    {
      hide Total;
      NothingYet(Cold, buckets, boundary, 0);
      total := 0;
      for index := 0 to boundary + 1
        invariant total == Total(ColdSide()[..index])
      {
        TotalSnoc(ColdSide(), index);
        total := total + |buckets[index]|;
      }
    }

    /** Sorts one vector in place, if there is anything in it; the others stay as they are. */
    method SortInPlace(dir: Direction, index: nat) returns (size: nat)
      requires index < |buckets|
      modifies this`buckets
      ensures |buckets| == |old(buckets)| && buckets == old(buckets)[index := buckets[index]]
      ensures Ordered(dir, buckets[index]) && multiset(buckets[index]) == multiset(old(buckets)[index])
      ensures size == |buckets[index]|
    {
      if buckets[index] != [] {
        var sorted := Sort(dir, buckets[index]);
        buckets := buckets[index := sorted];
      }
      size := |buckets[index]|;
    }

    /** The loop both hot sorts run: from `start` towards the boundary until enough is sorted. */
    method SortDown(start: nat, presorted: nat, wanted: nat) returns (index: nat, sorted: nat)
      requires |buckets| == BUCKET_NUM && boundary <= start < BUCKET_NUM && boundary < BUCKET_NUM - 1
      requires presorted == Total(Side(Hot, buckets, boundary)[..BUCKET_NUM - 1 - start])
      requires wanted <= Total(Side(Hot, buckets, boundary))
      modifies this`buckets
      ensures boundary <= index <= start
      ensures SideSorted(Hot, old(buckets), boundary, BUCKET_NUM - 1 - start, buckets, BUCKET_NUM - 1 - index)
      ensures sorted == Total(Side(Hot, old(buckets), boundary)[..BUCKET_NUM - 1 - index])
      ensures sorted >= wanted
      ensures index < start ==> Total(Side(Hot, old(buckets), boundary)[..BUCKET_NUM - 2 - index]) < wanted
    {
      hide SideSorted, Ordered, Total;
      ghost var d := BUCKET_NUM - 1 - start;
      NothingYet(Hot, buckets, boundary, d);
      sorted, index := presorted, start;
      while sorted < wanted && index > boundary
        invariant boundary <= index <= start
        invariant |buckets| == BUCKET_NUM
        invariant SideSorted(Hot, old(buckets), boundary, d, buckets, BUCKET_NUM - 1 - index)
        invariant sorted == Total(Side(Hot, old(buckets), boundary)[..BUCKET_NUM - 1 - index])
        invariant index < start ==> Total(Side(Hot, old(buckets), boundary)[..BUCKET_NUM - 2 - index]) < wanted
      {
        ghost var c := buckets;
        var size := SortInPlace(Hot, index);
        SortOneMore(Hot, old(buckets), boundary, d, c, BUCKET_NUM - 1 - index, buckets[index]);
        sorted := sorted + size;
        index := index - 1;
      }
    }

    /** The loop both cold sorts run: from `start` up to the boundary until enough is sorted. */
    method SortUp(start: nat, presorted: nat, wanted: nat) returns (index: nat, sorted: nat)
      requires |buckets| == BUCKET_NUM && start <= boundary + 1 && boundary < BUCKET_NUM - 1
      requires presorted == Total(Side(Cold, buckets, boundary)[..start])
      requires wanted <= Total(Side(Cold, buckets, boundary))
      modifies this`buckets
      ensures start <= index <= boundary + 1
      ensures SideSorted(Cold, old(buckets), boundary, start, buckets, index)
      ensures sorted == Total(Side(Cold, old(buckets), boundary)[..index])
      ensures sorted >= wanted
      ensures index > start ==> Total(Side(Cold, old(buckets), boundary)[..index - 1]) < wanted && presorted < wanted
    {
      hide SideSorted, Ordered, Total;
      NothingYet(Cold, buckets, boundary, start);
      sorted, index := presorted, start;
      while sorted < wanted && index <= boundary
        invariant start <= index <= boundary + 1
        invariant |buckets| == BUCKET_NUM
        invariant SideSorted(Cold, old(buckets), boundary, start, buckets, index)
        invariant sorted == Total(Side(Cold, old(buckets), boundary)[..index])
        invariant index > start ==>
                  Total(Side(Cold, old(buckets), boundary)[..index - 1]) < wanted && presorted < wanted
      {
        ghost var c := buckets;
        var size := SortInPlace(Cold, index);
        SortOneMore(Cold, old(buckets), boundary, start, c, index, buckets[index]);
        sorted := sorted + size;
        index := index + 1;
      }
    }

    /** Sorts the hot side from its hottest bucket down; without a comparator nothing is sorted. */
    method SortAbove(maxn: nat) returns (found: bool)
      requires Shape() && Counted()
      modifies this`sortedAbove, this`lastAbove, this`buckets
      ensures Shape() && Counted() && found == registered
      ensures ColdSide() == old(ColdSide())
      ensures found ==> Extends(Hot, old(HotSide()), 0, maxn, HotSide(), HotDepth())
      ensures !found ==> HotSide() == old(HotSide()) && HotDepth() == 0
      ensures old(lastAbove == BUCKET_NUM && CursorsInside()) ==> CursorsInside()
    {
      hide SideSorted, SortedBetween, DepthFor, Extends, Ordered, Side, Total, SameBags;
      ghost var b := buckets;
      NothingYet(Hot, b, boundary, 0);
      found := registered;
      if !found {
        sortedAbove, lastAbove := 0, BUCKET_NUM;
        return;
      }
      var wanted := Min(maxn, objsAbove);
      var index, sorted := SortDown(BUCKET_NUM - 1, 0, wanted);
      ghost var e := BUCKET_NUM - 1 - index;
      DepthReached(Hot, b, boundary, 0, maxn, buckets, e);
      if sorted == 0 || index < BUCKET_NUM - 1 {
        index := index + 1;
      }
      sortedAbove := sorted;
      lastAbove := Max(index, boundary + 1);
      TotalsKept(Hot, b, boundary, 0, buckets, e);
    }

    /** Continues the hot sort below the last sorted bucket; sorted buckets are not touched again. */
    method ExtendSortAboveBoundary(required: nat) returns (found: bool)
      requires Valid()
      modifies this`sortedAbove, this`lastAbove, this`buckets
      ensures Valid() && found == registered
      ensures ColdSide() == old(ColdSide())
      ensures found ==> Extends(Hot, old(HotSide()), old(HotDepth()), required, HotSide(), HotDepth())
      ensures !found ==> HotSide() == old(HotSide()) && HotDepth() == old(HotDepth())
      ensures HotRest() == old(HotRest()) + Flat(HotSide()[old(HotDepth())..HotDepth()])
    {
      hide SideSorted, SortedBetween, DepthFor, Extends, Ordered, Side, Total, SameBags, RestOf, Counted;
      ghost var s, d := HotSide(), HotDepth();
      WalkFrom(s, d, d);
      found := SortFurtherAbove(required);
      if found {
        DeeperOnly(Hot, s, d, required, HotSide(), HotDepth());
        RestGrows(Hot, s, d, required, HotSide(), HotDepth(), BUCKET_NUM - 1 - curHotBucket, curHotIt);
      }
    }

    method SortFurtherAbove(required: nat) returns (found: bool)
      requires Shape() && Counted()
      modifies this`sortedAbove, this`lastAbove, this`buckets
      ensures Shape() && Counted() && found == registered
      ensures forall k :: 0 <= k < BUCKET_NUM ==> |buckets[k]| == |old(buckets)[k]|
      ensures ColdSide() == old(ColdSide())
      ensures found ==> Extends(Hot, old(HotSide()), old(HotDepth()), required, HotSide(), HotDepth())
      ensures !found ==> buckets == old(buckets) && lastAbove == old(lastAbove)
    {
      hide SideSorted, SortedBetween, DepthFor, Extends, Ordered, Side, Total, SameBags;
      ghost var b, d := buckets, HotDepth();
      found := registered;
      if !found {
        return;
      }
      var wanted := Min(required, objsAbove);
      var start, presorted := lastAbove - 1, sortedAbove;
      var index, sorted := SortDown(start, presorted, wanted);
      ghost var e := BUCKET_NUM - 1 - index;
      DepthReached(Hot, b, boundary, d, required, buckets, e);
      if sorted == presorted || index < start {
        index := index + 1;
      }
      sortedAbove := sorted;
      lastAbove := Max(index, boundary + 1);
      TotalsKept(Hot, b, boundary, d, buckets, e);
    }

    /** Sorts the cold side from its coldest bucket up. */
    method SortBelow(minn: nat) returns (found: bool)
      requires Shape() && Counted()
      modifies this`sortedBelow, this`lastBelow, this`buckets
      ensures Shape() && Counted() && found == registered
      ensures HotSide() == old(HotSide())
      ensures found ==> Extends(Cold, old(ColdSide()), 0, minn, ColdSide(), ColdDepth())
      ensures !found ==> ColdSide() == old(ColdSide()) && ColdDepth() == 0
      ensures old(lastBelow == BUCKET_NUM && CursorsInside()) ==> CursorsInside()
    {
      hide SideSorted, SortedBetween, DepthFor, Extends, Ordered, Side, Total, SameBags;
      ghost var b := buckets;
      NothingYet(Cold, b, boundary, 0);
      found := registered;
      if !found {
        sortedBelow, lastBelow := 0, BUCKET_NUM;
        return;
      }
      var wanted := Min(minn, objsBelow);
      var index, sorted := SortUp(0, 0, wanted);
      ghost var e := index;
      DepthReached(Cold, b, boundary, 0, minn, buckets, e);
      if sorted == 0 {
        index := BUCKET_NUM;
      } else if index > 0 {
        index := index - 1;
      }
      sortedBelow := sorted;
      lastBelow := if index == BUCKET_NUM then index else Min(index, boundary);
      TotalsKept(Cold, b, boundary, 0, buckets, e);
    }

    /** Continues the cold sort above the last sorted bucket, or from bucket 0 if there is none. */
    method ExtendSortBelowBoundary(required: nat) returns (found: bool)
      requires Valid()
      modifies this`sortedBelow, this`lastBelow, this`buckets
      ensures Valid() && found == registered
      ensures HotSide() == old(HotSide())
      ensures found ==> Extends(Cold, old(ColdSide()), old(ColdDepth()), required, ColdSide(), ColdDepth())
      ensures !found ==> ColdSide() == old(ColdSide()) && ColdDepth() == old(ColdDepth())
      ensures old(ColdDepth() > 0 || curColdIt == 0) ==>
                ColdRest() == old(ColdRest()) + Flat(ColdSide()[old(ColdDepth())..ColdDepth()])
      ensures old(ColdDepth()) == 0 && ColdDepth() > 0 ==>
                Flat(ColdSide()[..ColdDepth()]) == buckets[0][..curColdIt] + ColdRest()
    {
      hide SideSorted, SortedBetween, DepthFor, Extends, Ordered, Side, Total, SameBags, RestOf, Counted;
      ghost var s, d := ColdSide(), ColdDepth();
      WalkFrom(s, d, d);
      found := SortFurtherBelow(required);
      if found {
        DeeperOnly(Cold, s, d, required, ColdSide(), ColdDepth());
        if d > 0 || curColdIt == 0 {
          RestGrows(Cold, s, d, required, ColdSide(), ColdDepth(), curColdBucket, curColdIt);
        }
        RestFromBucket0(ColdSide(), ColdDepth(), if d == 0 then curColdIt else 0);
      }
    }

    method SortFurtherBelow(required: nat) returns (found: bool)
      requires Shape() && Counted()
      modifies this`sortedBelow, this`lastBelow, this`buckets
      ensures Shape() && Counted() && found == registered
      ensures forall k :: 0 <= k < BUCKET_NUM ==> |buckets[k]| == |old(buckets)[k]|
      ensures HotSide() == old(HotSide())
      ensures found ==> Extends(Cold, old(ColdSide()), old(ColdDepth()), required, ColdSide(), ColdDepth())
      ensures !found ==> buckets == old(buckets) && lastBelow == old(lastBelow)
    {
      hide SideSorted, SortedBetween, DepthFor, Extends, Ordered, Side, Total, SameBags;
      ghost var b, d := buckets, ColdDepth();
      found := registered;
      if !found {
        return;
      }
      NothingYet(Cold, b, boundary, 0);
      var wanted := Min(required, objsBelow);
      var start, presorted := if lastBelow == BUCKET_NUM then 0 else lastBelow + 1, sortedBelow;
      var index, sorted := SortUp(start, presorted, wanted);
      ghost var e := index;
      DepthReached(Cold, b, boundary, d, required, buckets, e);
      if sorted == presorted {
        index := if sorted == 0 then BUCKET_NUM else index - 1;
      } else if index > start {
        index := index - 1;
      }
      sortedBelow := sorted;
      lastBelow := if index == BUCKET_NUM then index else Min(index, boundary);
      TotalsKept(Cold, b, boundary, d, buckets, e);
    }

    method GetFirstHotOBJFromBucketIndexOn(bucketindex: nat) returns (obj: Option<Obj>)
      requires Shape() && lastAbove - 1 <= bucketindex < BUCKET_NUM
      modifies this`curHotBucket, this`curHotIt
      ensures HotCursor()
      ensures var walk := Flat(HotSide()[BUCKET_NUM - 1 - bucketindex..HotDepth()]);
              match obj
              case None => walk == [] && HotRest() == []
              case Some(o) => walk == [o] + HotRest()
    {
      hide Counted, Flat, Side, Total;
      var index := bucketindex;
      ghost var side, d := HotSide(), HotDepth();
      while index >= lastAbove && buckets[index] == []
        invariant lastAbove - 1 <= index <= bucketindex
        invariant Flat(side[BUCKET_NUM - 1 - index..d]) == Flat(side[BUCKET_NUM - 1 - bucketindex..d])
      {
        WalkFrom(side, BUCKET_NUM - 1 - index, d);
        index := index - 1;
      }
      WalkFrom(side, BUCKET_NUM - 1 - index, d);
      if index < lastAbove {
        curHotBucket, curHotIt := lastAbove - 1, 0;
        obj := None;
      } else {
        curHotBucket, curHotIt := index, 0;
        obj := Some(buckets[index][0]);
        curHotIt := curHotIt + 1;
        HeadOfWalk(buckets[index], Flat(side[BUCKET_NUM - index..d]));
      }
    }

    method GetFirstHotOBJ() returns (obj: Option<Obj>)
      requires Valid()
      modifies this`curHotBucket, this`curHotIt
      ensures Valid()
      ensures var walk := Flat(HotSide()[..HotDepth()]);
              match obj
              case None => walk == [] && HotRest() == []
              case Some(o) => walk == [o] + HotRest()
    {
      obj := GetFirstHotOBJFromBucketIndexOn(BUCKET_NUM - 1);
      assert HotSide()[0..HotDepth()] == HotSide()[..HotDepth()];
    }

    method GetNextHotOBJ() returns (obj: Option<Obj>)
      requires Valid()
      modifies this`curHotBucket, this`curHotIt
      ensures Valid()
      ensures match obj
              case None => old(HotRest()) == [] && HotRest() == []
              case Some(o) => old(HotRest()) == [o] + HotRest()
    {
      hide Counted, Flat, Side, Total;
      if curHotBucket < lastAbove {
        obj := None;
      } else if curHotIt != |buckets[curHotBucket]| {
        obj := Some(buckets[curHotBucket][curHotIt]);
        HeadOfWalk(buckets[curHotBucket][curHotIt..], Flat(HotSide()[BUCKET_NUM - curHotBucket..HotDepth()]));
        curHotIt := curHotIt + 1;
      } else {
        assert HotRest() == Flat(HotSide()[BUCKET_NUM - curHotBucket..HotDepth()]);
        obj := NextHotBucket();
      }
    }

    /** The cursor at the end of its bucket moves to the next non-empty one. */
    method NextHotBucket() returns (obj: Option<Obj>)
      requires Valid() && curHotBucket >= lastAbove && curHotIt == |buckets[curHotBucket]|
      modifies this`curHotBucket, this`curHotIt
      ensures Valid()
      ensures var walk := Flat(HotSide()[BUCKET_NUM - old(curHotBucket)..HotDepth()]);
              match obj
              case None => walk == [] && HotRest() == []
              case Some(o) => walk == [o] + HotRest()
    {
      hide Counted, Flat, Side, Total;
      curHotBucket, curHotIt := curHotBucket - 1, 0;
      obj := GetFirstHotOBJFromBucketIndexOn(curHotBucket);
    }

    method GetFirstColdOBJFromBucketIndexOn(bucketindex: nat) returns (obj: Option<Obj>)
      requires Shape() && (ColdDepth() > 0 ==> bucketindex <= ColdDepth())
      modifies this`curColdBucket, this`curColdIt
      ensures ColdCursor()
      ensures ColdDepth() == 0 ==> obj == None && ColdRest() == [] && curColdIt == 0
      ensures ColdDepth() > 0 ==>
                var walk := Flat(ColdSide()[bucketindex..ColdDepth()]);
                match obj
                case None => walk == [] && ColdRest() == []
                case Some(o) => walk == [o] + ColdRest()
    {
      hide Counted, Flat, Side, Total;
      if lastBelow == BUCKET_NUM {
        curColdBucket, curColdIt := 0, 0;
        return None;
      }
      var index := bucketindex;
      ghost var side, d := ColdSide(), ColdDepth();
      while index <= lastBelow && buckets[index] == []
        invariant bucketindex <= index <= d
        invariant Flat(side[index..d]) == Flat(side[bucketindex..d])
      {
        WalkFrom(side, index, d);
        index := index + 1;
      }
      WalkFrom(side, index, d);
      if index > lastBelow {
        curColdBucket, curColdIt := lastBelow + 1, 0;
        obj := None;
      } else {
        curColdBucket, curColdIt := index, 0;
        obj := Some(buckets[index][0]);
        curColdIt := curColdIt + 1;
        HeadOfWalk(buckets[index], Flat(side[index + 1..d]));
      }
    }

    method GetFirstColdOBJ() returns (obj: Option<Obj>)
      requires Valid()
      modifies this`curColdBucket, this`curColdIt
      ensures Valid()
      ensures var walk := Flat(ColdSide()[..ColdDepth()]);
              match obj
              case None => walk == [] && ColdRest() == []
              case Some(o) => walk == [o] + ColdRest()
    {
      obj := GetFirstColdOBJFromBucketIndexOn(0);
      assert ColdSide()[0..ColdDepth()] == ColdSide()[..ColdDepth()];
    }

    /**
      With nothing sorted the code does not report the end: it hands out the unsorted bucket 0
      from its head to its end, reports the end once, and starts with the head again.
     */
    method GetNextColdOBJ() returns (obj: Option<Obj>)
      requires Valid()
      modifies this`curColdBucket, this`curColdIt
      ensures Valid()
      ensures ColdDepth() > 0 ==>
                match obj
                case None => old(ColdRest()) == [] && ColdRest() == []
                case Some(o) => old(ColdRest()) == [o] + ColdRest()
      ensures ColdDepth() == 0 ==>
                if old(curColdIt) < |buckets[0]| then obj == Some(buckets[0][old(curColdIt)])
                  && curColdIt == old(curColdIt) + 1
                else obj == None && curColdIt == 0
    {
      hide Counted, Flat, Side, Total;
      if curColdBucket > lastBelow {
        obj := None;
      } else if curColdIt != |buckets[curColdBucket]| {
        obj := Some(buckets[curColdBucket][curColdIt]);
        if ColdDepth() > 0 {
          HeadOfWalk(buckets[curColdBucket][curColdIt..], Flat(ColdSide()[curColdBucket + 1..ColdDepth()]));
        }
        curColdIt := curColdIt + 1;
      } else {
        obj := NextColdBucket();
      }
    }

    method NextColdBucket() returns (obj: Option<Obj>)
      requires Valid() && curColdBucket <= lastBelow && curColdIt == |buckets[curColdBucket]|
      modifies this`curColdBucket, this`curColdIt
      ensures Valid()
      ensures ColdDepth() == 0 ==> obj == None && curColdIt == 0
      ensures ColdDepth() > 0 ==>
                var walk := Flat(ColdSide()[old(curColdBucket) + 1..ColdDepth()]);
                match obj
                case None => walk == [] && ColdRest() == []
                case Some(o) => walk == [o] + ColdRest()
    {
      hide Counted, Flat, Side, Total;
      curColdBucket, curColdIt := curColdBucket + 1, 0;
      obj := GetFirstColdOBJFromBucketIndexOn(curColdBucket);
    }

    /** The caller's loop: First, then Next until the end. */
    method WalkHot() returns (out: seq<Obj>)
      requires Valid()
      modifies this`curHotBucket, this`curHotIt
      ensures Valid() && HotRest() == []
      ensures out == Flat(HotSide()[..HotDepth()])
    {
      hide Counted, HotCursor, ColdCursor, HotRest, Flat, Side;
      out := [];
      ghost var walk := Flat(HotSide()[..HotDepth()]);
      var obj := GetFirstHotOBJ();
      while obj.Some?
        invariant Valid()
        invariant obj.Some? ==> walk == out + ([obj.value] + HotRest())
        invariant obj.None? ==> walk == out && HotRest() == []
        decreases |walk| - |out|
      {
        out := out + [obj.value];
        obj := GetNextHotOBJ();
      }
    }

    method WalkCold() returns (out: seq<Obj>)
      requires Valid()
      modifies this`curColdBucket, this`curColdIt
      ensures Valid() && ColdRest() == []
      ensures out == Flat(ColdSide()[..ColdDepth()])
    {
      hide Counted, HotCursor, ColdCursor, ColdRest, Flat, Side;
      out := [];
      ghost var walk := Flat(ColdSide()[..ColdDepth()]);
      var obj := GetFirstColdOBJ();
      NothingSortedNothingWalked(ColdSide());
      while obj.Some?
        invariant Valid()
        invariant obj.Some? ==> walk == out + ([obj.value] + ColdRest()) && ColdDepth() > 0
        invariant obj.None? ==> walk == out && ColdRest() == []
        decreases |walk| - |out|
      {
        out := out + [obj.value];
        obj := GetNextColdOBJ();
      }
    }

    /** All objects of the sorted buckets of one side. */
    method GetAllSatisfyingOBJs(selector: Direction) returns (objs: set<Obj>)
      requires Valid()
      ensures forall o :: o in objs <==>
              o in Flat(if selector == Hot then HotSide()[..HotDepth()] else ColdSide()[..ColdDepth()])
    {
      hide Counted, HotCursor, ColdCursor, Flat, Total;
      objs := {};
      NothingSortedNothingWalked(HotSide());
      NothingSortedNothingWalked(ColdSide());
      if selector == Hot {
        var cur := BUCKET_NUM - 1;
        ghost var d := 0;
        while cur >= lastAbove
          invariant d <= HotDepth() && cur == BUCKET_NUM - 1 - d
          invariant forall o :: o in objs <==> o in Flat(HotSide()[..d])
          decreases cur
        {
          assert buckets[cur] == HotSide()[d];
          WalkSnoc(HotSide(), d);
          objs := objs + set o | o in buckets[cur];
          d := d + 1;
          cur := cur - 1;
        }
      } else if lastBelow != BUCKET_NUM {
        for cur := 0 to lastBelow + 1
          invariant forall o :: o in objs <==> o in Flat(ColdSide()[..cur])
        {
          assert buckets[cur] == ColdSide()[cur];
          WalkSnoc(ColdSide(), cur);
          objs := objs + set o | o in buckets[cur];
        }
      }
    }
  }

  lemma NothingSortedNothingWalked(s: seq<seq<Obj>>)
    ensures Flat(s[..0]) == []
  {
  }

  lemma WalkSnoc(s: seq<seq<Obj>>, d: nat)
    requires d < |s|
    ensures Flat(s[..0]) == [] && Flat(s[..d + 1]) == Flat(s[..d]) + s[d]
  {
    FlatConcat(s[..d], [s[d]]);
    assert s[..d + 1] == s[..d] + [s[d]];
  }

  lemma HeadOfWalk(b: seq<Obj>, rest: seq<Obj>)
    requires b != []
    ensures b + rest == [b[0]] + (b[1..] + rest)
  {
  }
}
