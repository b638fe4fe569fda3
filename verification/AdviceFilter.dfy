/**
  Turning the walk over one heat bucket into an advice list: an object is advised when
  every filter rule's satisfying set holds it.
 */
module AdviceFilter {
  import opened HeatOrder
  import opened LazySort
  import opened HeatBuckets

  datatype Status = Success | NoEntry | NoData

  predicate InAll(x: Obj, sets: seq<set<Obj>>)
  {
    forall k :: 0 <= k < |sets| ==> x in sets[k]
  }

  /** The walk restricted to the objects that every set holds, in walk order. */
  function Kept(walk: seq<Obj>, sets: seq<set<Obj>>): seq<Obj>
  {
    if walk == [] then []
    else
      var n := |walk| - 1;
      Kept(walk[..n], sets) + if InAll(walk[n], sets) then [walk[n]] else []
  }

  lemma KeptSnoc(walk: seq<Obj>, x: Obj, sets: seq<set<Obj>>)
    ensures Kept(walk + [x], sets) == Kept(walk, sets) + if InAll(x, sets) then [x] else []
  {
    assert (walk + [x])[..|walk|] == walk;
  }

  /** Exactly the walked objects that every filter's set holds are advised, each as often as it is walked. */
  lemma {:induction false} KeptMember(walk: seq<Obj>, sets: seq<set<Obj>>, x: Obj)
    ensures x in Kept(walk, sets) <==> x in walk && forall k :: 0 <= k < |sets| ==> x in sets[k]
    ensures x in Kept(walk, sets) ==> multiset(Kept(walk, sets))[x] == multiset(walk)[x]
  {
    if walk != [] {
      var n := |walk| - 1;
      KeptMember(walk[..n], sets, x);
      assert walk == walk[..n] + [walk[n]];
    }
  }

  /** Filtering keeps the heat order of the walk. */
  lemma {:induction false} KeptIsOrdered(dir: Direction, walk: seq<Obj>, sets: seq<set<Obj>>)
    requires Ordered(dir, walk)
    ensures Ordered(dir, Kept(walk, sets))
  {
    if walk != [] {
      var n := |walk| - 1;
      KeptIsOrdered(dir, walk[..n], sets);
      forall x, y | x in Kept(walk[..n], sets) && y in [walk[n]] ensures Before(dir, x.heat, y.heat) {
        KeptMember(walk[..n], sets, x);
      }
      OrderedConcat(dir, Kept(walk[..n], sets), [walk[n]]);
    }
  }

  /** An empty satisfying set leaves nothing to advise. */
  lemma {:induction false} EmptySetKeepsNothing(walk: seq<Obj>, sets: seq<set<Obj>>, k: nat)
    requires k < |sets| && sets[k] == {}
    ensures Kept(walk, sets) == []
  {
    if walk != [] {
      EmptySetKeepsNothing(walk[..|walk| - 1], sets, k);
      assert walk[|walk| - 1] !in sets[k];
    }
  }

  /** What the walk of one side of a bucket hands out. */
  ghost function Walk(bucket: HeatBucket, dir: Direction): seq<Obj>
    reads bucket
    requires bucket.Valid()
  {
    if dir == Hot then Flat(bucket.HotSide()[..bucket.HotDepth()]) else Flat(bucket.ColdSide()[..bucket.ColdDepth()])
  }

  datatype Filter = Filter(bucket: HeatBucket, selector: Direction)

  ghost predicate FiltersValid(filters: seq<Filter>)
    reads set k | 0 <= k < |filters| :: filters[k].bucket
  {
    forall k :: 0 <= k < |filters| ==> filters[k].bucket.Valid()
  }

  /** Each set is what the filter's own bucket walk hands out. */
  ghost predicate SetsOf(filters: seq<Filter>, sets: seq<set<Obj>>)
    reads set k | 0 <= k < |filters| :: filters[k].bucket
    requires FiltersValid(filters)
  {
    && |sets| == |filters|
    && forall k, o :: 0 <= k < |sets| ==> (o in sets[k] <==> o in Walk(filters[k].bucket, filters[k].selector))
  }

  method SatisfyingSets(filters: seq<Filter>) returns (sets: seq<set<Obj>>)
    requires FiltersValid(filters)
    ensures SetsOf(filters, sets)
  {
    hide HeatBucket.Valid, Flat;
    sets := [];
    for loop := 0 to |filters|
      invariant |sets| == loop
      invariant forall k, o :: 0 <= k < loop ==> (o in sets[k] <==> o in Walk(filters[k].bucket, filters[k].selector))
    {
      var objs := filters[loop].bucket.GetAllSatisfyingOBJs(filters[loop].selector);
      sets := sets + [objs];
    }
  }

  /**
    The advice for one tier. `hasTarget` says whether the rule has a target tier. The
    bucket's cursor moves; nothing else changes, so a filter may use the same bucket.
   */
  method IntersectAdviceAndFilterRule(bucket: HeatBucket, dir: Direction, filters: seq<Filter>, hasTarget: bool)
    returns (advice: seq<Obj>, status: Status, ghost sets: seq<set<Obj>>)
    requires bucket.Valid() && FiltersValid(filters)
    modifies bucket`curHotBucket, bucket`curHotIt, bucket`curColdBucket, bucket`curColdIt
    ensures bucket.Valid() && Walk(bucket, dir) == old(Walk(bucket, dir))
    ensures old(SetsOf(filters, sets))
    ensures hasTarget ==> advice == Kept(old(Walk(bucket, dir)), sets)
    ensures !hasTarget ==> advice == [] && status == NoData
    ensures status == Success <==> advice != []
    ensures hasTarget && advice == [] ==> (status == NoData <==> {} in sets)
  {
    hide Flat, Kept, HeatBucket.HotRest, HeatBucket.ColdRest, HeatBucket.Counted, HeatBucket.HotCursor,
         HeatBucket.ColdCursor;
    ghost var walk := Walk(bucket, dir);
    advice := [];
    var found := SatisfyingSets(filters);
    sets := found;
    for loop := 0 to |found|
      invariant {} !in found[..loop]
    {
      if found[loop] == {} {
        EmptySetKeepsNothing(walk, found, loop);
        status := NoData;
        return;
      }
    }
    if !hasTarget {
      status := NoData;
      return;
    }
    if dir == Hot {
      advice := KeepHot(bucket, found);
    } else {
      advice := KeepCold(bucket, found);
    }
    status := if |advice| > 0 then Success else NoEntry;
  }

  method KeepHot(bucket: HeatBucket, sets: seq<set<Obj>>) returns (advice: seq<Obj>)
    requires bucket.Valid()
    modifies bucket`curHotBucket, bucket`curHotIt
    ensures bucket.Valid() && advice == Kept(old(Walk(bucket, Hot)), sets)
  {
    hide Flat, Kept, HeatBucket.HotRest, HeatBucket.Counted, HeatBucket.HotCursor, HeatBucket.ColdCursor;
    ghost var walk := Walk(bucket, Hot);
    ghost var done := [];
    advice := [];
    KeptNone(sets);
    var obj := bucket.GetFirstHotOBJ();
    while obj.Some?
      invariant bucket.Valid()
      invariant obj.Some? ==> walk == done + ([obj.value] + bucket.HotRest())
      invariant obj.None? ==> walk == done && bucket.HotRest() == []
      invariant advice == Kept(done, sets)
      decreases |walk| - |done|
    {
      KeptSnoc(done, obj.value, sets);
      if InAll(obj.value, sets) {
        advice := advice + [obj.value];
      }
      done := done + [obj.value];
      obj := bucket.GetNextHotOBJ();
    }
  }

  method KeepCold(bucket: HeatBucket, sets: seq<set<Obj>>) returns (advice: seq<Obj>)
    requires bucket.Valid()
    modifies bucket`curColdBucket, bucket`curColdIt
    ensures bucket.Valid() && advice == Kept(old(Walk(bucket, Cold)), sets)
  {
    hide Flat, Kept, HeatBucket.ColdRest, HeatBucket.Counted, HeatBucket.HotCursor, HeatBucket.ColdCursor;
    ghost var walk := Walk(bucket, Cold);
    ghost var done := [];
    advice := [];
    KeptNone(sets);
    NothingSortedNothingWalked(bucket.ColdSide());
    var obj := bucket.GetFirstColdOBJ();
    while obj.Some?
      invariant bucket.Valid()
      invariant obj.Some? ==> walk == done + ([obj.value] + bucket.ColdRest()) && bucket.ColdDepth() > 0
      invariant obj.None? ==> walk == done && bucket.ColdRest() == []
      invariant advice == Kept(done, sets)
      decreases |walk| - |done|
    {
      KeptSnoc(done, obj.value, sets);
      if InAll(obj.value, sets) {
        advice := advice + [obj.value];
      }
      done := done + [obj.value];
      obj := bucket.GetNextColdOBJ();
    }
  }

  lemma KeptNone(sets: seq<set<Obj>>)
    ensures Kept([], sets) == []
  {
  }
}
