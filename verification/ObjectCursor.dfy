/**
  The shared cursor over all objects: sub-pools in key order, in each sub-pool the disks
  in key order, on each disk the objects in key order. Every level keeps its own position.
 */
module ObjectCursor {
  import opened Common

  type ObjKey = nat

  datatype DiskView = DiskView(objs: seq<ObjKey>, it: nat)

  datatype SubPoolView = SubPoolView(key: nat, disks: seq<DiskView>, it: nat)

  /** Restarts the cursor of one disk; the answer is its first object, if any. */
  function DiskFirst(d: DiskView): (DiskView, Option<ObjKey>)
  {
    if d.objs == [] then (d.(it := 0), None) else (d.(it := 1), Some(d.objs[0]))
  }

  function DiskNext(d: DiskView): (DiskView, Option<ObjKey>)
  {
    if d.it < |d.objs| then (d.(it := d.it + 1), Some(d.objs[d.it])) else (d, None)
  }

  function DiskRest(d: DiskView): seq<ObjKey>
  {
    if d.it <= |d.objs| then d.objs[d.it..] else []
  }

  function DisksAll(disks: seq<DiskView>): seq<ObjKey>
  {
    if disks == [] then [] else disks[0].objs + DisksAll(disks[1..])
  }

  function PoolRest(p: SubPoolView): seq<ObjKey>
  {
    if p.it >= |p.disks| then [] else DiskRest(p.disks[p.it]) + DisksAll(p.disks[p.it + 1..])
  }

  /** All objects of the involved sub-pools, in cursor order. */
  function PoolsAll(pools: seq<SubPoolView>, involved: set<nat>): seq<ObjKey>
  {
    if pools == [] then []
    else (if pools[0].key in involved then DisksAll(pools[0].disks) else []) + PoolsAll(pools[1..], involved)
  }

  function ViewRest(pools: seq<SubPoolView>, it: nat, involved: set<nat>): seq<ObjKey>
  {
    if it >= |pools| then [] else PoolRest(pools[it]) + PoolsAll(pools[it + 1..], involved)
  }

  function Count(pools: seq<SubPoolView>): nat
  {
    if pools == [] then 0 else |DisksAll(pools[0].disks)| + Count(pools[1..])
  }

  /** The number of involved objects never exceeds the number of objects. */
  lemma {:induction false} InvolvedAtMostAll(pools: seq<SubPoolView>, involved: set<nat>)
    ensures |PoolsAll(pools, involved)| <= Count(pools)
  {
    if pools != [] {
      InvolvedAtMostAll(pools[1..], involved);
    }
  }

  /** Exactly when everything counted is involved: no object is on a sub-pool that is not. */
  lemma {:induction false} AllInvolvedIff(pools: seq<SubPoolView>, involved: set<nat>)
    ensures |PoolsAll(pools, involved)| == Count(pools) <==>
            forall p :: 0 <= p < |pools| && pools[p].key !in involved ==> DisksAll(pools[p].disks) == []
  {
    if pools != [] {
      var rest := pools[1..];
      AllInvolvedIff(rest, involved);
      InvolvedAtMostAll(rest, involved);
      assert forall p :: 0 <= p < |rest| ==> rest[p] == pools[p + 1];
      hide DisksAll;
    }
  }

  lemma {:induction false} DisksAllJoin(a: seq<DiskView>, b: seq<DiskView>)
    ensures DisksAll(a + b) == DisksAll(a) + DisksAll(b)
  {
    if a == [] {
      assert a + b == b;
    } else {
      DisksAllJoin(a[1..], b);
      assert (a + b)[1..] == a[1..] + b;
      Associative(a[0].objs, DisksAll(a[1..]), DisksAll(b));
    }
  }

  lemma {:induction false} PoolsAllJoin(a: seq<SubPoolView>, b: seq<SubPoolView>, involved: set<nat>)
    ensures PoolsAll(a + b, involved) == PoolsAll(a, involved) + PoolsAll(b, involved)
  {
    if a == [] {
      assert a + b == b;
    } else {
      PoolsAllJoin(a[1..], b, involved);
      assert (a + b)[1..] == a[1..] + b;
      Associative(if a[0].key in involved then DisksAll(a[0].disks) else [], PoolsAll(a[1..], involved),
                  PoolsAll(b, involved));
    }
  }

  /**
    Where an object stands in cursor order: the objects of a disk of an involved sub-pool follow those
    of the disks and sub-pools before it, and come before those after it.
   */
  lemma DiskInOrder(pools: seq<SubPoolView>, involved: set<nat>, p: nat, d: nat)
    requires p < |pools| && pools[p].key in involved && d < |pools[p].disks|
    ensures var disks := pools[p].disks;
            PoolsAll(pools, involved) ==
            PoolsAll(pools[..p], involved)
            + (DisksAll(disks[..d]) + (disks[d].objs + DisksAll(disks[d + 1..])))
            + PoolsAll(pools[p + 1..], involved)
  {
    var disks := pools[p].disks;
    DisksAllFrom(disks, d);
    DisksAllJoin(disks[..d], disks[d..]);
    assert disks == disks[..d] + disks[d..];
    PoolsAllFrom(pools, involved, p);
    PoolsAllJoin(pools[..p], pools[p..], involved);
    assert pools == pools[..p] + pools[p..];
    hide DisksAll, PoolsAll;
    Associative(PoolsAll(pools[..p], involved), DisksAll(disks), PoolsAll(pools[p + 1..], involved));
  }

  /** Same objects, whatever the cursors. */
  ghost predicate SameDisks(a: seq<DiskView>, b: seq<DiskView>)
  {
    |a| == |b| && forall k :: 0 <= k < |a| ==> a[k].objs == b[k].objs
  }

  ghost predicate SameObjects(a: seq<SubPoolView>, b: seq<SubPoolView>)
  {
    |a| == |b| && forall k :: 0 <= k < |a| ==> a[k].key == b[k].key && SameDisks(a[k].disks, b[k].disks)
  }

  lemma {:induction false} SameDisksSameAll(a: seq<DiskView>, b: seq<DiskView>)
    requires SameDisks(a, b)
    ensures DisksAll(a) == DisksAll(b)
  {
    if a != [] {
      SameDisksSameAll(a[1..], b[1..]);
    }
  }

  lemma {:induction false} SameObjectsSameAll(a: seq<SubPoolView>, b: seq<SubPoolView>, involved: set<nat>)
    requires SameObjects(a, b)
    ensures PoolsAll(a, involved) == PoolsAll(b, involved) && Count(a) == Count(b)
  {
    if a != [] {
      SameDisksSameAll(a[0].disks, b[0].disks);
      SameObjectsSameAll(a[1..], b[1..], involved);
    }
  }

  lemma DisksAllFrom(disks: seq<DiskView>, i: nat)
    requires i <= |disks|
    ensures i < |disks| ==> DisksAll(disks[i..]) == disks[i].objs + DisksAll(disks[i + 1..])
    ensures i == |disks| ==> DisksAll(disks[i..]) == []
  {
    if i < |disks| {
      assert disks[i..][1..] == disks[i + 1..];
    }
  }

  lemma PoolsAllFrom(pools: seq<SubPoolView>, involved: set<nat>, i: nat)
    requires i <= |pools|
    ensures i < |pools| ==>
              PoolsAll(pools[i..], involved)
              == (if pools[i].key in involved then DisksAll(pools[i].disks) else [])
                + PoolsAll(pools[i + 1..], involved)
    ensures i == |pools| ==> PoolsAll(pools[i..], involved) == []
  {
    if i < |pools| {
      assert pools[i..][1..] == pools[i + 1..];
    }
  }

  /** Restarting one cursor leaves all objects where they are. */
  lemma CursorMoved(a: seq<SubPoolView>, b: seq<SubPoolView>, i: nat, pool: SubPoolView)
    requires SameObjects(a, b) && i < |b| && pool.key == b[i].key && SameDisks(b[i].disks, pool.disks)
    ensures SameObjects(a, b[i := pool])
  {
    assert SameDisks(a[i].disks, b[i].disks);
  }

  lemma SameAt(a: seq<SubPoolView>, b: seq<SubPoolView>, i: nat)
    requires SameObjects(a, b) && i <= |b|
    ensures |a| == |b| && SameObjects(a[i..], b[i..])
    ensures i < |b| ==> a[i].key == b[i].key && SameDisks(a[i].disks, b[i].disks)
  {
  }

  /** From disk `from` on: the first object found, with that disk's cursor restarted. */
  method PoolFirstFrom(p: SubPoolView, from: nat) returns (q: SubPoolView, obj: Option<ObjKey>)
    requires from <= |p.disks|
    ensures q.key == p.key && SameDisks(p.disks, q.disks)
    ensures match obj
            case None => DisksAll(p.disks[from..]) == [] && PoolRest(q) == []
            case Some(o) => DisksAll(p.disks[from..]) == [o] + PoolRest(q)
  {
    hide DisksAll;
    q, obj := p.(it := from), None;
    while q.it != |q.disks|
      invariant from <= q.it <= |q.disks|
      invariant q.key == p.key && SameDisks(p.disks, q.disks)
      invariant DisksAll(p.disks[from..]) == DisksAll(p.disks[q.it..])
      invariant obj == None
      decreases |q.disks| - q.it
    {
      DisksAllFrom(p.disks, q.it);
      var (disk, found) := DiskFirst(q.disks[q.it]);
      q := q.(disks := q.disks[q.it := disk]);
      if found.Some? {
        SameDisksSameAll(p.disks[q.it + 1..], q.disks[q.it + 1..]);
        Associative([found.value], DiskRest(disk), DisksAll(q.disks[q.it + 1..]));
        assert p.disks[q.it].objs == [found.value] + DiskRest(disk);
        return q, found;
      }
      q := q.(it := q.it + 1);
    }
    DisksAllFrom(p.disks, |p.disks|);
  }

  method PoolFirst(p: SubPoolView) returns (q: SubPoolView, obj: Option<ObjKey>)
    ensures q.key == p.key && SameDisks(p.disks, q.disks)
    ensures match obj
            case None => DisksAll(p.disks) == [] && PoolRest(q) == []
            case Some(o) => DisksAll(p.disks) == [o] + PoolRest(q)
  {
    q, obj := PoolFirstFrom(p, 0);
    assert p.disks[0..] == p.disks;
  }

  method PoolNext(p: SubPoolView) returns (q: SubPoolView, obj: Option<ObjKey>)
    ensures q.key == p.key && SameDisks(p.disks, q.disks)
    ensures match obj
            case None => PoolRest(p) == [] && PoolRest(q) == []
            case Some(o) => PoolRest(p) == [o] + PoolRest(q)
  {
    if p.it < |p.disks| {
      var (disk, found) := DiskNext(p.disks[p.it]);
      q := p.(disks := p.disks[p.it := disk]);
      obj := found;
      if found.None? {
        q, obj := PoolFirstFrom(q, q.it + 1);
        SameDisksSameAll(p.disks[p.it + 1..], p.disks[p.it := disk][p.it + 1..]);
      } else {
        SameDisksSameAll(p.disks[p.it + 1..], q.disks[q.it + 1..]);
        Associative([found.value], DiskRest(disk), DisksAll(q.disks[q.it + 1..]));
        assert DiskRest(p.disks[p.it]) == [found.value] + DiskRest(disk);
      }
    } else {
      q, obj := p, None;
    }
  }

  class ConfigView {
    var subPools: seq<SubPoolView>
    var it: nat

    ghost function All(involved: set<nat>): seq<ObjKey>
      reads this
    {
      PoolsAll(subPools, involved)
    }

    ghost function Rest(involved: set<nat>): seq<ObjKey>
      reads this
    {
      ViewRest(subPools, it, involved)
    }

    constructor (subPools: seq<SubPoolView>)
      ensures this.subPools == subPools && Rest({}) == []
    {
      this.subPools, it := subPools, |subPools|;
    }

    method GetOBJCnt() returns (count: nat)
      ensures count == Count(subPools)
    {
      hide DisksAll;
      count := 0;
      assert subPools[0..] == subPools;
      for i := 0 to |subPools|
        invariant count + Count(subPools[i..]) == Count(subPools)
      {
        var disks := subPools[i].disks;
        var pool := 0;
        assert disks[0..] == disks;
        for disk := 0 to |disks|
          invariant pool + |DisksAll(disks[disk..])| == |DisksAll(disks)|
        {
          DisksAllFrom(disks, disk);
          pool := pool + |disks[disk].objs|;
        }
        DisksAllFrom(disks, |disks|);
        assert subPools[i..][1..] == subPools[i + 1..];
        count := count + pool;
      }
    }

    /** Restarts the cursor of the current sub-pool. */
    method FirstOfPool() returns (obj: Option<ObjKey>)
      requires it < |subPools|
      modifies `subPools
      ensures SameObjects(old(subPools), subPools) && subPools[it + 1..] == old(subPools)[it + 1..]
      ensures match obj
              case None => DisksAll(old(subPools)[it].disks) == []
              case Some(o) => DisksAll(old(subPools)[it].disks) == [o] + PoolRest(subPools[it])
    {
      hide DisksAll, PoolRest, SameObjects, SameDisks;
      SameItself(subPools);
      var pool;
      pool, obj := PoolFirst(subPools[it]);
      CursorMoved(subPools, subPools, it, pool);
      subPools := subPools[it := pool];
    }

    /** From sub-pool `from` on: the first object of an involved sub-pool. */
    method FirstFrom(from: nat, involved: set<nat>) returns (obj: Option<ObjKey>)
      requires from <= |subPools|
      modifies this
      ensures SameObjects(old(subPools), subPools)
      ensures match obj
              case None => PoolsAll(old(subPools)[from..], involved) == [] && Rest(involved) == []
              case Some(o) => PoolsAll(old(subPools)[from..], involved) == [o] + Rest(involved)
    {
      hide DisksAll, PoolRest, PoolsAll, SameObjects, SameDisks;
      it, obj := from, None;
      SameItself(subPools);
      while it != |subPools|
        invariant from <= it <= |subPools|
        invariant SameObjects(old(subPools), subPools)
        invariant PoolsAll(old(subPools)[from..], involved) == PoolsAll(subPools[it..], involved)
        invariant obj == None
        decreases |subPools| - it
      {
        PoolsAllFrom(subPools, involved, it);
        if subPools[it].key in involved {
          ghost var before := subPools;
          obj := FirstOfPool();
          SameThroughout(old(subPools), before, subPools);
          SameLength(before, subPools);
          if obj.Some? {
            Associative([obj.value], PoolRest(subPools[it]), PoolsAll(subPools[it + 1..], involved));
            return;
          }
        }
        it := it + 1;
      }
      PoolsAllFrom(subPools, involved, |subPools|);
    }

    method GetFirstOBJView(involved: set<nat>) returns (obj: Option<ObjKey>)
      modifies this
      ensures SameObjects(old(subPools), subPools)
      ensures match obj
              case None => old(All(involved)) == [] && Rest(involved) == []
              case Some(o) => old(All(involved)) == [o] + Rest(involved)
    {
      obj := FirstFrom(0, involved);
      assert old(subPools)[0..] == old(subPools);
    }

    method GetNextOBJView(involved: set<nat>) returns (obj: Option<ObjKey>)
      modifies this
      ensures SameObjects(old(subPools), subPools)
      ensures match obj
              case None => old(Rest(involved)) == [] && Rest(involved) == []
              case Some(o) => old(Rest(involved)) == [o] + Rest(involved)
    {
      hide DisksAll, PoolRest, PoolsAll;
      if it < |subPools| {
        ghost var before := subPools;
        var pool, found := PoolNext(subPools[it]);
        subPools := subPools[it := pool];
        SameObjectsSameAll(before[it + 1..], subPools[it + 1..], involved);
        if found.None? {
          ghost var after := subPools;
          obj := FirstFrom(it + 1, involved);
          SameThroughout(before, after, subPools);
        } else {
          Associative([found.value], PoolRest(pool), PoolsAll(subPools[it + 1..], involved));
          obj := found;
        }
      } else {
        obj := None;
      }
    }
  }

  lemma SameThroughout(a: seq<SubPoolView>, b: seq<SubPoolView>, c: seq<SubPoolView>)
    requires SameObjects(a, b) && SameObjects(b, c)
    ensures SameObjects(a, c)
  {
    forall k | 0 <= k < |a| ensures a[k].key == c[k].key && SameDisks(a[k].disks, c[k].disks) {
      assert SameDisks(a[k].disks, b[k].disks) && SameDisks(b[k].disks, c[k].disks);
    }
  }

  lemma SameLength(a: seq<SubPoolView>, b: seq<SubPoolView>)
    requires SameObjects(a, b)
    ensures |a| == |b|
  {
  }

  lemma SameItself(a: seq<SubPoolView>)
    ensures SameObjects(a, a)
  {
  }
}
