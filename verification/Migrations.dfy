/**
  The disks known to the HUB and the migrations in flight: a disk is pinned by every
  migration from or to it, and a pinned disk that is removed stays until its last unpin.
 */
module Migrations {
  import opened Common

  /** The key of a sub-pool is its id on this server. */
  datatype DiskKey = DiskKey(disk: nat, pool: nat)

  /** An object is named by the disk that stores it and its identity there. */
  datatype ObjKey = ObjKey(storage: nat, obj: nat)

  datatype Disk = Disk(pinned: nat, deleting: bool, objs: set<ObjKey>)

  /**
    diskIds and poolIds are the id maps, pools holds the delay-delete counter of each sub-pool,
    disks the disks of all sub-pools. table maps the target name of an object in flight
    to its source disk. leaked is history: pins taken for a key that was already in the table.
   */
  datatype State = State(
    diskIds: map<nat, DiskKey>, poolIds: set<nat>, pools: map<nat, nat>,
    disks: map<DiskKey, Disk>, table: map<ObjKey, DiskKey>, leaked: multiset<DiskKey>)

  datatype Ret = Success | NoEntry | Busy

  const EMPTY: State := State(map[], {}, map[], map[], map[], multiset{})

  function DisksOf(s: State, pool: nat): set<DiskKey>
  {
    set k | k in s.disks && k.pool == pool
  }

  function Flagged(s: State, pool: nat): set<DiskKey>
  {
    set k | k in s.disks && k.pool == pool && s.disks[k].deleting
  }

  function Target(o: ObjKey, src: DiskKey): DiskKey
  {
    DiskKey(o.storage, src.pool)
  }

  // The operations; None is a failed assertion

  function AddDisk(s: State, k: DiskKey): Option<State>
  {
    if k.disk in s.diskIds then
      if k.pool in s.poolIds && k.pool in s.pools && k in s.disks then Some(s) else None
    else if (k.pool in s.poolIds) != (k.pool in s.pools) || k in s.disks then None
    else
      Some(s.(diskIds := s.diskIds[k.disk := k], poolIds := s.poolIds + {k.pool},
              pools := if k.pool in s.pools then s.pools else s.pools[k.pool := 0],
              disks := s.disks[k := Disk(0, false, {})]))
  }

  /** A disk without pins goes at once, a pinned one is only flagged. */
  function DropFromPool(s: State, k: DiskKey): (State, Ret)
    requires k.pool in s.pools
  {
    if k !in s.disks then (s, NoEntry)
    else if s.disks[k].pinned == 0 then
      var n := s.pools[k.pool];
      var left := if !s.disks[k].deleting then n else if n == 0 then 0xFFFF_FFFF else n - 1;
      (s.(disks := s.disks - {k}, pools := s.pools[k.pool := left]), Success)
    else
      (s.(disks := s.disks[k := s.disks[k].(deleting := true)], pools := s.pools[k.pool := s.pools[k.pool] + 1]), Busy)
  }

  function RemoveView(s: State, k: DiskKey): (State, Ret)
  {
    if k.disk !in s.diskIds then (s, NoEntry)
    else if k.pool !in s.poolIds then (s, Success)
    else
      var (t, ret) := if k.pool in s.pools then DropFromPool(s, k) else (s, NoEntry);
      var u := if ret == Success && DisksOf(t, k.pool) == {} then
                 t.(poolIds := t.poolIds - {k.pool}, pools := t.pools - {k.pool})
               else t;
      (if ret == Busy then u else u.(diskIds := u.diskIds - {k.disk}), ret)
  }

  datatype Report = Nothing | PoolGone | DiskGone

  /** What the module is told; the disks of a sub-pool are counted against its delay-delete counter. */
  function ReportOf(s: State, k: DiskKey, ret: Ret, active: bool): Report
  {
    if ret == NoEntry || (ret == Success && !active) then Nothing
    else if ret == Success && k.pool !in s.pools then PoolGone
    else if k.pool in s.pools && s.pools[k.pool] == |DisksOf(s, k.pool)| then PoolGone
    else DiskGone
  }

  function RemoveDisk(s: State, k: DiskKey, active: bool): Option<(State, Report)>
  {
    if k.pool !in s.poolIds then None
    else
      var (t, ret) := RemoveView(s, k);
      Some((t, ReportOf(t, k, ret, active)))
  }

  predicate Found(s: State, k: DiskKey)
  {
    k.disk in s.diskIds && k.pool in s.poolIds && k.pool in s.pools && k in s.disks
  }

  function Pin(s: State, k: DiskKey): State
    requires k in s.disks
  {
    s.(disks := s.disks[k := s.disks[k].(pinned := s.disks[k].pinned + 1)])
  }

  function DecPinned(d: Disk): Disk
  {
    d.(pinned := if d.pinned > 1 then d.pinned - 1 else 0)
  }

  function Unpin(s: State, k: DiskKey): State
    requires k in s.disks
  {
    var t := s.(disks := s.disks[k := DecPinned(s.disks[k])]);
    if t.disks[k].deleting && t.disks[k].pinned == 0 then RemoveView(t, k).0 else t
  }

  function Migrate(s: State, o: ObjKey, tgt: DiskKey, involved: bool): Option<State>
  {
    var src := DiskKey(o.storage, tgt.pool);
    if o.storage !in s.diskIds || s.diskIds[o.storage].pool !in s.poolIds || !involved then Some(s)
    else if tgt.pool !in s.poolIds || tgt.pool !in s.pools then None
    else if src !in s.disks || tgt.disk !in s.diskIds || tgt !in s.disks then Some(s)
    else
      var home := s.diskIds[o.storage];
      if home.pool !in s.pools then None
      else if home !in s.disks || o !in s.disks[home].objs then Some(s)
      else
        var t := Pin(Pin(s, src), tgt);
        var key := ObjKey(tgt.disk, o.obj);
        if key in t.table then Some(t.(leaked := t.leaked + multiset{src, tgt}))
        else Some(t.(table := t.table[key := src]))
  }

  /** The object leaves the source disk under its old name and joins the target disk under its new one. */
  function Move(s: State, src: DiskKey, from: ObjKey, tgt: DiskKey, to: ObjKey): Option<State>
  {
    if !Found(s, src) || !Found(s, tgt) || from !in s.disks[src].objs || to in s.disks[tgt].objs then None
    else
      var added := s.disks[tgt := s.disks[tgt].(objs := s.disks[tgt].objs + {to})];
      Some(s.(disks := added[src := added[src].(objs := added[src].objs - {from})]))
  }

  function Complete(s: State, o: ObjKey, ok: bool): Option<State>
  {
    if o !in s.table then None
    else
      var src := s.table[o];
      var tgt := Target(o, src);
      var t := s.(table := s.table - {o});
      var moved := if ok then Move(t, src, ObjKey(src.disk, o.obj), tgt, o) else Some(t);
      if moved.None? || !Found(moved.value, src) || !Found(moved.value, tgt) then None
      else
        var u := Unpin(moved.value, src);
        // Without the disk the target's view would dangle here.
        if tgt in u.disks then Some(Unpin(u, tgt)) else None
  }

  function AddObj(s: State, o: ObjKey): Option<State>
  {
    if o.storage !in s.diskIds then Some(s)
    else
      var k := s.diskIds[o.storage];
      if k.pool !in s.poolIds || k.pool !in s.pools then None
      else if k !in s.disks then Some(s)
      else Some(s.(disks := s.disks[k := s.disks[k].(objs := s.disks[k].objs + {o})]))
  }

  function DeleteObj(s: State, o: ObjKey): State
  {
    if o.storage !in s.diskIds then s
    else
      var k := s.diskIds[o.storage];
      if k.pool !in s.poolIds || k.pool !in s.pools || k !in s.disks then s
      else s.(disks := s.disks[k := s.disks[k].(objs := s.disks[k].objs - {o})])
  }

  // The invariants

  /** The sub-pools are those of the disks, none is empty, and each registered id leads to its disk. */
  ghost predicate Grounded(s: State)
  {
    && s.poolIds == s.pools.Keys
    && (forall k :: k in s.disks ==> k.pool in s.pools)
    && (forall id :: id in s.diskIds ==> s.diskIds[id].disk == id && s.diskIds[id] in s.disks)
    && (forall p :: p in s.pools ==> DisksOf(s, p) != {})
  }

  /** Each disk is registered under its id. */
  ghost predicate Registered(s: State)
  {
    forall k :: k in s.disks ==> k.disk in s.diskIds && s.diskIds[k.disk] == k
  }

  /** The id maps, the sub-pools and the disks tell the same story. */
  ghost predicate Agree(s: State)
  {
    Grounded(s) && Registered(s)
  }

  function Pins(s: State, k: DiskKey): nat
  {
    if k in s.disks then s.disks[k].pinned else 0
  }

  function SrcOf(t: map<ObjKey, DiskKey>, k: DiskKey): set<ObjKey>
  {
    set o | o in t && t[o] == k
  }

  function TgtOf(t: map<ObjKey, DiskKey>, k: DiskKey): set<ObjKey>
  {
    set o | o in t && Target(o, t[o]) == k
  }

  /** How often the table names the disk, as source or as target. */
  function Names(t: map<ObjKey, DiskKey>, k: DiskKey): nat
  {
    |SrcOf(t, k)| + |TgtOf(t, k)|
  }

  /**
    Each pin of a disk is a table entry naming it, was leaked, or is held by the operation
    in progress. A disk that is gone has none.
   */
  ghost predicate Counted(s: State, held: multiset<DiskKey>)
  {
    forall k :: Pins(s, k) == Names(s.table, k) + s.leaked[k] + held[k]
  }

  /** A flagged disk still waits for an unpin; the exceptions are about to be dropped. */
  ghost predicate Waiting(s: State, except: set<DiskKey>)
  {
    forall k :: k in s.disks && s.disks[k].deleting && k !in except ==> s.disks[k].pinned > 0
  }

  /** The counter of a sub-pool is never below the number of its flagged disks. */
  ghost predicate CounterCovers(s: State)
  {
    forall p :: p in s.pools ==> s.pools[p] >= |Flagged(s, p)|
  }

  ghost predicate CounterExact(s: State)
  {
    forall p :: p in s.pools ==> s.pools[p] == |Flagged(s, p)|
  }

  /** What every run keeps: nothing is said about disks whose id is no longer registered. */
  ghost predicate Accounts(s: State, held: multiset<DiskKey>)
  {
    Grounded(s) && Counted(s, held) && CounterCovers(s)
  }

  /** What is kept as long as removals name disks under their own sub-pools. */
  ghost predicate Orderly(s: State)
  {
    Registered(s) && Waiting(s, {})
  }

  ghost predicate Inv(s: State, held: multiset<DiskKey>)
  {
    Accounts(s, held) && Orderly(s)
  }

  lemma EmptyHolds()
    ensures Inv(EMPTY, multiset{}) && CounterExact(EMPTY)
  {
  }

  // Counting

  lemma SrcInsert(t: map<ObjKey, DiskKey>, o: ObjKey, src: DiskKey, k: DiskKey)
    requires o !in t
    ensures |SrcOf(t[o := src], k)| == |SrcOf(t, k)| + if src == k then 1 else 0
  {
    assert SrcOf(t[o := src], k) == if src == k then SrcOf(t, k) + {o} else SrcOf(t, k);
  }

  lemma TgtInsert(t: map<ObjKey, DiskKey>, o: ObjKey, src: DiskKey, k: DiskKey)
    requires o !in t
    ensures |TgtOf(t[o := src], k)| == |TgtOf(t, k)| + if Target(o, src) == k then 1 else 0
  {
    assert TgtOf(t[o := src], k) == if Target(o, src) == k then TgtOf(t, k) + {o} else TgtOf(t, k);
  }

  lemma NamesInsert(t: map<ObjKey, DiskKey>, o: ObjKey, src: DiskKey, k: DiskKey)
    requires o !in t
    ensures Names(t[o := src], k) == Names(t, k) + multiset{src, Target(o, src)}[k]
  {
    hide SrcOf, TgtOf;
    SrcInsert(t, o, src, k);
    TgtInsert(t, o, src, k);
  }

  lemma NamesRemove(t: map<ObjKey, DiskKey>, o: ObjKey, k: DiskKey)
    requires o in t
    ensures Names(t, k) == Names(t - {o}, k) + multiset{t[o], Target(o, t[o])}[k]
  {
    hide Names;
    assert t == (t - {o})[o := t[o]];
    NamesInsert(t - {o}, o, t[o], k);
  }

  // Pins

  /** A change that leaves the maps, the counters and the history alone. */
  ghost predicate OnlyDisks(s: State, t: State)
  {
    && t.diskIds == s.diskIds && t.poolIds == s.poolIds && t.table == s.table && t.leaked == s.leaked
    && t.disks.Keys == s.disks.Keys
  }

  lemma SameKeysAgree(s: State, t: State)
    requires Grounded(s) && OnlyDisks(s, t) && t.pools.Keys == s.pools.Keys
    ensures Grounded(t) && (Registered(s) ==> Registered(t))
  {
    forall p | p in s.pools ensures DisksOf(t, p) == DisksOf(s, p) {
    }
  }

  /** The equation is about pins only. */
  lemma SamePinsCounted(s: State, t: State, held: multiset<DiskKey>)
    requires Counted(s, held) && t.table == s.table && t.leaked == s.leaked
    requires forall d :: Pins(t, d) == Pins(s, d)
    ensures Counted(t, held)
  {
    hide Names, Pins;
  }

  lemma SameFlagsCounters(s: State, t: State)
    requires t.pools == s.pools && forall p :: Flagged(t, p) == Flagged(s, p)
    ensures CounterCovers(s) <==> CounterCovers(t)
    ensures CounterExact(s) <==> CounterExact(t)
  {
    hide Flagged;
  }

  lemma SameFlags(s: State, t: State)
    requires t.disks.Keys == s.disks.Keys
    requires forall k :: k in s.disks ==> t.disks[k].deleting == s.disks[k].deleting
    ensures forall p :: Flagged(t, p) == Flagged(s, p)
  {
  }

  /** Changing only objects changes none of this. */
  lemma OnlyObjects(s: State, t: State, held: multiset<DiskKey>)
    requires Accounts(s, held) && OnlyDisks(s, t) && t.pools == s.pools
    requires forall k :: k in s.disks ==>
             t.disks[k].pinned == s.disks[k].pinned && t.disks[k].deleting == s.disks[k].deleting
    ensures Accounts(t, held) && (Orderly(s) ==> Orderly(t))
    ensures CounterExact(s) ==> CounterExact(t)
  {
    hide Grounded, Registered, CounterCovers, CounterExact, Counted;
    SameKeysAgree(s, t);
    SameFlags(s, t);
    hide Flagged;
    SameFlagsCounters(s, t);
    SamePinsCounted(s, t, held);
  }

  lemma PinKeeps(s: State, k: DiskKey, held: multiset<DiskKey>)
    requires Accounts(s, held) && k in s.disks
    ensures Accounts(Pin(s, k), held + multiset{k}) && (Orderly(s) ==> Orderly(Pin(s, k)))
    ensures CounterExact(s) ==> CounterExact(Pin(s, k))
  {
    var t := Pin(s, k);
    hide Grounded, Registered, CounterCovers, CounterExact, Counted;
    SameKeysAgree(s, t);
    SameFlags(s, t);
    hide Flagged;
    SameFlagsCounters(s, t);
    PinCounted(s, k, held);
  }

  lemma PinCounted(s: State, k: DiskKey, held: multiset<DiskKey>)
    requires Counted(s, held) && k in s.disks
    ensures Counted(Pin(s, k), held + multiset{k})
  {
    hide Names;
    forall d ensures Pins(Pin(s, k), d) == Pins(s, d) + multiset{k}[d] {
    }
    hide Pins;
  }

  // Removing a disk

  /** The effect of removing a pinned disk. */
  ghost predicate MarkedFrom(s: State, t: State, k: DiskKey)
    requires k in s.disks && k.pool in s.pools
  {
    && OnlyDisks(s, t) && t.disks == s.disks[k := s.disks[k].(deleting := true)]
    && t.pools == s.pools[k.pool := s.pools[k.pool] + 1]
  }

  /** The effect of removing a disk without pins: an emptied sub-pool goes with it. */
  ghost predicate DroppedFrom(s: State, t: State, k: DiskKey)
    requires k in s.disks && k.pool in s.pools
  {
    && t.table == s.table && t.leaked == s.leaked
    && t.disks == s.disks - {k} && t.diskIds == s.diskIds - {k.disk}
    && (if DisksOf(s, k.pool) == {k} then
          t.poolIds == s.poolIds - {k.pool} && t.pools == s.pools - {k.pool}
        else
          t.poolIds == s.poolIds && t.pools == s.pools[k.pool := CounterAfter(s, k)])
  }

  function CounterAfter(s: State, k: DiskKey): nat
    requires k in s.disks && k.pool in s.pools
  {
    var n := s.pools[k.pool];
    if !s.disks[k].deleting then n else if n == 0 then 0xFFFF_FFFF else n - 1
  }

  lemma DiskHasPool(s: State, k: DiskKey)
    requires Grounded(s) && k in s.disks
    ensures k.pool in s.pools && k.pool in s.poolIds
    ensures Registered(s) ==> k.disk in s.diskIds && s.diskIds[k.disk] == k
  {
  }

  lemma RemoveMarks(s: State, k: DiskKey)
    requires k in s.disks && k.pool in s.pools && k.pool in s.poolIds && k.disk in s.diskIds && s.disks[k].pinned > 0
    ensures MarkedFrom(s, RemoveView(s, k).0, k) && RemoveView(s, k).1 == Busy
  {
    hide DisksOf;
  }

  lemma RemoveDrops(s: State, k: DiskKey)
    requires k in s.disks && k.pool in s.pools && k.pool in s.poolIds && k.disk in s.diskIds && s.disks[k].pinned == 0
    ensures DroppedFrom(s, RemoveView(s, k).0, k) && RemoveView(s, k).1 == Success
  {
    var t := DropFromPool(s, k).0;
    assert DisksOf(t, k.pool) == DisksOf(s, k.pool) - {k};
    assert k in DisksOf(s, k.pool);
    assert DisksOf(t, k.pool) == {} <==> DisksOf(s, k.pool) == {k};
    hide DisksOf;
    assert t.pools - {k.pool} == s.pools - {k.pool};
    var u := RemoveView(s, k).0;
    assert u.disks == s.disks - {k} && u.diskIds == s.diskIds - {k.disk};
  }

  lemma RemoveEffect(s: State, k: DiskKey)
    requires Grounded(s) && k in s.disks && k.disk in s.diskIds
    ensures k.pool in s.pools
    ensures s.disks[k].pinned > 0 ==> MarkedFrom(s, RemoveView(s, k).0, k) && RemoveView(s, k).1 == Busy
    ensures s.disks[k].pinned == 0 ==> DroppedFrom(s, RemoveView(s, k).0, k) && RemoveView(s, k).1 == Success
  {
    DiskHasPool(s, k);
    hide Grounded, RemoveView, MarkedFrom, DroppedFrom;
    if s.disks[k].pinned == 0 {
      RemoveDrops(s, k);
    } else {
      RemoveMarks(s, k);
    }
  }

  lemma DisksWithout(s: State, t: State, k: DiskKey, p: nat)
    requires t.disks == s.disks - {k}
    ensures DisksOf(t, p) == DisksOf(s, p) - {k}
    ensures k.pool != p ==> DisksOf(t, p) == DisksOf(s, p)
  {
  }

  lemma FlaggedWithout(s: State, t: State, k: DiskKey, p: nat)
    requires k in s.disks && t.disks == s.disks - {k}
    ensures |Flagged(s, p)| == |Flagged(t, p)| + if k.pool == p && s.disks[k].deleting then 1 else 0
  {
    assert Flagged(t, p) == Flagged(s, p) - {k};
  }

  lemma FlaggedWith(s: State, t: State, k: DiskKey, p: nat)
    requires k in s.disks && t.disks == s.disks[k := s.disks[k].(deleting := true)]
    ensures |Flagged(t, p)| == |Flagged(s, p)| + if k.pool == p && !s.disks[k].deleting then 1 else 0
  {
    if k.pool == p && !s.disks[k].deleting {
      assert Flagged(t, p) == Flagged(s, p) + {k} && k !in Flagged(s, p);
    } else {
      assert Flagged(t, p) == Flagged(s, p);
    }
  }

  lemma DropKeepsPools(s: State, t: State, k: DiskKey)
    requires Grounded(s) && k in s.disks && k.pool in s.pools && DroppedFrom(s, t, k)
    ensures t.poolIds == t.pools.Keys
    ensures forall p :: p in t.pools ==> DisksOf(t, p) != {}
    ensures forall d :: d in t.disks ==> d.pool in t.pools
  {
    assert k in DisksOf(s, k.pool);
    forall p | p in t.pools ensures DisksOf(t, p) != {} {
      DisksWithout(s, t, k, p);
      if p == k.pool {
        assert DisksOf(s, p) != {k};
        var other :| other in DisksOf(s, p) && other != k;
        assert other in DisksOf(t, p);
      } else {
        assert DisksOf(s, p) != {};
      }
    }
    forall d | d in t.disks ensures d.pool in t.pools {
      assert d in DisksOf(s, d.pool);
    }
  }

  lemma DropKeepsIds(s: State, t: State, k: DiskKey)
    requires Grounded(s) && k in s.disks && k.pool in s.pools && DroppedFrom(s, t, k)
    ensures Registered(s) ==> Registered(t)
    ensures forall id :: id in t.diskIds ==> t.diskIds[id].disk == id && t.diskIds[id] in t.disks
  {
    hide DisksOf, CounterAfter;
  }

  lemma DropKeepsAgree(s: State, t: State, k: DiskKey)
    requires Grounded(s) && k in s.disks && k.pool in s.pools && DroppedFrom(s, t, k)
    ensures Grounded(t) && (Registered(s) ==> Registered(t))
  {
    DropKeepsPools(s, t, k);
    DropKeepsIds(s, t, k);
    hide DroppedFrom, DisksOf, Registered;
  }

  lemma DropKeepsCounters(s: State, t: State, k: DiskKey)
    requires CounterCovers(s) && k in s.disks && k.pool in s.pools && DroppedFrom(s, t, k)
    ensures CounterCovers(t)
    ensures CounterExact(s) ==> CounterExact(t)
  {
    hide Flagged, DisksOf;
    forall p | p in t.pools ensures t.pools[p] >= |Flagged(t, p)|
           && (CounterExact(s) ==> t.pools[p] == |Flagged(t, p)|) {
      FlaggedWithout(s, t, k, p);
      assert p in s.pools;
    }
  }

  /** A disk without pins goes, if its id is registered, and what is held elsewhere still adds up. */
  lemma DropKeeps(s: State, k: DiskKey, held: multiset<DiskKey>)
    requires Accounts(s, held) && k in s.disks && s.disks[k].pinned == 0
    ensures Accounts(RemoveView(s, k).0, held)
    ensures Registered(s) && Waiting(s, {k}) ==> Orderly(RemoveView(s, k).0)
    ensures CounterExact(s) ==> CounterExact(RemoveView(s, k).0)
  {
    hide RemoveView, Grounded, CounterCovers, CounterExact, DisksOf, CounterAfter, Counted;
    if k.disk in s.diskIds {
      hide Registered;
      RemoveEffect(s, k);
      var t := RemoveView(s, k).0;
      DropKeepsAgree(s, t, k);
      DropKeepsCounters(s, t, k);
      SamePinsCounted(s, t, held);
    } else {
      UnknownStays(s, k);
    }
  }

  lemma MarkKeepsCounters(s: State, t: State, k: DiskKey)
    requires CounterCovers(s) && k in s.disks && k.pool in s.pools && MarkedFrom(s, t, k)
    ensures CounterCovers(t)
    ensures CounterExact(s) ==> (CounterExact(t) <==> !s.disks[k].deleting)
  {
    hide Flagged;
    forall p | p in t.pools
      ensures t.pools[p] >= |Flagged(t, p)|
      ensures CounterExact(s) ==> t.pools[p] == |Flagged(t, p)| + if p == k.pool && s.disks[k].deleting then 1 else 0
    {
      FlaggedWith(s, t, k, p);
      assert p in s.pools;
    }
    assert k.pool in t.pools;
    assert CounterExact(t) ==> t.pools[k.pool] == |Flagged(t, k.pool)|;
  }

  /** A pinned disk is only flagged. The counter stays exact just when it was not flagged before. */
  lemma MarkKeeps(s: State, k: DiskKey, held: multiset<DiskKey>)
    requires Accounts(s, held) && k in s.disks && s.disks[k].pinned > 0 && k.disk in s.diskIds
    ensures Accounts(RemoveView(s, k).0, held) && (Orderly(s) ==> Orderly(RemoveView(s, k).0))
    ensures CounterExact(s) ==> (CounterExact(RemoveView(s, k).0) <==> !s.disks[k].deleting)
  {
    hide RemoveView, Grounded, Registered, CounterCovers, CounterExact, Counted;
    RemoveEffect(s, k);
    var t := RemoveView(s, k).0;
    SameKeysAgree(s, t);
    MarkKeepsCounters(s, t, k);
    SamePinsCounted(s, t, held);
  }

  /** A removal under another sub-pool forgets the id and leaves everything else as it was. */
  lemma ForgetsId(s: State, k: DiskKey, held: multiset<DiskKey>)
    requires Accounts(s, held) && k !in s.disks
    ensures Accounts(RemoveView(s, k).0, held) && (CounterExact(s) ==> CounterExact(RemoveView(s, k).0))
    ensures RemoveView(s, k).0 ==
              if k.disk in s.diskIds && k.pool in s.poolIds then s.(diskIds := s.diskIds - {k.disk}) else s
  {
    var t := RemoveView(s, k).0;
    hide RemoveView, CounterCovers, CounterExact, Counted;
    assert t == if k.disk in s.diskIds && k.pool in s.poolIds then s.(diskIds := s.diskIds - {k.disk}) else s by {
      ForgetsShape(s, k);
    }
    forall p ensures DisksOf(t, p) == DisksOf(s, p) && Flagged(t, p) == Flagged(s, p) {
    }
    hide Flagged, DisksOf;
    SameFlagsCounters(s, t);
    SamePinsCounted(s, t, held);
  }

  lemma ForgetsShape(s: State, k: DiskKey)
    requires k !in s.disks && s.poolIds == s.pools.Keys
    ensures RemoveView(s, k).0 ==
              if k.disk in s.diskIds && k.pool in s.poolIds then s.(diskIds := s.diskIds - {k.disk}) else s
  {
    hide DisksOf;
  }

  lemma RegisteredIsThere(s: State, id: nat)
    requires Grounded(s) && id in s.diskIds
    ensures s.diskIds[id] in s.disks && s.diskIds[id].disk == id
  {
  }

  lemma RemoveKeeps(s: State, k: DiskKey, held: multiset<DiskKey>)
    requires Accounts(s, held)
    ensures Accounts(RemoveView(s, k).0, held)
    ensures Orderly(s) && (k.disk in s.diskIds ==> s.diskIds[k.disk] == k) ==> Orderly(RemoveView(s, k).0)
    ensures CounterExact(s)
            && !(k in s.disks && k.disk in s.diskIds && s.disks[k].pinned > 0 && s.disks[k].deleting) ==>
              CounterExact(RemoveView(s, k).0)
  {
    if k.disk in s.diskIds {
      RegisteredIsThere(s, k.disk);
      hide RemoveView, Grounded, CounterCovers, Counted, CounterExact, Registered, Waiting;
      if k !in s.disks {
        ForgetsId(s, k, held);
      } else if s.disks[k].pinned == 0 {
        if Orderly(s) {
          WaitingFor(s, k);
        }
        DropKeeps(s, k, held);
      } else {
        MarkKeeps(s, k, held);
      }
    }
  }

  lemma WaitingFor(s: State, k: DiskKey)
    requires Waiting(s, {})
    ensures Waiting(s, {k})
  {
  }

  /**
    Removing under the wrong sub-pool loses the entry of the id: for a known sub-pool the maps
    still agree exactly when the id is unknown or registered under this very key.
   */
  lemma RemoveKeepsAgreementIff(s: State, k: DiskKey)
    requires Agree(s) && k.pool in s.poolIds
    ensures Agree(RemoveView(s, k).0) <==> (k.disk in s.diskIds ==> s.diskIds[k.disk] == k)
  {
    if k.disk in s.diskIds {
      if s.diskIds[k.disk] == k {
        RemoveEffect(s, k);
        hide RemoveView;
        if s.disks[k].pinned == 0 {
          DropKeepsAgree(s, RemoveView(s, k).0, k);
        } else {
          SameKeysAgree(s, RemoveView(s, k).0);
        }
      } else {
        var other := s.diskIds[k.disk];
        var t := RemoveView(s, k).0;
        assert k !in s.disks;
        assert t.disks == s.disks && other in t.disks && other.disk !in t.diskIds;
      }
    }
  }

  /** The counter stays exact unless the disk is pinned and was removed before. */
  lemma RemoveKeepsCounterIff(s: State, k: DiskKey)
    requires Accounts(s, multiset{}) && CounterExact(s) && k in s.disks && k.disk in s.diskIds
    ensures CounterExact(RemoveView(s, k).0) <==> !(s.disks[k].pinned > 0 && s.disks[k].deleting)
  {
    hide RemoveView, CounterExact, Counted, Grounded, CounterCovers;
    if s.disks[k].pinned == 0 {
      DropKeeps(s, k, multiset{});
    } else {
      MarkKeeps(s, k, multiset{});
    }
  }

  // Unpinning

  /** Something held is a pin. */
  lemma HeldIsPinned(s: State, k: DiskKey, held: multiset<DiskKey>)
    requires Counted(s, held) && k in held
    ensures k in s.disks && s.disks[k].pinned >= held[k]
  {
    hide Names;
    assert Pins(s, k) == Names(s.table, k) + s.leaked[k] + held[k];
  }

  lemma DecCounted(s: State, k: DiskKey, held: multiset<DiskKey>)
    requires Counted(s, held + multiset{k}) && k in s.disks && s.disks[k].pinned > 0
    ensures Counted(s.(disks := s.disks[k := DecPinned(s.disks[k])]), held)
  {
    hide Names;
    var t := s.(disks := s.disks[k := DecPinned(s.disks[k])]);
    forall d ensures Pins(t, d) + multiset{k}[d] == Pins(s, d) {
    }
    hide Pins;
    forall d ensures Pins(t, d) == Names(t.table, d) + t.leaked[d] + held[d] {
      assert Pins(s, d) == Names(s.table, d) + s.leaked[d] + (held + multiset{k})[d];
    }
  }

  /**
    One unpin: one held pin less; a disk with a registered id goes exactly when it was flagged and
    this was its last pin.
   */
  lemma UnpinKeeps(s: State, k: DiskKey, held: multiset<DiskKey>)
    requires Accounts(s, held + multiset{k})
    ensures k in s.disks && s.disks[k].pinned > 0
    ensures Accounts(Unpin(s, k), held) && (Orderly(s) ==> Orderly(Unpin(s, k)))
    ensures Unpin(s, k).disks == if k.disk in s.diskIds && s.disks[k].deleting && s.disks[k].pinned == 1
                                 then s.disks - {k} else s.disks[k := DecPinned(s.disks[k])]
    ensures Unpin(s, k).diskIds == if k !in Unpin(s, k).disks then s.diskIds - {k.disk} else s.diskIds
    ensures Unpin(s, k).table == s.table && Unpin(s, k).leaked == s.leaked
    ensures CounterExact(s) ==> CounterExact(Unpin(s, k))
  {
    hide RemoveView, Grounded, Registered, CounterCovers, CounterExact, Counted;
    HeldIsPinned(s, k, held + multiset{k});
    var t := s.(disks := s.disks[k := DecPinned(s.disks[k])]);
    SameKeysAgree(s, t);
    DecCounted(s, k, held);
    SameFlags(s, t);
    hide Flagged;
    SameFlagsCounters(s, t);
    if t.disks[k].deleting && t.disks[k].pinned == 0 {
      DropKeeps(t, k, held);
      if k.disk in s.diskIds {
        RemoveEffect(t, k);
      } else {
        UnknownStays(t, k);
      }
    }
  }

  lemma UnknownStays(s: State, k: DiskKey)
    requires k.disk !in s.diskIds
    ensures RemoveView(s, k).0 == s
  {
  }

  // The operations keep the invariants

  lemma AddFresh(s: State, k: DiskKey)
    requires Grounded(s)
    ensures k.pool in s.poolIds <==> k.pool in s.pools
    ensures k.pool !in s.pools ==> forall d :: d in s.disks ==> d.pool != k.pool
    ensures Registered(s) && k.disk !in s.diskIds ==> k !in s.disks
  {
  }

  lemma AddKeepsAgree(s: State, k: DiskKey)
    requires Grounded(s) && k.disk !in s.diskIds && k !in s.disks
    ensures AddDisk(s, k).Some? && Grounded(AddDisk(s, k).value)
    ensures Registered(s) ==> Registered(AddDisk(s, k).value)
  {
    AddFresh(s, k);
    var t := AddDisk(s, k).value;
    forall p | p in t.pools ensures DisksOf(t, p) != {} {
      AddKeepsPool(s, k, p);
    }
    hide DisksOf;
  }

  lemma AddKeepsPool(s: State, k: DiskKey, p: nat)
    requires Grounded(s) && k.disk !in s.diskIds && AddDisk(s, k).Some? && p in AddDisk(s, k).value.pools
    ensures DisksOf(AddDisk(s, k).value, p) != {}
  {
    var t := AddDisk(s, k).value;
    if p == k.pool {
      assert k in DisksOf(t, p);
    } else {
      assert p in s.pools && DisksOf(t, p) == DisksOf(s, p);
    }
  }

  lemma AddKeepsFlags(s: State, t: State, k: DiskKey)
    requires k !in s.disks && t.disks == s.disks[k := Disk(0, false, {})]
    ensures forall p :: Flagged(t, p) == Flagged(s, p)
  {
  }

  lemma NoDisksNoFlags(s: State, p: nat)
    requires forall d :: d in s.disks ==> d.pool != p
    ensures Flagged(s, p) == {}
  {
  }

  lemma AddKeepsCounters(s: State, k: DiskKey)
    requires Grounded(s) && k.disk !in s.diskIds && AddDisk(s, k).Some? && CounterCovers(s)
    ensures CounterCovers(AddDisk(s, k).value)
    ensures CounterExact(s) ==> CounterExact(AddDisk(s, k).value)
  {
    AddFresh(s, k);
    hide Grounded;
    AddKeepsFlags(s, AddDisk(s, k).value, k);
    if k.pool !in s.pools {
      NoDisksNoFlags(s, k.pool);
    }
    hide Flagged;
  }

  lemma AddKeepsPins(s: State, k: DiskKey, held: multiset<DiskKey>)
    requires k.disk !in s.diskIds && Counted(s, held) && AddDisk(s, k).Some?
    ensures Counted(AddDisk(s, k).value, held) && (Waiting(s, {}) ==> Waiting(AddDisk(s, k).value, {}))
  {
    hide Counted;
    SamePinsCounted(s, AddDisk(s, k).value, held);
  }

  lemma AddKeeps(s: State, k: DiskKey, held: multiset<DiskKey>)
    requires Accounts(s, held) && k.disk !in s.diskIds && k !in s.disks
    ensures AddDisk(s, k).Some? && Accounts(AddDisk(s, k).value, held)
    ensures Orderly(s) ==> Orderly(AddDisk(s, k).value)
    ensures CounterExact(s) ==> CounterExact(AddDisk(s, k).value)
  {
    hide AddDisk, Grounded, Registered, Counted, CounterCovers, CounterExact, Waiting;
    AddKeepsAgree(s, k);
    AddKeepsCounters(s, k);
    AddKeepsPins(s, k, held);
  }

  /** The entry of an operation's key takes over the two pins it held. */
  lemma HeldToTable(s: State, o: ObjKey, src: DiskKey)
    requires Counted(s, multiset{src, Target(o, src)}) && o !in s.table
    ensures Counted(s.(table := s.table[o := src]), multiset{})
  {
    hide Names;
    var t := s.(table := s.table[o := src]);
    forall d ensures Pins(t, d) == Names(t.table, d) + t.leaked[d] + multiset{}[d] {
      assert Pins(s, d) == Names(s.table, d) + s.leaked[d] + multiset{src, Target(o, src)}[d];
      NamesInsert(s.table, o, src, d);
    }
  }

  lemma TableToHeld(s: State, o: ObjKey)
    requires Counted(s, multiset{}) && o in s.table
    ensures Counted(s.(table := s.table - {o}), multiset{s.table[o], Target(o, s.table[o])})
  {
    hide Names;
    var src := s.table[o];
    var t := s.(table := s.table - {o});
    forall d ensures Pins(t, d) == Names(t.table, d) + t.leaked[d] + multiset{src, Target(o, src)}[d] {
      assert Pins(s, d) == Names(s.table, d) + s.leaked[d] + multiset{}[d];
      NamesRemove(s.table, o, d);
    }
  }

  lemma HeldToLeak(s: State, held: multiset<DiskKey>)
    requires Counted(s, held)
    ensures Counted(s.(leaked := s.leaked + held), multiset{})
  {
    hide Names;
    var t := s.(leaked := s.leaked + held);
    forall d ensures Pins(t, d) == Names(t.table, d) + t.leaked[d] + multiset{}[d] {
      assert Pins(s, d) == Names(s.table, d) + s.leaked[d] + held[d];
    }
  }

  /** Only the table and the history of leaks differ. */
  lemma OtherwiseSame(s: State, t: State, held: multiset<DiskKey>, held': multiset<DiskKey>)
    requires Accounts(s, held) && Counted(t, held')
    requires t == s.(table := t.table, leaked := t.leaked)
    ensures Accounts(t, held') && (Orderly(s) ==> Orderly(t))
    ensures CounterExact(s) ==> CounterExact(t)
  {
    hide Counted;
    assert forall p :: DisksOf(t, p) == DisksOf(s, p) && Flagged(t, p) == Flagged(s, p);
    hide DisksOf, Flagged;
  }

  /** Whether a migration request passes all checks and pins its disks. */
  predicate Accepted(s: State, o: ObjKey, tgt: DiskKey, involved: bool)
  {
    && involved && o.storage in s.diskIds && s.diskIds[o.storage].pool in s.poolIds
       && s.diskIds[o.storage].pool in s.pools
    && tgt.pool in s.poolIds && tgt.pool in s.pools && DiskKey(o.storage, tgt.pool) in s.disks
    && tgt.disk in s.diskIds && tgt in s.disks
    && s.diskIds[o.storage] in s.disks && o in s.disks[s.diskIds[o.storage]].objs
  }

  predicate Reissued(s: State, o: ObjKey, tgt: DiskKey, involved: bool)
  {
    Accepted(s, o, tgt, involved) && ObjKey(tgt.disk, o.obj) in s.table
  }

  /**
    What a request does, case by case: a discarded one nothing; an accepted one pins both disks and
    records its key, or, for a key in flight, leaves the table alone and leaks exactly its two pins.
   */
  lemma MigrateEffect(s: State, o: ObjKey, tgt: DiskKey, involved: bool)
    requires Migrate(s, o, tgt, involved).Some?
    ensures var t := Migrate(s, o, tgt, involved).value;
            var src, key := DiskKey(o.storage, tgt.pool), ObjKey(tgt.disk, o.obj);
            && (!Accepted(s, o, tgt, involved) ==> t == s)
            && (Accepted(s, o, tgt, involved) ==>
                  && t == s.(disks := t.disks, table := t.table, leaked := t.leaked)
                  && t.disks.Keys == s.disks.Keys && (forall k :: Pins(t, k) == Pins(s, k) + multiset{src, tgt}[k])
                  && (forall k :: k in s.disks ==> t.disks[k] == s.disks[k].(pinned := t.disks[k].pinned))
                  && (key !in s.table ==> t.table == s.table[key := src] && t.leaked == s.leaked)
                  && (key in s.table ==> t.table == s.table && t.leaked == s.leaked + multiset{src, tgt}))
  {
    MigrateCases(s, o, tgt, involved);
    hide Migrate;
    if Accepted(s, o, tgt, involved) {
      TwoPins(s, DiskKey(o.storage, tgt.pool), tgt);
    }
    hide Accepted, Pin, Pins;
  }

  lemma MigrateCases(s: State, o: ObjKey, tgt: DiskKey, involved: bool)
    requires Migrate(s, o, tgt, involved).Some?
    ensures var t := Migrate(s, o, tgt, involved).value;
            var src, key := DiskKey(o.storage, tgt.pool), ObjKey(tgt.disk, o.obj);
            && (!Accepted(s, o, tgt, involved) ==> t == s)
            && (Accepted(s, o, tgt, involved) ==>
                  var pinned := Pin(Pin(s, src), tgt);
                  t == if key in s.table then pinned.(leaked := s.leaked + multiset{src, tgt})
                       else pinned.(table := s.table[key := src]))
  {
  }

  lemma TwoPins(s: State, a: DiskKey, b: DiskKey)
    requires a in s.disks && b in s.disks
    ensures var t := Pin(Pin(s, a), b);
            && t == s.(disks := t.disks) && t.disks.Keys == s.disks.Keys
            && (forall k :: Pins(t, k) == Pins(s, k) + multiset{a, b}[k])
            && (forall k :: k in s.disks ==> t.disks[k] == s.disks[k].(pinned := t.disks[k].pinned))
  {
    var u := Pin(s, a);
    OnePin(s, a);
    OnePin(u, b);
    hide Pin, Pins;
  }

  lemma OnePin(s: State, a: DiskKey)
    requires a in s.disks
    ensures var t := Pin(s, a);
            && t == s.(disks := t.disks) && t.disks.Keys == s.disks.Keys
            && (forall k :: Pins(t, k) == Pins(s, k) + multiset{a}[k])
            && (forall k :: k in s.disks ==> t.disks[k] == s.disks[k].(pinned := t.disks[k].pinned))
  {
  }

  lemma MigrateKeeps(s: State, o: ObjKey, tgt: DiskKey, involved: bool)
    requires Accounts(s, multiset{}) && Migrate(s, o, tgt, involved).Some?
    ensures Accounts(Migrate(s, o, tgt, involved).value, multiset{})
    ensures Orderly(s) ==> Orderly(Migrate(s, o, tgt, involved).value)
    ensures CounterExact(s) ==> CounterExact(Migrate(s, o, tgt, involved).value)
    ensures Migrate(s, o, tgt, involved).value.leaked == s.leaked <==> !Reissued(s, o, tgt, involved)
    ensures s.leaked <= Migrate(s, o, tgt, involved).value.leaked
  {
    MigrateCases(s, o, tgt, involved);
    hide Accounts, Orderly, CounterExact, Migrate;
    if Accepted(s, o, tgt, involved) {
      PinsThenRecord(s, o, tgt, involved);
      MoreLeaked(s.leaked, multiset{DiskKey(o.storage, tgt.pool), tgt});
    }
  }

  lemma MoreLeaked(a: multiset<DiskKey>, b: multiset<DiskKey>)
    requires b != multiset{}
    ensures a + b != a && a <= a + b
  {
    var k :| k in b;
    assert (a + b)[k] > a[k];
  }

  lemma PinsThenRecord(s: State, o: ObjKey, tgt: DiskKey, involved: bool)
    requires Accounts(s, multiset{}) && Accepted(s, o, tgt, involved)
    ensures Migrate(s, o, tgt, involved).Some?
    ensures Accounts(Migrate(s, o, tgt, involved).value, multiset{})
    ensures Orderly(s) ==> Orderly(Migrate(s, o, tgt, involved).value)
    ensures CounterExact(s) ==> CounterExact(Migrate(s, o, tgt, involved).value)
  {
    hide Grounded, Counted, CounterExact, CounterCovers, Orderly;
    var src, key := DiskKey(o.storage, tgt.pool), ObjKey(tgt.disk, o.obj);
    var p := Pin(s, src);
    var t := Pin(p, tgt);
    var r := Migrate(s, o, tgt, involved).value;
    PinKeeps(s, src, multiset{});
    PinKeeps(p, tgt, multiset{} + multiset{src});
    assert multiset{} + multiset{src} + multiset{tgt} == multiset{src, tgt};
    if key in s.table {
      HeldToLeak(t, multiset{src, tgt});
      assert r == t.(leaked := t.leaked + multiset{src, tgt});
    } else {
      HeldToTable(t, key, src);
      assert r == t.(table := t.table[key := src]);
    }
    OtherwiseSame(t, r, multiset{src, tgt}, multiset{});
  }

  /** A completion fails exactly when its key is not in flight or the object cannot change its name. */
  predicate Completable(s: State, o: ObjKey, ok: bool)
  {
    && o in s.table
    && (ok ==> var src, tgt := s.table[o], Target(o, s.table[o]);
          src in s.disks && ObjKey(src.disk, o.obj) in s.disks[src].objs
            && (tgt in s.disks ==> o !in s.disks[tgt].objs))
  }

  lemma AllFound(s: State, k: DiskKey)
    requires Grounded(s) && k in s.disks
    ensures Found(s, k) <==> k.disk in s.diskIds
  {
  }

  lemma MoveShape(s: State, src: DiskKey, from: ObjKey, tgt: DiskKey, to: ObjKey)
    requires Move(s, src, from, tgt, to).Some?
    ensures OnlyDisks(s, Move(s, src, from, tgt, to).value) && Move(s, src, from, tgt, to).value.pools == s.pools
    ensures forall k :: k in s.disks ==>
              var d := Move(s, src, from, tgt, to).value.disks[k];
              d.pinned == s.disks[k].pinned && d.deleting == s.disks[k].deleting
  {
  }

  lemma MoveKeeps(s: State, src: DiskKey, from: ObjKey, tgt: DiskKey, to: ObjKey, held: multiset<DiskKey>)
    requires Accounts(s, held) && src in s.disks && tgt in s.disks
    ensures Move(s, src, from, tgt, to).Some? <==>
              && src.disk in s.diskIds && tgt.disk in s.diskIds
              && from in s.disks[src].objs && to !in s.disks[tgt].objs
    ensures Move(s, src, from, tgt, to).Some? ==>
              var t := Move(s, src, from, tgt, to).value;
              && Accounts(t, held) && (Orderly(s) ==> Orderly(t)) && (CounterExact(s) ==> CounterExact(t))
              && OnlyDisks(s, t)
              && forall k :: k in s.disks ==>
                 t.disks[k].pinned == s.disks[k].pinned && t.disks[k].deleting == s.disks[k].deleting
  {
    AllFound(s, src);
    AllFound(s, tgt);
    hide Accounts, Orderly, Found, CounterExact;
    if Move(s, src, from, tgt, to).Some? {
      MoveShape(s, src, from, tgt, to);
      hide Move;
      OnlyObjects(s, Move(s, src, from, tgt, to).value, held);
    }
  }

  /** What is left of a disk after n of its pins are given back. */
  ghost predicate AfterUnpins(s: State, t: State, gone: multiset<DiskKey>)
  {
    && (forall k :: k in t.disks <==>
       k in s.disks && !(gone[k] > 0 && s.disks[k].deleting && s.disks[k].pinned == gone[k]))
    && (forall k :: k in t.disks ==>
       t.disks[k].pinned == s.disks[k].pinned - gone[k] && t.disks[k].deleting == s.disks[k].deleting)
  }

  /** The effect of one unpin. */
  ghost predicate UnpinnedFrom(s: State, t: State, k: DiskKey)
    requires k in s.disks
  {
    t.disks == if s.disks[k].deleting && s.disks[k].pinned == 1 then s.disks - {k}
      else s.disks[k := DecPinned(s.disks[k])]
  }

  /** Each disk that is left has the objects it had. */
  ghost predicate SameObjs(s: State, t: State)
  {
    forall k :: k in t.disks ==> k in s.disks && t.disks[k].objs == s.disks[k].objs
  }

  lemma OneAfterOther(s: State, u: State, t: State, src: DiskKey, tgt: DiskKey)
    requires src in s.disks && tgt in u.disks && UnpinnedFrom(s, u, src) && UnpinnedFrom(u, t, tgt)
    requires tgt in s.disks && s.disks[src].pinned >= multiset{src, tgt}[src]
             && s.disks[tgt].pinned >= multiset{src, tgt}[tgt]
    ensures AfterUnpins(s, t, multiset{src, tgt}) && SameObjs(s, t)
  {
    if src == tgt {
      TwiceOnOne(s, u, t, src);
    } else {
      OnceOnEach(s, u, t, src, tgt);
    }
  }

  lemma TwiceOnOne(s: State, u: State, t: State, k: DiskKey)
    requires k in s.disks && k in u.disks && UnpinnedFrom(s, u, k) && UnpinnedFrom(u, t, k) && s.disks[k].pinned >= 2
    ensures AfterUnpins(s, t, multiset{k, k}) && SameObjs(s, t)
  {
    forall x
      ensures x in t.disks <==>
                x in s.disks && !(multiset{k, k}[x] > 0 && s.disks[x].deleting
                  && s.disks[x].pinned == multiset{k, k}[x])
      ensures x in t.disks ==> t.disks[x] == s.disks[x].(pinned := s.disks[x].pinned - multiset{k, k}[x])
    {
      TwiceAt(s, u, t, k, x);
    }
    hide UnpinnedFrom;
  }

  lemma TwiceAt(s: State, u: State, t: State, k: DiskKey, x: DiskKey)
    requires k in s.disks && k in u.disks && UnpinnedFrom(s, u, k) && UnpinnedFrom(u, t, k) && s.disks[k].pinned >= 2
    ensures x in t.disks <==>
              x in s.disks && !(multiset{k, k}[x] > 0 && s.disks[x].deleting && s.disks[x].pinned == multiset{k, k}[x])
    ensures x in t.disks ==> t.disks[x] == s.disks[x].(pinned := s.disks[x].pinned - multiset{k, k}[x])
  {
    assert u.disks == s.disks[k := DecPinned(s.disks[k])];
    if x == k {
      assert multiset{k, k}[x] == 2;
    } else {
      assert multiset{k, k}[x] == 0;
    }
  }

  lemma OnceOnEach(s: State, u: State, t: State, src: DiskKey, tgt: DiskKey)
    requires src != tgt && src in s.disks && tgt in s.disks && tgt in u.disks
    requires UnpinnedFrom(s, u, src) && UnpinnedFrom(u, t, tgt) && s.disks[src].pinned >= 1 && s.disks[tgt].pinned >= 1
    ensures AfterUnpins(s, t, multiset{src, tgt}) && SameObjs(s, t)
  {
    forall k
      ensures k in t.disks <==>
                k in s.disks && !(multiset{src, tgt}[k] > 0 && s.disks[k].deleting
                  && s.disks[k].pinned == multiset{src, tgt}[k])
      ensures k in t.disks ==> t.disks[k] == s.disks[k].(pinned := s.disks[k].pinned - multiset{src, tgt}[k])
    {
      OnceAt(s, u, t, src, tgt, k);
    }
    hide UnpinnedFrom;
  }

  lemma OnceAt(s: State, u: State, t: State, src: DiskKey, tgt: DiskKey, k: DiskKey)
    requires src != tgt && src in s.disks && tgt in s.disks && tgt in u.disks
    requires UnpinnedFrom(s, u, src) && UnpinnedFrom(u, t, tgt) && s.disks[src].pinned >= 1 && s.disks[tgt].pinned >= 1
    ensures k in t.disks <==>
              k in s.disks && !(multiset{src, tgt}[k] > 0 && s.disks[k].deleting
                && s.disks[k].pinned == multiset{src, tgt}[k])
    ensures k in t.disks ==> t.disks[k] == s.disks[k].(pinned := s.disks[k].pinned - multiset{src, tgt}[k])
  {
    assert u.disks[tgt] == s.disks[tgt];
    if k == src {
      assert multiset{src, tgt}[k] == 1;
    } else if k == tgt {
      assert multiset{src, tgt}[k] == 1;
    } else {
      assert multiset{src, tgt}[k] == 0;
    }
  }

  lemma TwoUnpins(s: State, src: DiskKey, tgt: DiskKey)
    requires Accounts(s, multiset{src, tgt}) && src.disk in s.diskIds && tgt.disk in s.diskIds
    requires src.disk == tgt.disk ==> src == tgt
    ensures src in s.disks && tgt in s.disks && tgt in Unpin(s, src).disks
    ensures var t := Unpin(Unpin(s, src), tgt);
            && Accounts(t, multiset{}) && (Orderly(s) ==> Orderly(t))
            && AfterUnpins(s, t, multiset{src, tgt}) && SameObjs(s, t)
            && t.leaked == s.leaked && t.table == s.table
            && (CounterExact(s) ==> CounterExact(t))
  {
    hide Grounded, Counted, CounterExact, CounterCovers, Orderly, Unpin, AfterUnpins, SameObjs;
    assert multiset{src, tgt} == multiset{tgt} + multiset{src} && multiset{tgt} == multiset{} + multiset{tgt};
    UnpinKeeps(s, src, multiset{tgt});
    var u := Unpin(s, src);
    UnpinKeeps(u, tgt, multiset{});
    HeldIsPinned(s, src, multiset{src, tgt});
    HeldIsPinned(s, tgt, multiset{src, tgt});
    var t := Unpin(u, tgt);
    assert tgt.disk in u.diskIds;
    OneAfterOther(s, u, t, src, tgt);
  }

  /**
    Where the objects are after a completion: unless it failed, the old name has left the source and
    the new one joined the target.
   */
  ghost predicate ObjsMoved(s: State, t: State, o: ObjKey, src: DiskKey, ok: bool)
  {
    forall k :: k in t.disks ==>
      && k in s.disks
      && t.disks[k].objs == if ok && k == src then s.disks[k].objs - {ObjKey(src.disk, o.obj)}
                            else if ok && k == Target(o, src) then s.disks[k].objs + {o}
                            else s.disks[k].objs
  }

  lemma MoveMoves(s: State, o: ObjKey, src: DiskKey)
    requires Move(s, src, ObjKey(src.disk, o.obj), Target(o, src), o).Some?
    ensures ObjsMoved(s, Move(s, src, ObjKey(src.disk, o.obj), Target(o, src), o).value, o, src, true)
  {
  }

  lemma MovedThenUnpinned(s: State, m: State, t: State, o: ObjKey, src: DiskKey, ok: bool)
    requires ObjsMoved(s, m, o, src, ok) && SameObjs(m, t)
    ensures ObjsMoved(s, t, o, src, ok)
  {
  }

  lemma NothingMoved(s: State, t: State, o: ObjKey, src: DiskKey)
    requires t.disks == s.disks
    ensures ObjsMoved(s, t, o, src, false)
    ensures forall m :: ObjsMoved(t, m, o, src, true) ==> ObjsMoved(s, m, o, src, true)
  {
  }

  /** Both disks of a migration in flight can be found by their ids. */
  predicate BothRegistered(s: State, o: ObjKey)
  {
    o in s.table ==> s.table[o].disk in s.diskIds && o.storage in s.diskIds
  }

  lemma OrderlyIsRegistered(s: State, o: ObjKey)
    requires Inv(s, multiset{})
    ensures BothRegistered(s, o)
  {
    if o in s.table {
      TableToHeld(s, o);
      var t := s.(table := s.table - {o});
      var held := multiset{s.table[o], Target(o, s.table[o])};
      HeldIsPinned(t, s.table[o], held);
      HeldIsPinned(t, Target(o, s.table[o]), held);
    }
    hide Counted;
  }

  /**
    Completing always has both disks; it fails exactly when the key is not in flight, the object
    cannot move, or the id of one of them is no longer registered. Afterwards each named disk has
    lost the pins of this migration and is gone exactly when it was flagged and these were its last.
   */
  lemma CompleteKeeps(s: State, o: ObjKey, ok: bool)
    requires Accounts(s, multiset{})
    ensures Complete(s, o, ok).Some? <==> Completable(s, o, ok) && BothRegistered(s, o)
    ensures o in s.table ==> s.table[o] in s.disks && Target(o, s.table[o]) in s.disks
    ensures Complete(s, o, ok).Some? ==>
              var t := Complete(s, o, ok).value;
              && Accounts(t, multiset{}) && (Orderly(s) ==> Orderly(t)) && (CounterExact(s) ==> CounterExact(t))
              && t.table == s.table - {o} && t.leaked == s.leaked
              && AfterUnpins(s, t, multiset{s.table[o], Target(o, s.table[o])})
              && ObjsMoved(s, t, o, s.table[o], ok)
  {
    hide Grounded, Counted, CounterExact, CounterCovers, Orderly, Unpin, Move, AfterUnpins, Found, SameObjs, ObjsMoved;
    if o in s.table {
      var src, tgt := s.table[o], Target(o, s.table[o]);
      var t := s.(table := s.table - {o});
      var held := multiset{src, tgt};
      TableToHeld(s, o);
      OtherwiseSame(s, t, multiset{}, held);
      HeldIsPinned(t, src, held);
      HeldIsPinned(t, tgt, held);
      MoveKeeps(t, src, ObjKey(src.disk, o.obj), tgt, o, held);
      var moved := if ok then Move(t, src, ObjKey(src.disk, o.obj), tgt, o) else Some(t);
      if moved.Some? {
        var m := moved.value;
        AllFound(m, src);
        AllFound(m, tgt);
        if src.disk in s.diskIds && tgt.disk in s.diskIds {
          TwoUnpins(m, src, tgt);
          NothingMoved(s, t, o, src);
          if ok {
            MoveMoves(t, o, src);
          }
          MovedThenUnpinned(s, m, Unpin(Unpin(m, src), tgt), o, src, ok);
          UnpinsOfMoved(s, m, Unpin(Unpin(m, src), tgt), held);
        }
      }
    }
  }

  lemma UnpinsOfMoved(s: State, m: State, t: State, gone: multiset<DiskKey>)
    requires m.disks.Keys == s.disks.Keys
    requires forall k :: k in s.disks ==>
             m.disks[k].pinned == s.disks[k].pinned && m.disks[k].deleting == s.disks[k].deleting
    requires AfterUnpins(m, t, gone)
    ensures AfterUnpins(s, t, gone)
  {
  }

  // Whole runs

  datatype Op =
    | Add(k: DiskKey)
    | Remove(k: DiskKey)
    | Start(o: ObjKey, tgt: DiskKey, involved: bool)
    | Finish(o: ObjKey, ok: bool)
    | AddOf(o: ObjKey)
    | DeleteOf(o: ObjKey)

  function Apply(s: State, op: Op): Option<State>
  {
    match op
    case Add(k) => AddDisk(s, k)
    case Remove(k) => if k.pool in s.poolIds then Some(RemoveView(s, k).0) else None
    case Start(o, tgt, involved) => Migrate(s, o, tgt, involved)
    case Finish(o, ok) => Complete(s, o, ok)
    case AddOf(o) => AddObj(s, o)
    case DeleteOf(o) => Some(DeleteObj(s, o))
  }

  /** A removal names the disk under its own sub-pool, or not a known disk at all. */
  predicate NamesRight(s: State, op: Op)
  {
    op.Remove? && op.k.disk in s.diskIds ==> s.diskIds[op.k.disk] == op.k
  }

  predicate Repeats(s: State, op: Op)
  {
    op.Start? && Reissued(s, op.o, op.tgt, op.involved)
  }

  /** A pinned disk is removed a second time. */
  predicate RemovesAgain(s: State, op: Op)
  {
    && op.Remove? && op.k in s.disks && op.k.disk in s.diskIds
    && s.disks[op.k].pinned > 0 && s.disks[op.k].deleting
  }

  lemma ObjKeeps(s: State, o: ObjKey, held: multiset<DiskKey>)
    requires Accounts(s, held)
    ensures AddObj(s, o).Some? && Accounts(AddObj(s, o).value, held) && Accounts(DeleteObj(s, o), held)
    ensures Orderly(s) ==> Orderly(AddObj(s, o).value) && Orderly(DeleteObj(s, o))
    ensures CounterExact(s) ==> CounterExact(AddObj(s, o).value) && CounterExact(DeleteObj(s, o))
    ensures AddObj(s, o).value.leaked == s.leaked && DeleteObj(s, o).leaked == s.leaked
  {
    if o.storage in s.diskIds {
      RegisteredIsThere(s, o.storage);
      DiskHasPool(s, s.diskIds[o.storage]);
      ObjShape(s, o);
      hide Accounts, Orderly, CounterExact, AddObj, DeleteObj;
      OnlyObjects(s, AddObj(s, o).value, held);
      OnlyObjects(s, DeleteObj(s, o), held);
    }
  }

  lemma ObjShape(s: State, o: ObjKey)
    requires o.storage in s.diskIds && Found(s, s.diskIds[o.storage])
    ensures AddObj(s, o).Some?
    ensures forall t :: t in {AddObj(s, o).value, DeleteObj(s, o)} ==>
              && OnlyDisks(s, t) && t.pools == s.pools
              && forall k :: k in s.disks ==>
                   t.disks[k].pinned == s.disks[k].pinned && t.disks[k].deleting == s.disks[k].deleting
  {
  }

  lemma RemoveLeavesHistory(s: State, k: DiskKey)
    ensures RemoveView(s, k).0.leaked == s.leaked && RemoveView(s, k).0.table == s.table
  {
  }

  /**
    One operation: the accounts stay, and so does order, except by a removal that names a known
    id under another sub-pool; pins leak exactly through a repeated request, and stay leaked.
   */
  lemma ApplyKeeps(s: State, op: Op)
    requires Accounts(s, multiset{}) && Apply(s, op).Some?
    ensures Accounts(Apply(s, op).value, multiset{})
    ensures Orderly(s) && NamesRight(s, op) ==> Orderly(Apply(s, op).value)
    ensures Apply(s, op).value.leaked == s.leaked <==> !Repeats(s, op)
    ensures s.leaked <= Apply(s, op).value.leaked
    ensures CounterExact(s) && !RemovesAgain(s, op) ==> CounterExact(Apply(s, op).value)
  {
    hide AddDisk, RemoveView, Migrate, Complete, AddObj, DeleteObj, Reissued, CounterExact;
    hide Grounded, Counted, Orderly, CounterCovers, AfterUnpins, Completable;
    match op
    case Add(k) => AddAny(s, k);
    case Remove(k) =>
      RemoveLeavesHistory(s, k);
      RemoveKeeps(s, k, multiset{});
    case Start(o, tgt, involved) => MigrateKeeps(s, o, tgt, involved);
    case Finish(o, ok) => CompleteKeeps(s, o, ok);
    case AddOf(o) => ObjKeeps(s, o, multiset{});
    case DeleteOf(o) => ObjKeeps(s, o, multiset{});
  }

  lemma AddAny(s: State, k: DiskKey)
    requires Accounts(s, multiset{})
    ensures AddDisk(s, k).Some? <==> (k.disk in s.diskIds <==> k in s.disks)
    ensures Orderly(s) ==> (AddDisk(s, k).Some? <==> (k.disk in s.diskIds ==> s.diskIds[k.disk] == k))
    ensures AddDisk(s, k).Some? ==>
              && Accounts(AddDisk(s, k).value, multiset{}) && AddDisk(s, k).value.leaked == s.leaked
              && (Orderly(s) ==> Orderly(AddDisk(s, k).value))
              && (CounterExact(s) ==> CounterExact(AddDisk(s, k).value))
  {
    hide CounterExact, Counted, CounterCovers, Waiting;
    if k.disk !in s.diskIds && k !in s.disks {
      AddKeeps(s, k, multiset{});
    }
  }

  /**
    Exactly when an operation fails an assertion, in the states of every run: with orderly maps,
    where each disk is registered, the two conditions on ids hold by themselves.
   */
  lemma FailsExactlyWhen(s: State, op: Op)
    requires Accounts(s, multiset{})
    ensures Apply(s, op).None? <==>
              match op
              case Add(k) => !(k.disk in s.diskIds <==> k in s.disks)
              case Remove(k) => k.pool !in s.poolIds
              case Start(o, tgt, involved) => o.storage in s.diskIds && involved && tgt.pool !in s.poolIds
              case Finish(o, ok) => !(Completable(s, o, ok) && BothRegistered(s, o))
              case AddOf(o) => false
              case DeleteOf(o) => false
    ensures Orderly(s) ==>
              match op
              case Add(k) => ((k.disk in s.diskIds <==> k in s.disks) <==>
                              (k.disk in s.diskIds ==> s.diskIds[k.disk] == k))
              case Finish(o, ok) => BothRegistered(s, o)
              case _ => true
  {
    hide AddDisk, RemoveView, Complete, AddObj, DeleteObj, CounterExact, Completable, BothRegistered;
    hide Counted, CounterCovers, AfterUnpins, DisksOf, Waiting;
    match op
    case Add(k) => AddAny(s, k);
    case Remove(k) =>
    case Start(o, tgt, involved) =>
    case Finish(o, ok) =>
      CompleteKeeps(s, o, ok);
      if Orderly(s) {
        OrderlyIsRegistered(s, o);
      }
    case AddOf(o) => ObjKeeps(s, o, multiset{});
    case DeleteOf(o) =>
  }

  ghost predicate Run(states: seq<State>, ops: seq<Op>)
  {
    && |states| == |ops| + 1 && states[0] == EMPTY
    && forall i :: 0 <= i < |ops| ==> Apply(states[i], ops[i]) == Some(states[i + 1])
  }

  /**
    The main result, over every run: each disk has one pin for each time an entry of the table
    names it and one for each leaked pin, and a registered id leads to a disk. Up to a removal
    under another sub-pool also each disk is registered, and a flagged one is still pinned.
   */
  lemma {:induction false} RunKeeps(states: seq<State>, ops: seq<Op>, i: nat)
    requires Run(states, ops) && i < |states|
    ensures Accounts(states[i], multiset{})
    ensures (forall j :: 0 <= j < i ==> NamesRight(states[j], ops[j])) ==> Orderly(states[i])
    ensures (forall j :: 0 <= j < i ==> !Repeats(states[j], ops[j])) ==> states[i].leaked == multiset{}
    ensures (forall j :: 0 <= j < i ==> !RemovesAgain(states[j], ops[j])) ==> CounterExact(states[i])
  {
    if i == 0 {
      EmptyHolds();
    } else {
      RunKeeps(states, ops, i - 1);
      hide Accounts, Orderly, CounterExact, Repeats, RemovesAgain, NamesRight, Apply;
      assert Apply(states[i - 1], ops[i - 1]) == Some(states[i - 1 + 1]);
      ApplyKeeps(states[i - 1], ops[i - 1]);
    }
  }

  /**
    Without reissued keys the pins of a disk are exactly the entries naming it, so a disk the table
    names is never gone.
   */
  lemma PinsAreEntries(states: seq<State>, ops: seq<Op>, i: nat, k: DiskKey)
    requires Run(states, ops) && i < |states|
    requires forall j :: 0 <= j < i ==> !Repeats(states[j], ops[j])
    ensures Pins(states[i], k) == Names(states[i].table, k)
    ensures Names(states[i].table, k) > 0 ==> k in states[i].disks
  {
    RunKeeps(states, ops, i);
    hide Run, Names, CounterExact, Repeats;
    var s := states[i];
    assert Pins(s, k) == Names(s.table, k) + s.leaked[k] + multiset{}[k];
  }

  /**
    A removed disk goes with its last pin; a leaked pin is never given back, so it keeps its disk.
    A flagged disk without pins is left only where its id is no longer registered, and stays.
   */
  lemma GoesAtLastUnpin(s: State, o: ObjKey, ok: bool, k: DiskKey)
    requires Accounts(s, multiset{}) && Completable(s, o, ok) && BothRegistered(s, o)
    requires k in s.disks && s.disks[k].deleting
    ensures Complete(s, o, ok).Some?
    ensures k in Complete(s, o, ok).value.disks <==>
              Names(s.table - {o}, k) + s.leaked[k] > 0 || s.disks[k].pinned == 0
    ensures Orderly(s) ==> s.disks[k].pinned > 0
  {
    CompleteKeeps(s, o, ok);
    hide Complete, Names, Grounded, CounterCovers;
    assert Pins(s, k) == Names(s.table, k) + s.leaked[k] + multiset{}[k];
    NamesRemove(s.table, o, k);
  }

  lemma StepOfRun(states: seq<State>, ops: seq<Op>, i: nat)
    requires Run(states, ops) && i + 1 < |states|
    ensures |states| == |ops| + 1 && Apply(states[i], ops[i]) == Some(states[i + 1])
  {
  }

  lemma {:induction false} LeaksStay(states: seq<State>, ops: seq<Op>, i: nat, j: nat)
    requires Run(states, ops) && i <= j < |states|
    ensures states[i].leaked <= states[j].leaked
    decreases j
  {
    hide Run, Accounts, Orderly, CounterExact, Repeats, Apply, NamesRight, RemovesAgain;
    if i < j {
      LeaksStay(states, ops, i, j - 1);
      RunKeeps(states, ops, j - 1);
      StepOfRun(states, ops, j - 1);
      ApplyKeeps(states[j - 1], ops[j - 1]);
    }
  }

  /** Over every run, a disk with a leaked pin is never gone again, whatever is removed or completed. */
  lemma LeakedIsNeverGone(states: seq<State>, ops: seq<Op>, i: nat, j: nat, k: DiskKey)
    requires Run(states, ops) && i <= j < |states| && states[i].leaked[k] > 0
    ensures k in states[j].disks && states[j].disks[k].pinned >= states[i].leaked[k]
  {
    RunKeeps(states, ops, j);
    LeaksStay(states, ops, i, j);
    hide Run, Names, CounterExact, Orderly;
    var s := states[j];
    assert Pins(s, k) == Names(s.table, k) + s.leaked[k] + multiset{}[k];
    assert s.leaked[k] >= states[i].leaked[k];
  }

  // Reports

  lemma FlaggedAreDisks(s: State, p: nat)
    ensures |Flagged(s, p)| <= |DisksOf(s, p)|
    ensures |Flagged(s, p)| == |DisksOf(s, p)| <==> Flagged(s, p) == DisksOf(s, p)
  {
    var f, d := Flagged(s, p), DisksOf(s, p);
    assert d == f + (d - f);
    if d - f == {} {
      assert d == f;
    }
  }

  lemma ReportMeans(t: State, k: DiskKey, ret: Ret, active: bool)
    requires Grounded(t) && CounterExact(t) && (ret == Busy ==> k.pool in t.pools)
    ensures ReportOf(t, k, ret, active) == PoolGone ==> DisksOf(t, k.pool) == Flagged(t, k.pool)
    ensures ReportOf(t, k, ret, active) == DiskGone ==> DisksOf(t, k.pool) != Flagged(t, k.pool) || ret == NoEntry
    ensures ReportOf(t, k, ret, active) == Nothing <==> ret == NoEntry || (ret == Success && !active)
  {
    FlaggedAreDisks(t, k.pool);
    if k.pool !in t.pools {
      NoPoolNoDisks(t, k.pool);
    }
    hide DisksOf, Flagged, Grounded;
  }

  /** With an exact counter the sub-pool is reported gone exactly when every disk left in it waits to go. */
  lemma ReportTellsTruth(s: State, k: DiskKey, active: bool)
    requires Accounts(s, multiset{}) && CounterExact(s) && k in s.disks && k.disk in s.diskIds
    requires !(s.disks[k].pinned > 0 && s.disks[k].deleting)
    ensures RemoveDisk(s, k, active).Some?
    ensures var (t, report) := RemoveDisk(s, k, active).value;
            && (report == Nothing <==> s.disks[k].pinned == 0 && !active)
            && (report == PoolGone ==> DisksOf(t, k.pool) == Flagged(t, k.pool))
            && (report == DiskGone ==> DisksOf(t, k.pool) != Flagged(t, k.pool))
  {
    DiskHasPool(s, k);
    RemoveKeepsCounterIff(s, k);
    RemoveKeeps(s, k, multiset{});
    RemoveEffect(s, k);
    assert s.disks[k].pinned > 0 ==> k.pool in RemoveView(s, k).0.pools;
    hide RemoveView, Grounded, Counted, CounterExact, CounterCovers, MarkedFrom, DroppedFrom, DisksOf, Flagged,
         ReportOf;
    var (t, ret) := RemoveView(s, k);
    ReportMeans(t, k, ret, active);
  }

  lemma NoPoolNoDisks(s: State, p: nat)
    requires Grounded(s) && p !in s.pools
    ensures DisksOf(s, p) == {} && Flagged(s, p) == {}
  {
  }

  /** Two disks of one sub-pool, with one migration in flight from the first to the second. */
  function OneInFlight(a: DiskKey, b: DiskKey, o: ObjKey): State
  {
    State(map[a.disk := a, b.disk := b], {a.pool}, map[a.pool := 0],
          map[a := Disk(1, false, {o}), b := Disk(1, false, {})], map[ObjKey(b.disk, o.obj) := a], multiset{})
  }

  lemma TwoDisksReached(a: DiskKey, b: DiskKey, o: ObjKey)
    requires a.pool == b.pool && a.disk != b.disk && o.storage == a.disk
    ensures AddDisk(EMPTY, a).Some? && AddDisk(AddDisk(EMPTY, a).value, b).Some?
    ensures AddObj(AddDisk(AddDisk(EMPTY, a).value, b).value, o) ==
            Some(OneInFlight(a, b, o).(table := map[], disks := map[a := Disk(0, false, {o}), b := Disk(0, false, {})]))
  {
    var s1 := AddDisk(EMPTY, a).value;
    var s2 := AddDisk(s1, b).value;
    var s3 := AddObj(s2, o).value;
    var none: set<ObjKey> := {};
    assert none + {o} == {o};
    assert s3.poolIds == {a.pool} && s3.table == map[] && s3.leaked == multiset{};
    assert s3.diskIds == map[a.disk := a, b.disk := b];
    assert s3.disks == map[a := Disk(0, false, {o}), b := Disk(0, false, {})];
    assert s3.pools == map[a.pool := 0];
  }

  lemma RunThen(states: seq<State>, ops: seq<Op>, op: Op)
    requires Run(states, ops) && Apply(states[|ops|], op).Some?
    ensures Run(states + [Apply(states[|ops|], op).value], ops + [op])
  {
    hide Apply;
  }

  /** A run that puts one migration in flight. */
  lemma OneInFlightRun(a: DiskKey, b: DiskKey, o: ObjKey) returns (states: seq<State>, ops: seq<Op>)
    requires a.pool == b.pool && a.disk != b.disk && o.storage == a.disk
    ensures Run(states, ops) && |ops| == 4 && states[4] == OneInFlight(a, b, o)
    ensures forall j :: 0 <= j < 4 ==> !ops[j].Remove? && !Repeats(states[j], ops[j])
    ensures ops[3] == Start(o, b, true)
  {
    TwoDisksReached(a, b, o);
    hide AddDisk, AddObj;
    var s1 := AddDisk(EMPTY, a).value;
    var s2 := AddDisk(s1, b).value;
    var s3 := AddObj(s2, o).value;
    assert DiskKey(o.storage, b.pool) == a;
    assert Migrate(s3, o, b, true) == Some(OneInFlight(a, b, o)) by {
      var m := Migrate(s3, o, b, true).value;
      assert m.disks == OneInFlight(a, b, o).disks;
      assert m.table == OneInFlight(a, b, o).table;
    }
    hide Migrate;
    states, ops := [EMPTY, s1, s2, s3, OneInFlight(a, b, o)], [Add(a), Add(b), AddOf(o), Start(o, b, true)];
  }

  lemma OneInFlightReached(a: DiskKey, b: DiskKey, o: ObjKey)
    requires a.pool == b.pool && a.disk != b.disk && o.storage == a.disk
    ensures Inv(OneInFlight(a, b, o), multiset{}) && CounterExact(OneInFlight(a, b, o))
  {
    var states, ops := OneInFlightRun(a, b, o);
    RunKeeps(states, ops, 4);
    hide Run, Accounts, Orderly, CounterExact, OneInFlight;
  }

  /** A run of five operations that leaks pins: a request is issued again while its key is in flight. */
  lemma ReissueLeaks(a: DiskKey, b: DiskKey, o: ObjKey) returns (states: seq<State>, ops: seq<Op>)
    requires a.pool == b.pool && a.disk != b.disk && o.storage == a.disk
    ensures Run(states, ops) && |ops| == 5 && Repeats(states[4], ops[4])
    ensures states[4].leaked == multiset{} && states[5].leaked == multiset{a, b}
  {
    states, ops := OneInFlightRun(a, b, o);
    var s := states[4];
    assert Accepted(s, o, b, true) && ObjKey(b.disk, o.obj) in s.table;
    assert DiskKey(o.storage, b.pool) == a;
    FailsExactlyWhenStart(s, o, b);
    MigrateEffect(s, o, b, true);
    hide Migrate, Accepted, Run, OneInFlight, Pins;
    RunThen(states, ops, Start(o, b, true));
    states, ops := states + [Apply(s, Start(o, b, true)).value], ops + [Start(o, b, true)];
  }

  lemma FailsExactlyWhenStart(s: State, o: ObjKey, tgt: DiskKey)
    requires Accepted(s, o, tgt, true)
    ensures Migrate(s, o, tgt, true).Some?
  {
  }

  lemma IdRemoved(a: DiskKey, b: DiskKey, c: DiskKey, o: ObjKey)
    requires a.pool == b.pool != c.pool && a.disk != b.disk && c.disk !in {a.disk, b.disk} && o.storage == a.disk
    ensures var s, wrong := OneInFlight(a, b, o), DiskKey(a.disk, c.pool);
            && AddDisk(s, c).Some?
            && var t := AddDisk(s, c).value;
            && wrong.pool in t.poolIds
            && var u := RemoveView(t, wrong).0;
            && a in u.disks && u.disks[a].pinned > 0 && a.disk !in u.diskIds
            && u.table == s.table && u.disks[a] == s.disks[a] && b in u.disks && u.disks[b] == s.disks[b]
  {
    var s, wrong := OneInFlight(a, b, o), DiskKey(a.disk, c.pool);
    var t := AddDisk(s, c).value;
    assert wrong !in t.disks && wrong.pool in t.poolIds && a in t.disks && b in t.disks;
    assert t.poolIds == t.pools.Keys;
    ForgetsShape(t, wrong);
    hide RemoveView;
  }

  lemma WrongRemovalRun(a: DiskKey, b: DiskKey, c: DiskKey, o: ObjKey) returns (states: seq<State>, ops: seq<Op>)
    requires a.pool == b.pool != c.pool && a.disk != b.disk && c.disk !in {a.disk, b.disk} && o.storage == a.disk
    ensures Run(states, ops) && |ops| == 6 && ops[5] == Remove(DiskKey(a.disk, c.pool))
    ensures forall j :: 0 <= j < 5 ==> NamesRight(states[j], ops[j])
    ensures AddDisk(OneInFlight(a, b, o), c).Some?
    ensures states[6] == RemoveView(AddDisk(OneInFlight(a, b, o), c).value, DiskKey(a.disk, c.pool)).0
  {
    IdRemoved(a, b, c, o);
    states, ops := OneInFlightRun(a, b, o);
    var wrong := DiskKey(a.disk, c.pool);
    hide RemoveView, AddDisk, Repeats, OneInFlight;
    var t := AddDisk(states[4], c).value;
    RunThen(states, ops, Add(c));
    states, ops := states + [t], ops + [Add(c)];
    RunThen(states, ops, Remove(wrong));
    states, ops := states + [RemoveView(t, wrong).0], ops + [Remove(wrong)];
  }

  /**
    A run of six operations after which a completion cannot find a disk that is still there and
    pinned: its id was removed under the sub-pool of another disk.
   */
  lemma WrongRemovalLosesDisk(a: DiskKey, b: DiskKey, c: DiskKey, o: ObjKey, ok: bool)
    returns (states: seq<State>, ops: seq<Op>)
    requires a.pool == b.pool != c.pool && a.disk != b.disk && c.disk !in {a.disk, b.disk} && o.storage == a.disk
    ensures Run(states, ops) && |ops| == 6 && ops[5] == Remove(DiskKey(a.disk, c.pool))
    ensures Agree(states[5]) && !Agree(states[6])
    ensures a in states[6].disks && states[6].disks[a].pinned > 0
    ensures var key := ObjKey(b.disk, o.obj);
            Completable(states[6], key, ok) && Complete(states[6], key, ok).None?
  {
    IdRemoved(a, b, c, o);
    states, ops := WrongRemovalRun(a, b, c, o);
    RunKeeps(states, ops, 5);
    RunKeeps(states, ops, 6);
    AgreesInOrder(states[5]);
    hide Run, Complete, Grounded, Orderly, Accounts, CounterExact, Repeats, NamesRight, RemoveView, AddDisk,
         RemovesAgain;
    CompleteKeeps(states[6], ObjKey(b.disk, o.obj), ok);
  }

  lemma AgreesInOrder(s: State)
    requires Inv(s, multiset{})
    ensures Agree(s)
  {
  }

  /** Removing a pinned disk twice counts it twice: the sub-pool is reported gone while its other disk lives on. */
  lemma RemovedTwiceMisreports(a: DiskKey, b: DiskKey, o: ObjKey, active: bool)
    requires a.pool == b.pool && a.disk != b.disk && o.storage == a.disk
    ensures var s := OneInFlight(a, b, o);
            && Inv(s, multiset{}) && CounterExact(s)
            && RemoveDisk(s, a, active).Some? && RemoveDisk(s, a, active).value.1 == DiskGone
            && var t := RemoveDisk(s, a, active).value.0;
            && RemoveDisk(t, a, active).Some? && RemoveDisk(t, a, active).value.1 == PoolGone
            && var u := RemoveDisk(t, a, active).value.0;
            b in u.disks && !u.disks[b].deleting
  {
    OneInFlightReached(a, b, o);
    FirstRemoval(a, b, o, active);
    SecondRemoval(a, b, o, active);
    hide Inv, CounterExact, RemoveDisk, OneInFlight;
  }

  /** The state after n removals of the pinned disk. */
  function Marked(a: DiskKey, b: DiskKey, o: ObjKey, n: nat): State
  {
    OneInFlight(a, b, o).(disks := map[a := Disk(1, true, {o}), b := Disk(1, false, {})], pools := map[a.pool := n])
  }

  lemma FirstRemoval(a: DiskKey, b: DiskKey, o: ObjKey, active: bool)
    requires a.pool == b.pool && a.disk != b.disk
    ensures RemoveDisk(OneInFlight(a, b, o), a, active) == Some((Marked(a, b, o, 1), DiskGone))
  {
    var s := OneInFlight(a, b, o);
    var t := RemoveDisk(s, a, active).value.0;
    assert t.disks == Marked(a, b, o, 1).disks && t.pools == map[a.pool := 1];
    assert DisksOf(t, a.pool) == {a, b};
  }

  lemma SecondRemoval(a: DiskKey, b: DiskKey, o: ObjKey, active: bool)
    requires a.pool == b.pool && a.disk != b.disk
    ensures RemoveDisk(Marked(a, b, o, 1), a, active) == Some((Marked(a, b, o, 2), PoolGone))
  {
    var s := Marked(a, b, o, 1);
    var t := RemoveDisk(s, a, active).value.0;
    assert t.disks == s.disks && t.pools == map[a.pool := 2];
    assert DisksOf(t, a.pool) == {a, b};
  }

  // What the invariants make of an operation

  /** A key names a disk exactly when its id is registered under it, and a named disk can be found. */
  lemma KeyIsThereIff(s: State, k: DiskKey)
    requires Agree(s)
    ensures k in s.disks <==> k.disk in s.diskIds && s.diskIds[k.disk] == k
    ensures k in s.disks ==> Found(s, k)
    ensures k.pool in s.poolIds <==> k.pool in s.pools
  {
  }

  lemma AddMeans(s: State, k: DiskKey)
    requires Accounts(s, multiset{}) && AddDisk(s, k).Some?
    ensures var t := AddDisk(s, k).value;
            && Found(t, k) && t.disks == (if k in s.disks then s.disks else s.disks[k := Disk(0, false, {})])
            && t.diskIds == (if k in s.disks then s.diskIds else s.diskIds[k.disk := k])
            && t.pools == (if k.pool in s.pools then s.pools else s.pools[k.pool := 0])
            && t.poolIds == s.poolIds + {k.pool} && t.table == s.table && t.leaked == s.leaked
  {
    hide Counted, CounterCovers;
  }

  /**
    Which requests pin their disks: those that are involved, whose two ids are registered and whose two
    disks are there, for an object that is on the disk it is said to be on.
   */
  lemma AcceptedIff(s: State, o: ObjKey, tgt: DiskKey, involved: bool)
    requires Grounded(s)
    ensures Accepted(s, o, tgt, involved) <==>
            && involved && o.storage in s.diskIds && tgt.disk in s.diskIds
            && DiskKey(o.storage, tgt.pool) in s.disks && tgt in s.disks
            && o in s.disks[s.diskIds[o.storage]].objs
  {
    hide DisksOf;
  }

  /**
    Which completions go through: the key is in flight, both ids are registered, and on success the old
    name is on the source and the new one is not on the target yet.
   */
  lemma CompletedIff(s: State, o: ObjKey, ok: bool)
    requires Accounts(s, multiset{})
    ensures o in s.table ==> s.table[o] in s.disks && DiskKey(o.storage, s.table[o].pool) in s.disks
    ensures Complete(s, o, ok).Some? <==>
            && o in s.table && o.storage in s.diskIds && s.table[o].disk in s.diskIds
            && (ok ==> ObjKey(s.table[o].disk, o.obj) in s.disks[s.table[o]].objs
                       && o !in s.disks[DiskKey(o.storage, s.table[o].pool)].objs)
  {
    CompleteKeeps(s, o, ok);
    hide Complete, Accounts;
  }

  /**
    Removing a disk whose id is registered: without pins it is gone, pinned it stays and is flagged.
    No other disk changes. A key that names no disk only forgets its id.
   */
  lemma RemoveMeans(s: State, k: DiskKey)
    requires Grounded(s)
    ensures RemoveView(s, k).0.disks ==
              if k !in s.disks || k.disk !in s.diskIds then s.disks
              else if s.disks[k].pinned == 0 then s.disks - {k}
              else s.disks[k := s.disks[k].(deleting := true)]
    ensures k.pool in s.poolIds ==>
              RemoveView(s, k).0.diskIds ==
                if k in s.disks && s.disks[k].pinned > 0 then s.diskIds else s.diskIds - {k.disk}
  {
    if k.disk !in s.diskIds {
      UnknownStays(s, k);
      assert s.diskIds - {k.disk} == s.diskIds;
    } else if k in s.disks {
      RemoveEffect(s, k);
    } else {
      ForgetsShape(s, k);
    }
    hide Grounded, RemoveView;
  }

  /**
    Whether a removal leaves the invariants: exactly when it names the disk under its own sub-pool, or
    no known disk.
   */
  lemma RemoveKeepsIff(s: State, k: DiskKey)
    requires Inv(s, multiset{}) && k.pool in s.poolIds
    ensures Accounts(RemoveView(s, k).0, multiset{})
    ensures Inv(RemoveView(s, k).0, multiset{}) <==> (k.disk in s.diskIds ==> s.diskIds[k.disk] == k)
  {
    hide RemoveView, Counted, CounterCovers, Waiting, Grounded, Registered;
    RemoveKeepsAgreementIff(s, k);
    RemoveKeeps(s, k, multiset{});
  }

  lemma RegisteredIsFound(s: State, id: nat)
    requires Accounts(s, multiset{}) && id in s.diskIds
    ensures Found(s, s.diskIds[id])
  {
    RegisteredIsThere(s, id);
    DiskHasPool(s, s.diskIds[id]);
    hide Grounded, Counted, CounterCovers;
  }

  /** An object joins the one disk registered for its storage id, which is always there; pins and flags stay. */
  lemma AddObjMeans(s: State, o: ObjKey)
    requires Accounts(s, multiset{})
    ensures AddObj(s, o).Some?
    ensures var t := AddObj(s, o).value;
            && t.disks.Keys == s.disks.Keys
            && (o.storage in s.diskIds ==> s.diskIds[o.storage] in s.disks && o in t.disks[s.diskIds[o.storage]].objs)
            && forall k :: k in s.disks ==> t.disks[k] == s.disks[k].(objs := s.disks[k].objs + Own(s.diskIds, o, k))
  {
    hide Accounts;
    if o.storage in s.diskIds {
      RegisteredIsFound(s, o.storage);
    }
  }

  /** The object, for the disk registered for its storage id. */
  function Own(diskIds: map<nat, DiskKey>, o: ObjKey, k: DiskKey): set<ObjKey>
  {
    if o.storage in diskIds && k == diskIds[o.storage] then {o} else {}
  }

  /** An object leaves the one disk registered for its storage id. */
  lemma DeleteObjMeans(s: State, o: ObjKey)
    requires Accounts(s, multiset{})
    ensures var t := DeleteObj(s, o);
            && t.disks.Keys == s.disks.Keys
            && forall k :: k in s.disks ==> t.disks[k] == s.disks[k].(objs := s.disks[k].objs - Own(s.diskIds, o, k))
  {
    hide Accounts;
    if o.storage in s.diskIds {
      RegisteredIsFound(s, o.storage);
    }
  }
}
