/**
  The operations of the HUB on its disks and migrations, in place. Each answers whether all
  assertions on its way held, and promises what the invariants make of it for a caller. An
  assertion that cannot fail in a valid state is an `assert`.
 */
module HubConfig {
  import opened Migrations

  class HUBConfig {
    var diskIds: map<nat, DiskKey>
    var poolIds: set<nat>
    var pools: map<nat, nat>
    var disks: map<DiskKey, Disk>
    var table: map<ObjKey, DiskKey>
    ghost var leaked: multiset<DiskKey>

    /** The state without its history. */
    function View(): State
      reads `diskIds, `poolIds, `pools, `disks, `table
    {
      State(diskIds, poolIds, pools, disks, table, multiset{})
    }

    ghost function Abs(): State
      reads this
    {
      View().(leaked := leaked)
    }

    /** Each pin is accounted for, and each registered id leads to its disk; every operation keeps this. */
    ghost predicate Valid()
      reads this
    {
      Accounts(Abs(), multiset{})
    }

    /** Each disk is registered, and flagged ones are pinned; only a removal under another sub-pool loses this. */
    ghost predicate InOrder()
      reads this
    {
      Orderly(Abs())
    }

    constructor ()
      ensures Valid() && InOrder() && Abs() == EMPTY
    {
      EmptyHolds();
      diskIds, poolIds, pools, disks, table, leaked := map[], {}, map[], map[], map[], multiset{};
    }

    /** The number of disks of a sub-pool. */
    function GetDiskCnt(pool: nat): (n: nat)
      reads this
      ensures n == |DisksOf(Abs(), pool)|
    {
      assert DisksOf(View(), pool) == DisksOf(Abs(), pool);
      |DisksOf(View(), pool)|
    }

    /**
      Fails exactly if only one of id and key is known, so with maps in order exactly for an id
      registered under another key. A known disk stays as it is, flagged or not; a new one can be
      found afterwards, and no other disk changes.
     */
    method AddDiskView(k: DiskKey) returns (alive: bool)
      requires Valid()
      modifies `diskIds, `poolIds, `pools, `disks
      ensures alive <==> (k.disk in old(diskIds) <==> k in old(disks))
      ensures old(InOrder()) ==> (alive <==> (k.disk in old(diskIds) ==> old(diskIds)[k.disk] == k))
      ensures Valid() && (old(InOrder()) ==> InOrder()) && (!alive ==> Abs() == old(Abs()))
      ensures alive ==> AddDisk(old(Abs()), k).Some? && Abs() == AddDisk(old(Abs()), k).value
      ensures alive ==> Found(Abs(), k)
      ensures alive ==> disks == if k in old(disks) then old(disks) else old(disks)[k := Disk(0, false, {})]
      ensures alive ==> diskIds == if k in old(disks) then old(diskIds) else old(diskIds)[k.disk := k]
      ensures alive ==> pools == if k.pool in old(pools) then old(pools) else old(pools)[k.pool := 0]
    {
      hide Accounts, Orderly;
      AddAny(Abs(), k);
      if (k.disk in diskIds) != (k in disks) {
        return false;
      }
      AddMeans(Abs(), k);
      if k.disk in diskIds {
        return true;
      }
      AddPool(k);
      diskIds, disks := diskIds[k.disk := k], disks[k := Disk(0, false, {})];
      alive := true;
    }

    /** The sub-pool of a new disk is made if it is not there. */
    method AddPool(k: DiskKey)
      requires Valid()
      modifies `poolIds, `pools
      ensures poolIds == old(poolIds) + {k.pool}
      ensures pools == if k.pool in old(pools) then old(pools) else old(pools)[k.pool := 0]
    {
      if k.pool !in poolIds {
        poolIds, pools := poolIds + {k.pool}, pools[k.pool := 0];
      } else {
        assert poolIds + {k.pool} == poolIds;
      }
    }

    method DropDiskView(k: DiskKey) returns (ret: Ret)
      requires k.pool in pools
      modifies `disks, `pools
      ensures (Abs(), ret) == DropFromPool(old(Abs()), k)
    {
      if k !in disks {
        return NoEntry;
      }
      if disks[k].pinned == 0 {
        if disks[k].deleting {
          pools := pools[k.pool := if pools[k.pool] == 0 then 0xFFFF_FFFF else pools[k.pool] - 1];
        } else {
          assert pools == pools[k.pool := pools[k.pool]];
        }
        disks := disks - {k};
        ret := Success;
      } else {
        disks := disks[k := disks[k].(deleting := true)];
        pools := pools[k.pool := pools[k.pool] + 1];
        ret := Busy;
      }
    }

    /** The removal with its three results; it may be used while an unpin is under way. */
    method RemoveDiskView(k: DiskKey) returns (ret: Ret)
      modifies `diskIds, `poolIds, `pools, `disks
      ensures (Abs(), ret) == RemoveView(old(Abs()), k)
    {
      if k.disk !in diskIds {
        return NoEntry;
      }
      if k.pool !in poolIds {
        return Success;
      }
      ret := NoEntry;
      if k.pool in pools {
        ret := DropDiskView(k);
      }
      if ret == Success && GetDiskCnt(k.pool) == 0 {
        poolIds, pools := poolIds - {k.pool}, pools - {k.pool};
      }
      if ret == Success || ret == NoEntry {
        diskIds := diskIds - {k.disk};
      }
    }

    /**
      Fails exactly for an unknown sub-pool. A registered disk without pins is gone and a pinned one
      flagged; a key that names no disk only forgets its id, which is what loses the order of the
      maps. With an exact counter and no repeated removal of a pinned disk, the sub-pool is reported
      gone exactly when every disk left is flagged.
     */
    method RemoveDisk(k: DiskKey, active: bool) returns (alive: bool, report: Report)
      requires Valid()
      modifies `diskIds, `poolIds, `pools, `disks
      ensures alive <==> k.pool in old(poolIds)
      ensures Valid() && (!alive ==> Abs() == old(Abs()))
      ensures alive ==> Migrations.RemoveDisk(old(Abs()), k, active).Some?
      ensures alive ==> (Abs(), report) == Migrations.RemoveDisk(old(Abs()), k, active).value
      ensures alive && old(InOrder()) ==>
                (InOrder() <==> (k.disk in old(diskIds) ==> old(diskIds)[k.disk] == k))
      ensures alive ==>
                disks == if k !in old(disks) || k.disk !in old(diskIds) then old(disks)
                         else if old(disks)[k].pinned == 0 then old(disks) - {k}
                         else old(disks)[k := old(disks)[k].(deleting := true)]
      ensures alive ==>
                diskIds == if k in old(disks) && old(disks)[k].pinned > 0 then old(diskIds)
                           else old(diskIds) - {k.disk}
      ensures old(CounterExact(Abs())) && k in old(disks) && k.disk in old(diskIds)
              && !(old(disks)[k].pinned > 0 && old(disks)[k].deleting) ==>
                && (report == Nothing <==> old(disks)[k].pinned == 0 && !active)
                && (report == PoolGone ==> DisksOf(Abs(), k.pool) == Flagged(Abs(), k.pool))
                && (report == DiskGone ==> DisksOf(Abs(), k.pool) != Flagged(Abs(), k.pool))
    {
      RemovePromises(Abs(), k, active);
      hide RemoveView, DisksOf, Flagged, Accounts, Orderly, CounterExact, ReportOf;
      alive, report := Removing(k, active);
    }

    /** The removal and what the module is told about it. */
    method Removing(k: DiskKey, active: bool) returns (alive: bool, report: Report)
      modifies `diskIds, `poolIds, `pools, `disks
      ensures alive <==> Migrations.RemoveDisk(old(Abs()), k, active).Some?
      ensures alive ==> (Abs(), report) == Migrations.RemoveDisk(old(Abs()), k, active).value
      ensures !alive ==> Abs() == old(Abs())
    {
      hide RemoveView, DisksOf;
      alive, report := k.pool in poolIds, Nothing;
      if !alive {
        return;
      }
      var ret := RemoveDiskView(k);
      if ret == Success && active {
        if k.pool !in pools {
          report := PoolGone;
        } else if pools[k.pool] == GetDiskCnt(k.pool) {
          report := PoolGone;
        } else {
          report := DiskGone;
        }
      } else if ret == Busy {
        if k.pool in pools && pools[k.pool] == GetDiskCnt(k.pool) {
          report := PoolGone;
        } else {
          report := DiskGone;
        }
      }
    }

    method IncPinnedNum(k: DiskKey)
      requires k in disks
      modifies `disks
      ensures Abs() == Pin(old(Abs()), k)
    {
      disks := disks[k := disks[k].(pinned := disks[k].pinned + 1)];
    }

    /**
      Fails exactly for an involved request whose target sub-pool is unknown. A discarded request
      changes nothing; an accepted one pins both disks and records its key, or leaks the two pins
      if the key is in flight.
     */
    method Migrate(o: ObjKey, tgt: DiskKey, involved: bool) returns (alive: bool)
      requires Valid()
      modifies `disks, `table, `leaked
      ensures alive <==> !(o.storage in diskIds && involved && tgt.pool !in poolIds)
      ensures Valid() && (old(InOrder()) ==> InOrder())
      ensures old(Accepted(Abs(), o, tgt, involved)) <==>
              && involved && o.storage in diskIds && tgt.disk in diskIds
              && DiskKey(o.storage, tgt.pool) in old(disks) && tgt in old(disks)
              && diskIds[o.storage] in old(disks) && o in old(disks)[diskIds[o.storage]].objs
      ensures old(!Accepted(Abs(), o, tgt, involved)) ==> Abs() == old(Abs())
      ensures old(Accepted(Abs(), o, tgt, involved)) ==>
                var src, key := DiskKey(o.storage, tgt.pool), ObjKey(tgt.disk, o.obj);
                && disks.Keys == old(disks).Keys
                && (forall k :: Pins(Abs(), k) == old(Pins(Abs(), k)) + multiset{src, tgt}[k])
                && (key !in old(table) ==> table == old(table)[key := src] && leaked == old(leaked))
                && (key in old(table) ==> table == old(table) && leaked == old(leaked) + multiset{src, tgt})
      ensures alive ==> Migrations.Migrate(old(Abs()), o, tgt, involved).Some?
      ensures alive ==> Abs() == Migrations.Migrate(old(Abs()), o, tgt, involved).value
    {
      MigratePromises(Abs(), o, tgt, involved);
      AcceptedIff(Abs(), o, tgt, involved);
      hide Accounts, Orderly, Accepted, Pins, Pin;
      alive := Pinning(o, tgt, involved);
    }

    /** The checks in their order, then the pins and the entry. */
    method Pinning(o: ObjKey, tgt: DiskKey, involved: bool) returns (alive: bool)
      modifies `disks, `table, `leaked
      ensures alive <==> Migrations.Migrate(old(Abs()), o, tgt, involved).Some?
      ensures alive ==> Abs() == Migrations.Migrate(old(Abs()), o, tgt, involved).value
      ensures !alive ==> Abs() == old(Abs())
    {
      var src := DiskKey(o.storage, tgt.pool);
      if o.storage !in diskIds || diskIds[o.storage].pool !in poolIds || !involved {
        return true;
      }
      if tgt.pool !in poolIds || tgt.pool !in pools {
        return false;
      }
      if src !in disks || tgt.disk !in diskIds || tgt !in disks {
        return true;
      }
      var home := diskIds[o.storage];
      if home.pool !in pools {
        return false;
      }
      if home !in disks || o !in disks[home].objs {
        return true;
      }
      IncPinnedNum(src);
      IncPinnedNum(tgt);
      AddIntoOBJ2SrcDiskTable(ObjKey(tgt.disk, o.obj), src, tgt);
      alive := true;
    }

    method AddIntoOBJ2SrcDiskTable(key: ObjKey, src: DiskKey, ghost tgt: DiskKey)
      modifies `table, `leaked
      ensures key in old(table) ==> table == old(table) && leaked == old(leaked) + multiset{src, tgt}
      ensures key !in old(table) ==> table == old(table)[key := src] && leaked == old(leaked)
    {
      if key in table {
        leaked := leaked + multiset{src, tgt};
      } else {
        table := table[key := src];
      }
    }

    method MoveOBJFromSrc2Tgt(src: DiskKey, from: ObjKey, tgt: DiskKey, to: ObjKey) returns (alive: bool)
      requires src in disks && tgt in disks
      requires (src.disk in diskIds ==> Found(Abs(), src)) && (tgt.disk in diskIds ==> Found(Abs(), tgt))
      modifies `disks
      ensures alive <==> Move(old(Abs()), src, from, tgt, to).Some?
      ensures alive ==> Abs() == Move(old(Abs()), src, from, tgt, to).value
    {
      if src.disk !in diskIds || tgt.disk !in diskIds || from !in disks[src].objs || to in disks[tgt].objs {
        return false;
      }
      disks := disks[tgt := disks[tgt].(objs := disks[tgt].objs + {to})];
      disks := disks[src := disks[src].(objs := disks[src].objs - {from})];
      alive := true;
    }

    /** One held pin is given back; a registered disk goes exactly when it was flagged and this was its last. */
    method DecPinnedNum(k: DiskKey, ghost held: multiset<DiskKey>)
      requires Accounts(Abs(), held + multiset{k})
      modifies `diskIds, `poolIds, `pools, `disks
      ensures Abs() == Unpin(old(Abs()), k) && Accounts(Abs(), held) && (old(InOrder()) ==> InOrder())
      ensures k in old(disks)
      ensures disks == if k.disk in old(diskIds) && old(disks)[k].deleting && old(disks)[k].pinned == 1
                       then old(disks) - {k} else old(disks)[k := DecPinned(old(disks)[k])]
    {
      hide Accounts, Orderly;
      UnpinKeeps(Abs(), k, held);
      hide RemoveView;
      disks := disks[k := DecPinned(disks[k])];
      if disks[k].deleting && disks[k].pinned == 0 {
        var _ := RemoveDiskView(k);
      }
    }

    /**
      Fails exactly when the key is not in flight, the object cannot move, or the id of one of the
      two disks is no longer registered; with maps in order both always are. The two pins are given
      back, a flagged disk goes with its last one, and on success the object has left the source
      under its old name and joined the target under its new one.
     */
    method CompleteMigrate(o: ObjKey, ok: bool) returns (alive: bool)
      requires Valid()
      modifies this
      ensures o in old(table) ==> old(table)[o] in old(disks) && Target(o, old(table)[o]) in old(disks)
      ensures alive <==>
              && o in old(table) && o.storage in old(diskIds) && old(table)[o].disk in old(diskIds)
              && (ok ==> ObjKey(old(table)[o].disk, o.obj) in old(disks)[old(table)[o]].objs
                         && o !in old(disks)[Target(o, old(table)[o])].objs)
      ensures old(InOrder()) ==> old(BothRegistered(Abs(), o))
      ensures alive ==> Valid() && (old(InOrder()) ==> InOrder())
      ensures alive ==> table == old(table) - {o} && leaked == old(leaked)
      ensures alive ==> AfterUnpins(old(Abs()), Abs(), multiset{old(table)[o], Target(o, old(table)[o])})
      ensures alive ==> ObjsMoved(old(Abs()), Abs(), o, old(table)[o], ok)
      ensures alive ==> Complete(old(Abs()), o, ok).Some? && Abs() == Complete(old(Abs()), o, ok).value
    {
      CompleteKeeps(Abs(), o, ok);
      CompletedIff(Abs(), o, ok);
      if InOrder() {
        OrderlyIsRegistered(Abs(), o);
      }
      hide Accounts, Orderly, Completable, BothRegistered, AfterUnpins, ObjsMoved, Complete;
      alive := Completing(o, ok);
    }

    method Completing(o: ObjKey, ok: bool) returns (alive: bool)
      requires Valid()
      modifies this
      ensures alive <==> Complete(old(Abs()), o, ok).Some?
      ensures alive ==> Abs() == Complete(old(Abs()), o, ok).value
    {
      hide Accounts, Move, Unpin, Found;
      if o !in table {
        return false;
      }
      HeldForCompletion(Abs(), o);
      var src := table[o];
      var tgt := Target(o, src);
      table := table - {o};
      if ok {
        MoveKeeps(Abs(), src, ObjKey(src.disk, o.obj), tgt, o, multiset{src, tgt});
        alive := MoveOBJFromSrc2Tgt(src, ObjKey(src.disk, o.obj), tgt, o);
        if !alive {
          return;
        }
      }
      FoundWhileHeld(Abs(), src, tgt);
      if src.disk !in diskIds || tgt.disk !in diskIds {
        return false;
      }
      GiveBack(src, tgt);
      alive := true;
    }

    /** Both pins of a migration are given back; the target's disk is there after the source's is unpinned. */
    method GiveBack(src: DiskKey, tgt: DiskKey)
      requires Accounts(Abs(), multiset{src, tgt}) && src.disk in diskIds && tgt.disk in diskIds
      requires src.disk == tgt.disk ==> src == tgt
      modifies `diskIds, `poolIds, `pools, `disks
      ensures src in old(disks) && tgt in Unpin(old(Abs()), src).disks
      ensures Abs() == Unpin(Unpin(old(Abs()), src), tgt) && Valid()
    {
      hide Accounts, Unpin;
      TwoUnpins(Abs(), src, tgt);
      assert multiset{src, tgt} == multiset{tgt} + multiset{src} && multiset{tgt} == multiset{} + multiset{tgt};
      DecPinnedNum(src, multiset{tgt});
      DecPinnedNum(tgt, multiset{});
    }

    /** Never fails: the object joins the disk registered for its storage id, and nothing else changes. */
    method AddOBJView(o: ObjKey) returns (alive: bool)
      requires Valid()
      modifies `disks
      ensures alive && Valid() && (old(InOrder()) ==> InOrder())
      ensures Abs() == AddObj(old(Abs()), o).value && disks.Keys == old(disks).Keys
      ensures o.storage in diskIds ==> diskIds[o.storage] in disks && o in disks[diskIds[o.storage]].objs
      ensures forall k :: k in old(disks) ==>
                disks[k] == old(disks)[k].(objs := old(disks)[k].objs + Own(diskIds, o, k))
    {
      AddObjMeans(Abs(), o);
      ObjKeeps(Abs(), o, multiset{});
      hide Accounts, Orderly, AddObj, Own;
      alive := JoinObj(o);
    }

    method JoinObj(o: ObjKey) returns (alive: bool)
      modifies `disks
      ensures alive <==> AddObj(old(Abs()), o).Some?
      ensures Abs() == if alive then AddObj(old(Abs()), o).value else old(Abs())
    {
      if o.storage !in diskIds {
        return true;
      }
      var k := diskIds[o.storage];
      if k.pool !in poolIds || k.pool !in pools {
        return false;
      }
      if k in disks {
        disks := disks[k := disks[k].(objs := disks[k].objs + {o})];
      }
      alive := true;
    }

    /** The object leaves the disk registered for its storage id, and nothing else changes. */
    method DeleteOBJView(o: ObjKey)
      requires Valid()
      modifies `disks
      ensures Valid() && (old(InOrder()) ==> InOrder())
      ensures Abs() == DeleteObj(old(Abs()), o) && disks.Keys == old(disks).Keys
      ensures forall k :: k in old(disks) ==>
                disks[k] == old(disks)[k].(objs := old(disks)[k].objs - Own(diskIds, o, k))
    {
      DeleteObjMeans(Abs(), o);
      ObjKeeps(Abs(), o, multiset{});
      hide Accounts, Orderly, DeleteObj;
      DropObj(o);
    }

    method DropObj(o: ObjKey)
      modifies `disks
      ensures Abs() == DeleteObj(old(Abs()), o)
    {
      if o.storage in diskIds {
        var k := diskIds[o.storage];
        if k.pool in poolIds && k.pool in pools && k in disks {
          disks := disks[k := disks[k].(objs := disks[k].objs - {o})];
        }
      }
    }
  }

  lemma RemovePromises(s: State, k: DiskKey, active: bool)
    requires Accounts(s, multiset{})
    ensures Migrations.RemoveDisk(s, k, active).Some? <==> k.pool in s.poolIds
    ensures Accounts(RemoveView(s, k).0, multiset{})
    ensures k.pool in s.poolIds && Orderly(s) ==>
              (Orderly(RemoveView(s, k).0) <==> (k.disk in s.diskIds ==> s.diskIds[k.disk] == k))
    ensures RemoveView(s, k).0.disks ==
              if k !in s.disks || k.disk !in s.diskIds then s.disks
              else if s.disks[k].pinned == 0 then s.disks - {k}
              else s.disks[k := s.disks[k].(deleting := true)]
    ensures k.pool in s.poolIds ==>
              RemoveView(s, k).0.diskIds ==
                if k in s.disks && s.disks[k].pinned > 0 then s.diskIds else s.diskIds - {k.disk}
    ensures CounterExact(s) && k in s.disks && k.disk in s.diskIds
            && !(s.disks[k].pinned > 0 && s.disks[k].deleting) ==>
              && k.pool in s.poolIds
              && var (t, report) := Migrations.RemoveDisk(s, k, active).value;
              && (report == Nothing <==> s.disks[k].pinned == 0 && !active)
              && (report == PoolGone ==> DisksOf(t, k.pool) == Flagged(t, k.pool))
              && (report == DiskGone ==> DisksOf(t, k.pool) != Flagged(t, k.pool))
  {
    RemoveMeans(s, k);
    RemoveKeeps(s, k, multiset{});
    hide Grounded, Counted, CounterCovers, Orderly, RemoveView, CounterExact, DisksOf, Flagged;
    if k.pool in s.poolIds && Orderly(s) {
      RemoveKeepsIff(s, k);
    }
    if CounterExact(s) && k in s.disks && k.disk in s.diskIds && !(s.disks[k].pinned > 0 && s.disks[k].deleting) {
      DiskHasPool(s, k);
      ReportTellsTruth(s, k, active);
    }
  }

  lemma MigratePromises(s: State, o: ObjKey, tgt: DiskKey, involved: bool)
    requires Accounts(s, multiset{})
    ensures Migrations.Migrate(s, o, tgt, involved).Some? <==>
            !(o.storage in s.diskIds && involved && tgt.pool !in s.poolIds)
    ensures Accepted(s, o, tgt, involved) ==> Migrations.Migrate(s, o, tgt, involved).Some?
    ensures Migrations.Migrate(s, o, tgt, involved).Some? ==>
              var t := Migrations.Migrate(s, o, tgt, involved).value;
              var src, key := DiskKey(o.storage, tgt.pool), ObjKey(tgt.disk, o.obj);
              && Accounts(t, multiset{}) && (Orderly(s) ==> Orderly(t))
              && (!Accepted(s, o, tgt, involved) ==> t == s)
              && (Accepted(s, o, tgt, involved) ==>
                    && t == s.(disks := t.disks, table := t.table, leaked := t.leaked)
                    && t.disks.Keys == s.disks.Keys && (forall k :: Pins(t, k) == Pins(s, k) + multiset{src, tgt}[k])
                    && (key !in s.table ==> t.table == s.table[key := src] && t.leaked == s.leaked)
                    && (key in s.table ==> t.table == s.table && t.leaked == s.leaked + multiset{src, tgt}))
  {
    FailsExactlyWhen(s, Start(o, tgt, involved));
    hide Accounts, Orderly, Pins;
    if Migrations.Migrate(s, o, tgt, involved).Some? {
      hide Migrations.Migrate;
      MigrateKeeps(s, o, tgt, involved);
      MigrateEffect(s, o, tgt, involved);
    }
  }

  lemma HeldForCompletion(s: State, o: ObjKey)
    requires Accounts(s, multiset{}) && o in s.table
    ensures var src, tgt := s.table[o], Target(o, s.table[o]);
            var t := s.(table := s.table - {o});
            && Accounts(t, multiset{src, tgt}) && src in s.disks && tgt in s.disks
            && (Found(t, src) <==> src.disk in s.diskIds) && (Found(t, tgt) <==> tgt.disk in s.diskIds)
  {
    var src, tgt := s.table[o], Target(o, s.table[o]);
    var t := s.(table := s.table - {o});
    TableToHeld(s, o);
    OtherwiseSame(s, t, multiset{}, multiset{src, tgt});
    HeldIsPinned(t, src, multiset{src, tgt});
    HeldIsPinned(t, tgt, multiset{src, tgt});
    AllFound(t, src);
    AllFound(t, tgt);
    hide Grounded, Counted, CounterCovers;
  }

  lemma FoundWhileHeld(s: State, a: DiskKey, b: DiskKey)
    requires Accounts(s, multiset{a, b}) && a in s.disks && b in s.disks
    ensures Found(s, a) <==> a.disk in s.diskIds
    ensures Found(s, b) <==> b.disk in s.diskIds
  {
    AllFound(s, a);
    AllFound(s, b);
  }
}
