/**
  The arbitrator itself: its checks change IN and OUT on their way, and the first one that
  applies ends them.
 */
module Arbitrators {
  import opened ArbitrateeIndex
  import opened Arbitration
  import opened Common

  type Pools = map<nat, SubPoolArbitratee>

  /** Each sub-pool has an index of its own. */
  ghost predicate Distinct(m: Pools)
  {
    forall p, q :: p in m && q in m && p != q ==> m[p] != m[q]
  }

  /** Some of the indexes, each for its sub-pool. */
  ghost predicate Within(r: Pools, m: Pools)
  {
    r.Keys <= m.Keys && forall p :: p in r ==> r[p] == m[p]
  }

  lemma WithinStays(r: Pools, m: Pools)
    requires Within(r, m)
    ensures r.Values <= m.Values && (Distinct(m) ==> Distinct(r))
  {
  }

  ghost function TableOf(m: Pools): Table
    reads m.Values
  {
    map p | p in m :: m[p].Abs()
  }

  ghost function IndexAt(m: Pools, pool: nat): set<SubPoolArbitratee>
  {
    if pool in m then {m[pool]} else {}
  }

  method AddArbitratee(m: Pools, pool: nat, a: Arbitratee) returns (r: Pools)
    requires Distinct(m) && AllConsistent(TableOf(m))
    modifies IndexAt(m, pool)
    ensures Distinct(r) && fresh(r.Values - m.Values)
    ensures TableOf(r) == Put(old(TableOf(m)), pool, a)
  {
    hide Consistent, Added;
    r := m;
    if pool !in m {
      var index := new SubPoolArbitratee();
      r := m[pool := index];
    }
    assert r[pool].Valid() by {
      assert pool in m ==> Consistent(TableOf(m)[pool]);
    }
    var _ := r[pool].AddArbitratee(a);
  }

  method RemoveArbitratee(m: Pools, slot: Slot)
    requires Distinct(m) && AllConsistent(TableOf(m))
    modifies IndexAt(m, slot.pool)
    ensures TableOf(m) == Take(old(TableOf(m)), slot)
  {
    hide Consistent, Removed;
    if slot.pool in m {
      assert Consistent(TableOf(m)[slot.pool]);
      var _ := m[slot.pool].RemoveArbitratee(slot.key);
    }
  }

  method GetArbitratee(m: Pools, slot: Slot) returns (a: Option<Arbitratee>)
    requires AllConsistent(TableOf(m))
    ensures a == Find(TableOf(m), slot)
  {
    hide Consistent;
    a := None;
    if slot.pool in m {
      assert Consistent(TableOf(m)[slot.pool]);
      a := m[slot.pool].GetArbitratee(slot.key);
    }
  }

  /** Erasing from the map of indexes while walking over it. */
  method Tidy(m: Pools, pools: set<nat>) returns (r: Pools)
    requires AllConsistent(TableOf(m))
    ensures Within(r, m)
    ensures TableOf(r) == Tidied(TableOf(m), pools)
  {
    hide Consistent;
    r := m;
    var todo := m.Keys;
    while todo != {}
      invariant todo <= r.Keys && Within(r, m)
      invariant forall p :: p in m.Keys - todo ==> (p in r <==> m[p].items != map[] || p in pools)
    {
      var p :| p in todo;
      assert Consistent(TableOf(m)[p]);
      if m[p].Empty() && p !in pools {
        r := r - {p};
      }
      todo := todo - {p};
    }
  }

  method DiscardExpired(m: Pools, p: nat, now: nat) returns (empty: bool)
    requires Distinct(m) && p in m && Consistent(TableOf(m)[p])
    modifies m[p]
    ensures TableOf(m) == old(TableOf(m))[p := Discarded(old(TableOf(m))[p], now)]
    ensures empty <==> Discarded(old(TableOf(m))[p], now).items == map[]
  {
    hide Consistent, Discarded;
    m[p].DiscardExpired(now);
    empty := m[p].Empty();
  }

  /** The table when all indexes but those still to be visited have been walked over. */
  ghost function Visited(m: Table, todo: set<nat>, now: nat): Table
  {
    map p | p in m :: if p in todo then m[p] else Discarded(m[p], now)
  }

  lemma Visiting(m: Table, todo: set<nat>, now: nat, p: nat)
    requires p in todo && p in m
    ensures Visited(m, todo, now)[p := Discarded(m[p], now)] == Visited(m, todo - {p}, now)
    ensures Visited(m, todo, now)[p] == m[p]
  {
    hide Discarded;
  }

  lemma VisitedAll(m: Table, now: nat)
    ensures Visited(m, m.Keys, now) == m && Visited(m, {}, now) == AllDiscarded(m, now)
  {
    hide Discarded;
  }

  lemma Remaining(m: Pools, r: Pools, pools: set<nat>)
    requires Within(r, m)
    requires forall p :: p in m ==> (p in r <==> TableOf(m)[p].items != map[] || p in pools)
    ensures TableOf(r) == Tidied(TableOf(m), pools)
  {
  }

  /** The cursor of each index walks over its list, and the indexes left empty are erased if their sub-pool is gone. */
  method DiscardAndTidy(m: Pools, now: nat, pools: set<nat>) returns (r: Pools)
    requires Distinct(m) && AllConsistent(TableOf(m))
    modifies m.Values
    ensures Within(r, m)
    ensures TableOf(r) == Tidied(AllDiscarded(old(TableOf(m)), now), pools)
  {
    hide Consistent, Discarded, Visited, Distinct, Tidied;
    ghost var before := TableOf(m);
    r := m;
    var todo := m.Keys;
    assert before.Keys == m.Keys;
    VisitedAll(before, now);
    while todo != {}
      invariant todo <= r.Keys && Within(r, m)
      invariant TableOf(m) == Visited(before, todo, now)
      invariant forall p :: p in m.Keys - todo ==> (p in r <==> Discarded(before[p], now).items != map[] || p in pools)
    {
      hide TableOf;
      var p :| p in todo;
      Visiting(before, todo, now, p);
      var empty := DiscardExpired(m, p, now);
      if empty && p !in pools {
        r := r - {p};
      }
      todo := todo - {p};
    }
    Remaining(m, r, pools);
  }

  ghost predicate SameBut(m: Table, m': Table, slot: Slot)
  {
    forall other :: other != slot ==> Find(m', other) == Find(m, other)
  }

  class Arbitrator {
    var itemsIn: Pools
    var itemsOut: Pools

    ghost function Abs(now: nat): State
      reads this, itemsIn.Values, itemsOut.Values
    {
      State(TableOf(itemsIn), TableOf(itemsOut), now)
    }

    ghost function Repr(): set<SubPoolArbitratee>
      reads this
    {
      itemsIn.Values + itemsOut.Values
    }

    ghost predicate Apart()
      reads this
    {
      Distinct(itemsIn) && Distinct(itemsOut) && itemsIn.Values !! itemsOut.Values
    }

    ghost predicate Valid(now: nat)
      reads this, itemsIn.Values, itemsOut.Values
    {
      Apart() && Inv(Abs(now))
    }

    ghost function In(slot: Slot): Option<Arbitratee>
      reads this, itemsIn.Values
    {
      Find(TableOf(itemsIn), slot)
    }

    ghost function Out(slot: Slot): Option<Arbitratee>
      reads this, itemsOut.Values
    {
      Find(TableOf(itemsOut), slot)
    }

    lemma StaysValid(now: nat, later: nat)
      requires Valid(now) && now <= later
      ensures Valid(later)
    {
      hide AllConsistent, Find, Distinct;
    }

    constructor ()
      ensures Valid(0) && Abs(0) == INITIAL
    {
      itemsIn, itemsOut := map[], map[];
    }

    method AddArbitrateeIn(pool: nat, a: Arbitratee)
      requires Apart() && AllConsistent(TableOf(itemsIn))
      modifies `itemsIn, IndexAt(itemsIn, pool)
      ensures Apart() && fresh(Repr() - old(Repr())) && itemsOut == old(itemsOut)
      ensures TableOf(itemsIn) == Put(old(TableOf(itemsIn)), pool, a)
      ensures TableOf(itemsOut) == old(TableOf(itemsOut))
    {
      hide AllConsistent, Put, TableOf, Distinct;
      itemsIn := AddArbitratee(itemsIn, pool, a);
    }

    method RemoveArbitrateeIn(slot: Slot)
      requires Apart() && AllConsistent(TableOf(itemsIn))
      modifies IndexAt(itemsIn, slot.pool)
      ensures TableOf(itemsIn) == Take(old(TableOf(itemsIn)), slot)
      ensures TableOf(itemsOut) == old(TableOf(itemsOut))
    {
      hide AllConsistent, Take;
      RemoveArbitratee(itemsIn, slot);
    }

    method AddArbitrateeOut(pool: nat, a: Arbitratee)
      requires Apart() && AllConsistent(TableOf(itemsOut))
      modifies `itemsOut, IndexAt(itemsOut, pool)
      ensures Apart() && fresh(Repr() - old(Repr())) && itemsIn == old(itemsIn)
      ensures TableOf(itemsOut) == Put(old(TableOf(itemsOut)), pool, a)
      ensures TableOf(itemsIn) == old(TableOf(itemsIn))
    {
      hide AllConsistent, Put, TableOf, Distinct;
      itemsOut := AddArbitratee(itemsOut, pool, a);
    }

    method RemoveArbitrateeOut(slot: Slot)
      requires Apart() && AllConsistent(TableOf(itemsOut))
      modifies IndexAt(itemsOut, slot.pool)
      ensures TableOf(itemsOut) == Take(old(TableOf(itemsOut)), slot)
      ensures TableOf(itemsIn) == old(TableOf(itemsIn))
    {
      hide AllConsistent, Take;
      RemoveArbitratee(itemsOut, slot);
    }

    /** A conflicting entry takes over the plan's data if the plan has the higher priority. */
    method CheckConflict(slot: Slot, a: Arbitratee, now: nat, prio: Direction -> nat) returns (conflict: bool)
      requires Valid(now) && a.key == slot.key
      modifies IndexAt(itemsIn, slot.pool)
      ensures TableOf(itemsOut) == old(TableOf(itemsOut))
      ensures conflict <==> old(In(slot)).Some?
      ensures TableOf(itemsIn) == if conflict && HigherDirection(prio, a.dir, old(In(slot)).value.dir) == a.dir
                                  then Overwrite(old(TableOf(itemsIn)), slot.pool, a) else old(TableOf(itemsIn))
    {
      hide Consistent, Replaced, InPast;
      var b := GetArbitratee(itemsIn, slot);
      conflict := b.Some?;
      if conflict && a.dir == HigherDirection(prio, a.dir, b.value.dir) {
        assert Consistent(TableOf(itemsIn)[slot.pool]);
        itemsIn[slot.pool].SetArbitratee(a);
      }
    }

    /** An expired entry of OUT no longer stands in the way and is dropped. */
    method CheckFrequentUpDown(slot: Slot, now: nat) returns (frequent: bool)
      requires Apart() && AllConsistent(TableOf(itemsOut))
      modifies IndexAt(itemsOut, slot.pool)
      ensures TableOf(itemsIn) == old(TableOf(itemsIn))
      ensures frequent <==> old(Out(slot)).Some? && !Expired(old(Out(slot)).value, now)
      ensures TableOf(itemsOut) == if old(Out(slot)).Some? && !frequent then Take(old(TableOf(itemsOut)), slot)
                                   else old(TableOf(itemsOut))
    {
      hide Expired, Consistent, Take;
      var a := GetArbitratee(itemsOut, slot);
      frequent := a.Some? && !Expired(a.value, now);
      if a.Some? && !frequent {
        RemoveArbitrateeOut(slot);
      }
    }

    /**
      The first check that applies ends the plan; what passes them all is inserted, and taken out
      again if it is not placed.
     */
    method ReceivePlan(plan: Plan, now: nat, check: ConfigCheck, reserved: bool, submitted: bool,
                       prio: Direction -> nat)
      returns (ok: bool)
      requires Valid(now)
      modifies this, Repr()
      ensures Valid(now) && fresh(Repr() - old(Repr()))
      ensures Abs(now) == Receive(old(Abs(now)), plan, check, reserved && submitted, prio)
      ensures ok <==> old(In(plan.slot)).None? && In(plan.slot).Some?
      ensures ok <==> check == Unchanged && reserved && submitted && old(In(plan.slot)).None?
                      && !Blocked(old(Abs(now)), plan.slot)
      ensures ok ==> Out(plan.slot) == None
      ensures var before, after := old(In(plan.slot)), In(plan.slot);
              var kept := before.Some? && prio(plan.dir) >= prio(before.value.dir) && plan.dir != before.value.dir;
              && (after.Some? && check == Unchanged && !kept ==>
                 && after.value.key == plan.slot.key && after.value.target == plan.target
                 && after.value.dir == plan.dir && after.value.epoch == plan.epoch
                 && after.value.cycle == now % 0x1_0000_0000)
              && (check == DiskMissing || (kept && check == Unchanged) ==> after == before)
              && (before.Some? && check == Unchanged ==> after.Some?) && (check == PoolMissing ==> after.None?)
    {
      PlanIsRecorded(Abs(now), plan, check, reserved && submitted, prio);
      ReceiveEffect(Abs(now), plan, check, reserved && submitted, prio);
      ReceiveKeeps(Abs(now), plan, check, reserved && submitted, prio);
      ok := CheckAndPlace(plan, now, check, reserved && submitted, prio);
    }

    method ForgetPool(pool: nat)
      requires Apart()
      modifies this
      ensures Apart() && Repr() <= old(Repr())
      ensures TableOf(itemsIn) == old(TableOf(itemsIn)) - {pool} && TableOf(itemsOut) == old(TableOf(itemsOut)) - {pool}
    {
      WithinStays(itemsIn - {pool}, itemsIn);
      WithinStays(itemsOut - {pool}, itemsOut);
      hide Distinct;
      itemsIn, itemsOut := itemsIn - {pool}, itemsOut - {pool};
    }

    method CheckAndPlace(plan: Plan, now: nat, check: ConfigCheck, placed: bool, prio: Direction -> nat)
                         returns (ok: bool)
      requires Valid(now)
      modifies this, Repr()
      ensures Apart() && fresh(Repr() - old(Repr()))
      ensures Abs(now) == Receive(old(Abs(now)), plan, check, placed, prio)
      ensures ok <==> placed && Passes(old(Abs(now)), plan, check)
    {
      hide Expired, HigherDirection, AllConsistent, Put, Take, Overwrite, InPast, TableOf, Find;
      var slot, a := plan.slot, Recorded(plan, now);
      if check != Unchanged {
        if check == PoolMissing {
          ForgetPool(slot.pool);
        }
        return false;
      }
      var conflict := CheckConflict(slot, a, now, prio);
      if conflict {
        return false;
      }
      var frequent := CheckFrequentUpDown(slot, now);
      if frequent {
        return false;
      }
      PutEffect(TableOf(itemsIn), slot.pool, a);
      AddArbitrateeIn(slot.pool, a);
      ok := placed;
      if !ok {
        RemoveArbitrateeIn(slot);
      }
    }

    /** The record goes to OUT as it is if the migration succeeded, and is dropped otherwise. */
    method Complete(slot: Slot, ok: bool, now: nat)
      requires Valid(now)
      modifies this, Repr()
      ensures Valid(now) && fresh(Repr() - old(Repr()))
      ensures Abs(now) == Arbitration.Complete(old(Abs(now)), slot, ok)
      ensures In(slot) == None && SameBut(old(TableOf(itemsIn)), TableOf(itemsIn), slot)
      ensures Out(slot) == (if ok && old(In(slot)).Some? then old(In(slot)) else old(Out(slot)))
      ensures SameBut(old(TableOf(itemsOut)), TableOf(itemsOut), slot)
    {
      hide Inv, Apart, TableOf, Find, Arbitration.Complete;
      CompleteEffect(Abs(now), slot, ok);
      ApplyKeeps(Abs(now), CompleteOf(slot, ok), _ => 0);
      MoveToOut(slot, ok, now);
    }

    method MoveToOut(slot: Slot, ok: bool, now: nat)
      requires Valid(now)
      modifies this, Repr()
      ensures Apart() && fresh(Repr() - old(Repr()))
      ensures Abs(now) == Arbitration.Complete(old(Abs(now)), slot, ok)
    {
      hide AllConsistent, Put, Take, InPast, TableOf, Find;
      var a := GetArbitratee(itemsIn, slot);
      if a.Some? {
        KeyOfSlot(TableOf(itemsIn), slot);
        RemoveArbitrateeIn(slot);
        if ok {
          AddArbitrateeOut(slot.pool, a.value);
        }
      }
    }

    method Expire(slot: Slot, now: nat)
      requires Valid(now)
      modifies IndexAt(itemsIn, slot.pool)
      ensures Valid(now)
      ensures Abs(now) == Arbitration.Expire(old(Abs(now)), slot)
      ensures In(slot) == None && SameBut(old(TableOf(itemsIn)), TableOf(itemsIn), slot)
      ensures TableOf(itemsOut) == old(TableOf(itemsOut))
    {
      hide AllConsistent, Put, Take, InPast, TableOf, Find;
      ExpireEffect(Abs(now), slot);
      ApplyKeeps(Abs(now), ExpireOf(slot), _ => 0);
      var a := GetArbitratee(itemsIn, slot);
      if a.Some? {
        RemoveArbitrateeIn(slot);
      }
    }

    /**
      Everything is forgotten, or the expired entries of OUT are, found by walking the lists; an entry
      of IN never is.
     */
    method Reset(all: bool, now: nat, pools: set<nat>)
      requires Valid(now)
      modifies this, Repr()
      ensures Valid(now) && Repr() <= old(Repr())
      ensures Abs(now) == Arbitration.Reset(old(Abs(now)), all, pools)
      ensures forall slot :: In(slot) == if all then None else old(In(slot))
      ensures forall slot :: Out(slot) == if all then None else IfUnexpired(old(Out(slot)), now)
    {
      hide Inv, Apart, TableOf, Find, Arbitration.Reset, Expired;
      ResetEffect(Abs(now), all, pools);
      ApplyKeeps(Abs(now), ResetOf(all, pools), _ => 0);
      WalkOrForget(all, now, pools);
    }

    method TidyIn(pools: set<nat>)
      requires Apart() && AllConsistent(TableOf(itemsIn))
      modifies `itemsIn
      ensures Apart() && Repr() <= old(Repr())
      ensures TableOf(itemsIn) == Tidied(old(TableOf(itemsIn)), pools) && TableOf(itemsOut) == old(TableOf(itemsOut))
    {
      hide Tidied, AllConsistent, TableOf, Distinct, Within;
      var r := Tidy(itemsIn, pools);
      WithinStays(r, itemsIn);
      itemsIn := r;
    }

    method DiscardOut(now: nat, pools: set<nat>)
      requires Apart() && AllConsistent(TableOf(itemsOut))
      modifies `itemsOut, itemsOut.Values
      ensures Apart() && Repr() <= old(Repr())
      ensures TableOf(itemsOut) == Tidied(AllDiscarded(old(TableOf(itemsOut)), now), pools)
      ensures TableOf(itemsIn) == old(TableOf(itemsIn))
    {
      hide Tidied, AllDiscarded, AllConsistent, TableOf, Distinct, Within;
      var r := DiscardAndTidy(itemsOut, now, pools);
      WithinStays(r, itemsOut);
      itemsOut := r;
    }

    method WalkOrForget(all: bool, now: nat, pools: set<nat>)
      requires Valid(now)
      modifies this, Repr()
      ensures Apart() && Repr() <= old(Repr())
      ensures Abs(now) == Arbitration.Reset(old(Abs(now)), all, pools)
    {
      hide Tidied, AllDiscarded, InPast, AllConsistent;
      if all {
        itemsIn, itemsOut := map[], map[];
      } else {
        hide TableOf, Distinct;
        TidyIn(pools);
        DiscardOut(now, pools);
      }
    }
  }
}
