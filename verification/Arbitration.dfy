/**
  The life of an arbitratee: admitted to IN for a plan, moved to OUT when its migration
  completes, kept there until its lease expires, so that an object is not moved up and
  down too often.
 */
module Arbitration {
  import opened ArbitrateeIndex
  import opened Common

  const TWO_TO_THE_32: nat := 0x1_0000_0000

  datatype Slot = Slot(pool: nat, key: nat)

  datatype Plan = Plan(slot: Slot, target: nat, dir: Direction, epoch: nat)

  /** What the configuration says about a plan. */
  datatype ConfigCheck = Unchanged | DiskMissing | PoolMissing

  /** One index for each sub-pool that has had an arbitratee. */
  type Table = map<nat, Index>

  /** IN and OUT, and the relative cycle. */
  datatype State = State(ins: Table, outs: Table, now: nat)

  const INITIAL: State := State(map[], map[], 0)

  function Find(m: Table, slot: Slot): Option<Arbitratee>
  {
    if slot.pool in m && slot.key in m[slot.pool].items then Some(m[slot.pool].items[slot.key]) else None
  }

  /** The index of a sub-pool is created when it is first needed. */
  function Put(m: Table, pool: nat, a: Arbitratee): Table
  {
    m[pool := Added(if pool in m then m[pool] else EMPTY, a)]
  }

  function Take(m: Table, slot: Slot): Table
  {
    if slot.pool in m then m[slot.pool := Removed(m[slot.pool], slot.key)] else m
  }

  function Overwrite(m: Table, pool: nat, a: Arbitratee): Table
    requires pool in m
  {
    m[pool := Replaced(m[pool], a)]
  }

  /** Empty indexes of sub-pools that do not exist are dropped. */
  function Tidied(m: Table, pools: set<nat>): Table
  {
    map p | p in m && (m[p].items != map[] || p in pools) :: m[p]
  }

  function AllDiscarded(m: Table, now: nat): Table
  {
    map p | p in m :: Discarded(m[p], now)
  }

  /** The cycle is passed on as a 32-bit number. */
  function Recorded(plan: Plan, now: nat): Arbitratee
  {
    Arbitratee(plan.slot.key, plan.target, plan.dir, now % TWO_TO_THE_32, plan.epoch)
  }

  function HigherDirection(prio: Direction -> nat, a: Direction, b: Direction): Direction
  {
    if prio(a) < prio(b) then a else b
  }

  /** An entry of OUT stands in the way of a plan until its lease has expired. */
  predicate Blocked(s: State, slot: Slot)
  {
    Find(s.outs, slot).Some? && !Expired(Find(s.outs, slot).value, s.now)
  }

  /** placed: whether both the reservation and the submission succeed. */
  function Receive(s: State, plan: Plan, check: ConfigCheck, placed: bool, prio: Direction -> nat): State
  {
    var slot, a := plan.slot, Recorded(plan, s.now);
    if check == PoolMissing then s.(ins := s.ins - {slot.pool}, outs := s.outs - {slot.pool})
    else if check == DiskMissing then s
    else if Find(s.ins, slot).Some? then
      if HigherDirection(prio, plan.dir, Find(s.ins, slot).value.dir) == plan.dir
      then s.(ins := Overwrite(s.ins, slot.pool, a)) else s
    else if Blocked(s, slot) then s
    else
      var outs := if Find(s.outs, slot).Some? then Take(s.outs, slot) else s.outs;
      var ins := Put(s.ins, slot.pool, a);
      s.(ins := if placed then ins else Take(ins, slot), outs := outs)
  }

  function Complete(s: State, slot: Slot, ok: bool): State
  {
    match Find(s.ins, slot)
    case None => s
    case Some(a) => s.(ins := Take(s.ins, slot), outs := if ok then Put(s.outs, slot.pool, a) else s.outs)
  }

  function Expire(s: State, slot: Slot): State
  {
    if Find(s.ins, slot).Some? then s.(ins := Take(s.ins, slot)) else s
  }

  /** pools: the sub-pools that exist. */
  function Reset(s: State, all: bool, pools: set<nat>): State
  {
    if all then s.(ins := map[], outs := map[])
    else s.(ins := Tidied(s.ins, pools), outs := Tidied(AllDiscarded(s.outs, s.now), pools))
  }

  datatype Op =
    | ReceivePlan(plan: Plan, check: ConfigCheck, placed: bool)
    | CompleteOf(slot: Slot, ok: bool)
    | ExpireOf(slot: Slot)
    | ResetOf(all: bool, pools: set<nat>)
    | NextCycle

  function Apply(s: State, op: Op, prio: Direction -> nat): State
  {
    match op
    case ReceivePlan(plan, check, placed) => Receive(s, plan, check, placed, prio)
    case CompleteOf(slot, ok) => Complete(s, slot, ok)
    case ExpireOf(slot) => Expire(s, slot)
    case ResetOf(all, pools) => Reset(s, all, pools)
    case NextCycle => s.(now := s.now + 1)
  }

  /** In each sub-pool the map and the list hold the same arbitratees, each key once. */
  ghost predicate AllConsistent(m: Table)
  {
    forall p :: p in m ==> Consistent(m[p])
  }

  ghost predicate InPast(m: Table, now: nat)
  {
    forall slot :: Find(m, slot).Some? ==> Find(m, slot).value.cycle <= now
  }

  /** Every index is consistent, no key of a sub-pool is in IN and OUT, and no recorded cycle lies ahead. */
  ghost predicate Inv(s: State)
  {
    && AllConsistent(s.ins) && AllConsistent(s.outs)
    && InPast(s.ins, s.now) && InPast(s.outs, s.now)
    && forall slot :: Find(s.ins, slot).Some? ==> Find(s.outs, slot).None?
  }

  lemma InitialInv()
    ensures Inv(INITIAL)
  {
  }

  lemma RecordedPast(now: nat)
    ensures now % TWO_TO_THE_32 <= now
    ensures now % TWO_TO_THE_32 == now <==> now < TWO_TO_THE_32
  {
  }

  // What the operations on the indexes do to each slot

  lemma KeyOfSlot(m: Table, slot: Slot)
    requires AllConsistent(m) && Find(m, slot).Some?
    ensures Find(m, slot).value.key == slot.key
  {
  }

  lemma PutEffect(m: Table, pool: nat, a: Arbitratee)
    requires AllConsistent(m)
    ensures AllConsistent(Put(m, pool, a))
    ensures forall slot :: Find(Put(m, pool, a), slot) ==
                             if slot == Slot(pool, a.key) && Find(m, slot).None? then Some(a) else Find(m, slot)
  {
    AddedConsistent(if pool in m then m[pool] else EMPTY, a);
    hide Consistent;
  }

  lemma TakeEffect(m: Table, slot0: Slot)
    requires AllConsistent(m)
    ensures AllConsistent(Take(m, slot0))
    ensures forall slot :: Find(Take(m, slot0), slot) == if slot == slot0 then None else Find(m, slot)
  {
    if slot0.pool in m {
      RemovedConsistent(m[slot0.pool], slot0.key);
    }
    hide Consistent, Removed;
  }

  lemma OverwriteEffect(m: Table, pool: nat, a: Arbitratee)
    requires AllConsistent(m) && Find(m, Slot(pool, a.key)).Some?
    ensures AllConsistent(Overwrite(m, pool, a))
    ensures forall slot ::
            Find(Overwrite(m, pool, a), slot) == if slot == Slot(pool, a.key) then Some(a) else Find(m, slot)
  {
    ReplacedConsistent(m[pool], a);
    hide Consistent, Replaced;
  }

  lemma TidiedEffect(m: Table, pools: set<nat>)
    requires AllConsistent(m)
    ensures AllConsistent(Tidied(m, pools))
    ensures forall slot :: Find(Tidied(m, pools), slot) == Find(m, slot)
  {
    hide Consistent;
  }

  function IfUnexpired(a: Option<Arbitratee>, now: nat): Option<Arbitratee>
  {
    if a.Some? && Expired(a.value, now) then None else a
  }

  lemma DiscardEffect(m: Table, now: nat)
    requires AllConsistent(m)
    ensures AllConsistent(AllDiscarded(m, now))
    ensures forall slot :: Find(AllDiscarded(m, now), slot) == IfUnexpired(Find(m, slot), now)
  {
    forall p | p in m ensures Consistent(Discarded(m[p], now)) {
      DiscardedConsistent(m[p], now);
    }
    hide Consistent, Expired, Unexpired;
  }

  // What the operations of the arbitrator do to each slot

  /** The plan replaces the data of a conflicting entry, or is newly admitted. */
  ghost predicate TakesOver(s: State, plan: Plan, check: ConfigCheck, prio: Direction -> nat)
  {
    && check == Unchanged && Find(s.ins, plan.slot).Some?
    && HigherDirection(prio, plan.dir, Find(s.ins, plan.slot).value.dir) == plan.dir
  }

  /** The plan passes all checks. */
  ghost predicate Passes(s: State, plan: Plan, check: ConfigCheck)
  {
    check == Unchanged && Find(s.ins, plan.slot).None? && !Blocked(s, plan.slot)
  }

  ghost predicate Enters(s: State, plan: Plan, check: ConfigCheck, placed: bool, prio: Direction -> nat)
  {
    TakesOver(s, plan, check, prio) || (Passes(s, plan, check) && placed)
  }

  lemma ReceiveEffect(s: State, plan: Plan, check: ConfigCheck, placed: bool, prio: Direction -> nat)
    requires Inv(s)
    ensures var t := Receive(s, plan, check, placed, prio);
            && AllConsistent(t.ins) && AllConsistent(t.outs) && t.now == s.now
            && (forall slot :: Find(t.ins, slot) ==
                                 if check == PoolMissing && slot.pool == plan.slot.pool then None
                                 else if slot == plan.slot && Enters(s, plan, check, placed, prio)
                                 then Some(Recorded(plan, s.now))
                                 else Find(s.ins, slot))
            && (forall slot :: Find(t.outs, slot) ==
                                 if check == PoolMissing && slot.pool == plan.slot.pool then None
                                 else if slot == plan.slot && Passes(s, plan, check) then None
                                 else Find(s.outs, slot))
  {
    var slot, a := plan.slot, Recorded(plan, s.now);
    if Passes(s, plan, check) {
      PutEffect(s.ins, slot.pool, a);
      TakeEffect(Put(s.ins, slot.pool, a), slot);
      TakeEffect(s.outs, slot);
      hide Put, Take, Expired, Consistent, Find;
    } else if TakesOver(s, plan, check, prio) {
      OverwriteEffect(s.ins, slot.pool, a);
      hide Overwrite, Expired, Consistent;
    } else {
      hide Expired, Consistent;
    }
  }

  /**
    What is recorded of a plan, when it is admitted and when it takes over a conflicting entry: its
    own target, direction and epoch, under the key of its slot, and the cycle in 32 bits.
   */
  lemma PlanIsRecorded(s: State, plan: Plan, check: ConfigCheck, placed: bool, prio: Direction -> nat)
    requires Inv(s)
    ensures var before, after := Find(s.ins, plan.slot), Find(Receive(s, plan, check, placed, prio).ins, plan.slot);
            var kept := before.Some? && prio(plan.dir) >= prio(before.value.dir) && plan.dir != before.value.dir;
            && (after.Some? && check == Unchanged && !kept ==>
               && after.value.key == plan.slot.key && after.value.target == plan.target
               && after.value.dir == plan.dir && after.value.epoch == plan.epoch
               && after.value.cycle == s.now % 0x1_0000_0000)
            && (check == DiskMissing || (kept && check == Unchanged) ==> after == before)
            && (before.Some? && check == Unchanged ==> after.Some?) && (check == PoolMissing ==> after.None?)
  {
    ReceiveEffect(s, plan, check, placed, prio);
    hide Receive, Find, AllConsistent, Expired, Blocked;
  }

  lemma CompleteEffect(s: State, slot0: Slot, ok: bool)
    requires Inv(s)
    ensures var t := Complete(s, slot0, ok);
            && AllConsistent(t.ins) && AllConsistent(t.outs) && t.now == s.now
            && (forall slot :: Find(t.ins, slot) == if slot == slot0 then None else Find(s.ins, slot))
            && (forall slot :: Find(t.outs, slot) ==
                                 if slot == slot0 && ok && Find(s.ins, slot0).Some? then Find(s.ins, slot0)
                                 else Find(s.outs, slot))
  {
    if Find(s.ins, slot0).Some? {
      KeyOfSlot(s.ins, slot0);
      TakeEffect(s.ins, slot0);
      PutEffect(s.outs, slot0.pool, Find(s.ins, slot0).value);
      hide Put, Take, Consistent, Find;
    }
  }

  lemma ExpireEffect(s: State, slot0: Slot)
    requires Inv(s)
    ensures var t := Expire(s, slot0);
            && AllConsistent(t.ins) && t.outs == s.outs && t.now == s.now
            && (forall slot :: Find(t.ins, slot) == if slot == slot0 then None else Find(s.ins, slot))
  {
    TakeEffect(s.ins, slot0);
    hide Take, Consistent, Find;
  }

  lemma ResetEffect(s: State, all: bool, pools: set<nat>)
    requires Inv(s)
    ensures var t := Reset(s, all, pools);
            && AllConsistent(t.ins) && AllConsistent(t.outs) && t.now == s.now
            && (forall slot :: Find(t.ins, slot) == if all then None else Find(s.ins, slot))
            && (forall slot :: Find(t.outs, slot) == if all then None else IfUnexpired(Find(s.outs, slot), s.now))
  {
    if !all {
      TidiedEffect(s.ins, pools);
      DiscardEffect(s.outs, s.now);
      TidiedEffect(AllDiscarded(s.outs, s.now), pools);
      hide Tidied, AllDiscarded, Find, Consistent, Expired;
    }
  }

  lemma ReceiveKeeps(s: State, plan: Plan, check: ConfigCheck, placed: bool, prio: Direction -> nat)
    requires Inv(s)
    ensures Inv(Receive(s, plan, check, placed, prio))
  {
    ReceiveEffect(s, plan, check, placed, prio);
    RecordedPast(s.now);
    hide Receive, Find, AllConsistent, Blocked, HigherDirection;
  }

  /**
    Every operation keeps map and list of every index in agreement, IN and OUT apart, and recorded
    cycles in the past.
   */
  lemma ApplyKeeps(s: State, op: Op, prio: Direction -> nat)
    requires Inv(s)
    ensures Inv(Apply(s, op, prio)) && Apply(s, op, prio).now >= s.now
  {
    hide Receive, Complete, Expire, Reset, Find, AllConsistent;
    match op
    case ReceivePlan(plan, check, placed) =>
      ReceiveKeeps(s, plan, check, placed, prio);
      ReceiveEffect(s, plan, check, placed, prio);
    case CompleteOf(slot, ok) =>
      CompleteEffect(s, slot, ok);
    case ExpireOf(slot) =>
      ExpireEffect(s, slot);
    case ResetOf(all, pools) =>
      ResetEffect(s, all, pools);
    case NextCycle =>
  }

  /** A completed migration moves from IN to OUT: there is never an older entry in its way. */
  lemma CompleteMoves(s: State, slot: Slot)
    requires Inv(s) && Find(s.ins, slot).Some?
    ensures var t := Complete(s, slot, true);
            && Find(s.outs, slot).None? && Find(t.outs, slot) == Find(s.ins, slot) && Find(t.ins, slot).None?
            && (forall other :: other != slot ==> Find(t.ins, other) == Find(s.ins, other))
            && (forall other :: other != slot ==> Find(t.outs, other) == Find(s.outs, other))
  {
    CompleteEffect(s, slot, true);
    hide Complete, Find, AllConsistent;
  }

  /**
    A conflicting plan is never admitted; the entry takes over its data exactly if its direction
    has the higher priority or is the same.
   */
  lemma ConflictKeepsHigher(s: State, plan: Plan, placed: bool, prio: Direction -> nat)
    requires Inv(s) && Find(s.ins, plan.slot).Some?
    ensures var t, a := Receive(s, plan, Unchanged, placed, prio), Find(s.ins, plan.slot).value;
            && t.outs == s.outs
            && (forall slot :: slot != plan.slot ==> Find(t.ins, slot) == Find(s.ins, slot))
            && Find(t.ins, plan.slot).Some?
            && var b := Find(t.ins, plan.slot).value;
               && (b == if prio(plan.dir) < prio(a.dir) || plan.dir == a.dir then Recorded(plan, s.now) else a)
               && prio(b.dir) <= prio(plan.dir) && prio(b.dir) <= prio(a.dir)
  {
    ReceiveEffect(s, plan, Unchanged, placed, prio);
    hide Find, AllConsistent, Expired, Overwrite;
  }

  /**
    A plan for a key in OUT is admitted exactly when it is placed and the lease of the completed
    migration has expired.
   */
  lemma AdmittedIff(s: State, plan: Plan, check: ConfigCheck, placed: bool, prio: Direction -> nat)
    requires Inv(s) && s.now < TWO_TO_THE_64 && Find(s.outs, plan.slot).Some?
    ensures var a := Find(s.outs, plan.slot).value;
            Find(Receive(s, plan, check, placed, prio).ins, plan.slot).Some? <==>
            check == Unchanged && placed && s.now > a.cycle + (if a.dir.CtrPromote? || a.dir.CtrDemote? then 2 else 0)
  {
    NoWrap(Find(s.outs, plan.slot).value, s.now);
    ReceiveEffect(s, plan, check, placed, prio);
    hide Find, AllConsistent, Expired, Receive;
  }

  lemma NoWrap(a: Arbitratee, now: nat)
    requires a.cycle <= now < TWO_TO_THE_64
    ensures Expired(a, now) <==> now > a.cycle + LeaseTime(a.dir)
  {
  }

  // Leases over whole runs

  ghost predicate Run(states: seq<State>, ops: seq<Op>, prio: Direction -> nat)
  {
    && |states| == |ops| + 1
    && Inv(states[0])
    && forall i :: 0 <= i < |ops| ==> states[i + 1] == Apply(states[i], ops[i], prio)
  }

  /** The operation forgets the leases of a sub-pool. */
  predicate Forgets(op: Op, pool: nat)
  {
    (op.ReceivePlan? && op.check == PoolMissing && op.plan.slot.pool == pool) || (op.ResetOf? && op.all)
  }

  ghost predicate Leased(s: State, slot: Slot, a: Arbitratee)
  {
    Find(s.outs, slot) == Some(a) && Find(s.ins, slot).None?
  }

  /** Over every run: each key of a sub-pool is once in IN or once in OUT, in the map and in the list alike. */
  lemma {:induction false} RunKeepsInv(states: seq<State>, ops: seq<Op>, prio: Direction -> nat, i: nat)
    requires Run(states, ops, prio) && i < |states|
    ensures Inv(states[i])
  {
    if i > 0 {
      RunKeepsInv(states, ops, prio, i - 1);
      hide Inv, Apply;
      assert states[i - 1 + 1] == Apply(states[i - 1], ops[i - 1], prio);
      ApplyKeeps(states[i - 1], ops[i - 1], prio);
    }
  }

  /** An entry that was not there before records the plan that has just been received for its slot. */
  lemma EntryOfPlan(s: State, op: Op, prio: Direction -> nat, slot: Slot, a: Arbitratee)
    requires Inv(s)
    requires Find(Apply(s, op, prio).ins, slot) == Some(a) || Find(Apply(s, op, prio).outs, slot) == Some(a)
    requires Find(s.ins, slot) != Some(a) && Find(s.outs, slot) != Some(a)
    ensures op.ReceivePlan? && op.check == Unchanged && op.plan.slot == slot
    ensures a == Arbitratee(slot.key, op.plan.target, op.plan.dir, s.now % 0x1_0000_0000, op.plan.epoch)
  {
    match op
    case ReceivePlan(plan, check, placed) =>
      ReceiveEffect(s, plan, check, placed, prio);
      hide Receive, Find, AllConsistent, Expired;
    case CompleteOf(other, ok) =>
      CompleteEffect(s, other, ok);
      hide Complete, Find, AllConsistent;
    case ExpireOf(other) =>
      ExpireEffect(s, other);
      hide Expire, Find, AllConsistent;
    case ResetOf(all, pools) =>
      ResetEffect(s, all, pools);
      hide Reset, Find, AllConsistent, Expired;
    case NextCycle =>
  }

  /**
    Over every run from the start, whatever is in IN or OUT is the record of one plan that was
    received for this slot, with the cycle in which it was received.
   */
  lemma {:induction false} EveryEntryIsAPlan(states: seq<State>, ops: seq<Op>, prio: Direction -> nat,
                                             slot: Slot, a: Arbitratee, i: nat) returns (j: nat)
    requires Run(states, ops, prio) && states[0] == INITIAL && i < |states|
    requires Find(states[i].ins, slot) == Some(a) || Find(states[i].outs, slot) == Some(a)
    ensures j < i && ops[j].ReceivePlan? && ops[j].check == Unchanged && ops[j].plan.slot == slot
    ensures a.key == slot.key && a.target == ops[j].plan.target && a.dir == ops[j].plan.dir
    ensures a.epoch == ops[j].plan.epoch && a.cycle == states[j].now % 0x1_0000_0000
    decreases i
  {
    hide Run, Inv, Apply, Find;
    if i == 0 {
      NothingAtFirst(slot);
      assert false;
    } else {
      StepOfRun(states, ops, prio, i);
      if Find(states[i - 1].ins, slot) == Some(a) || Find(states[i - 1].outs, slot) == Some(a) {
        j := EveryEntryIsAPlan(states, ops, prio, slot, a, i - 1);
      } else {
        EntryOfPlan(states[i - 1], ops[i - 1], prio, slot, a);
        j := i - 1;
      }
    }
  }

  lemma NothingAtFirst(slot: Slot)
    ensures Find(INITIAL.ins, slot).None? && Find(INITIAL.outs, slot).None?
  {
  }

  lemma StepOfRun(states: seq<State>, ops: seq<Op>, prio: Direction -> nat, i: nat)
    requires Run(states, ops, prio) && 0 < i < |states|
    ensures |states| == |ops| + 1 && Inv(states[i - 1]) && states[i] == Apply(states[i - 1], ops[i - 1], prio)
  {
    RunKeepsInv(states, ops, prio, i - 1);
    hide Inv, Apply;
    assert states[i - 1 + 1] == Apply(states[i - 1], ops[i - 1], prio);
  }

  lemma StepKeepsLease(s: State, op: Op, prio: Direction -> nat, slot: Slot, a: Arbitratee)
    requires Inv(s) && Leased(s, slot, a) && !Forgets(op, slot.pool)
    requires s.now <= a.cycle + LeaseTime(a.dir) && s.now < TWO_TO_THE_64
    ensures Leased(Apply(s, op, prio), slot, a)
  {
    NoWrap(a, s.now);
    match op
    case ReceivePlan(plan, check, placed) =>
      ReceiveEffect(s, plan, check, placed, prio);
      hide Receive, Find, AllConsistent, Expired;
    case CompleteOf(other, ok) =>
      CompleteEffect(s, other, ok);
      hide Complete, Find, AllConsistent;
    case ExpireOf(other) =>
      ExpireEffect(s, other);
      hide Expire, Find, AllConsistent;
    case ResetOf(all, pools) =>
      ResetEffect(s, all, pools);
      hide Reset, Find, AllConsistent, Expired;
    case NextCycle =>
  }

  lemma {:induction false} LeaseHolds(states: seq<State>, ops: seq<Op>, prio: Direction -> nat,
                                      slot: Slot, a: Arbitratee, i: nat, j: nat)
    requires Run(states, ops, prio) && i <= j < |states|
    requires Leased(states[i], slot, a)
    requires forall k :: i <= k < j ==> !Forgets(ops[k], slot.pool)
    requires j > i ==> states[j - 1].now <= a.cycle + LeaseTime(a.dir) && states[j - 1].now < TWO_TO_THE_64
    ensures Leased(states[j], slot, a)
    decreases j
  {
    if i < j {
      RunKeepsInv(states, ops, prio, j - 1);
      var s := states[j - 1];
      assert states[j - 1 + 1] == Apply(s, ops[j - 1], prio);
      if i < j - 1 {
        RunKeepsInv(states, ops, prio, j - 2);
        assert states[j - 2 + 1] == Apply(states[j - 2], ops[j - 2], prio);
        ApplyKeeps(states[j - 2], ops[j - 2], prio);
      }
      hide Inv, Apply, Leased;
      LeaseHolds(states, ops, prio, slot, a, i, j - 1);
      StepKeepsLease(s, ops[j - 1], prio, slot, a);
    }
  }

  /**
    The main result, over every run: once a migration recorded in cycle c completes, its key is
    in IN again only if the relative cycle has exceeded c plus the lease of its direction, unless
    the sub-pool disappears or everything is reset in between.
   */
  lemma NotReadmittedWithinLease(states: seq<State>, ops: seq<Op>, prio: Direction -> nat, slot: Slot, i: nat, j: nat)
    requires Run(states, ops, prio) && i < j < |states| && states[j].now < TWO_TO_THE_64
    requires Find(states[i].ins, slot).Some? && ops[i] == CompleteOf(slot, true)
    requires forall k :: i <= k < j ==> !Forgets(ops[k], slot.pool)
    requires Find(states[j].ins, slot).Some?
    ensures var a := Find(states[i].ins, slot).value; states[j].now > a.cycle + LeaseTime(a.dir)
  {
    var a := Find(states[i].ins, slot).value;
    LeasedFromCompletion(states, ops, prio, slot, i);
    TimeGoesOn(states, ops, prio, j - 1);
    hide Run, Inv, Apply, Find, LeaseTime;
    if states[j].now <= a.cycle + LeaseTime(a.dir) {
      LeaseHolds(states, ops, prio, slot, a, i + 1, j);
      assert false;
    }
  }

  lemma LeasedFromCompletion(states: seq<State>, ops: seq<Op>, prio: Direction -> nat, slot: Slot, i: nat)
    requires Run(states, ops, prio) && i < |ops|
    requires Find(states[i].ins, slot).Some? && ops[i] == CompleteOf(slot, true)
    ensures Leased(states[i + 1], slot, Find(states[i].ins, slot).value)
  {
    RunKeepsInv(states, ops, prio, i);
    assert states[i + 1] == Apply(states[i], ops[i], prio);
    CompleteMoves(states[i], slot);
    hide Inv, Find, Complete;
  }

  lemma TimeGoesOn(states: seq<State>, ops: seq<Op>, prio: Direction -> nat, i: nat)
    requires Run(states, ops, prio) && i < |ops|
    ensures states[i].now <= states[i + 1].now
  {
    RunKeepsInv(states, ops, prio, i);
    assert states[i + 1] == Apply(states[i], ops[i], prio);
    hide Inv, Apply;
    ApplyKeeps(states[i], ops[i], prio);
  }

  // What the recorded cycle is

  /** The lease of an arbitratee admitted in cycle t is honoured exactly when t fits in 32 bits. */
  lemma LeaseHonouredIff(plan: Plan, t: nat)
    requires t + CTR_LEASE_TIME < TWO_TO_THE_64
    ensures (forall now: nat :: t <= now <= t + LeaseTime(plan.dir) ==> !Expired(Recorded(plan, t), now)) <==>
            t < TWO_TO_THE_32
  {
    var a := Recorded(plan, t);
    RecordedPast(t);
    if t < TWO_TO_THE_32 {
      forall now: nat | t <= now <= t + LeaseTime(plan.dir) ensures !Expired(a, now) {
        NoWrap(a, now);
      }
    } else {
      NoWrap(a, t);
      assert a.cycle + TWO_TO_THE_32 <= t;
      assert Expired(a, t);
    }
  }

  /** The record is not renewed on completion, so the lease does not run from the completion. */
  lemma CompletionDoesNotStartLease(s: State, slot: Slot, plan: Plan, prio: Direction -> nat)
    requires Inv(s) && Find(s.ins, slot).Some? && plan.slot == slot && s.now < TWO_TO_THE_64
    ensures var a := Find(s.ins, slot).value;
            Find(Receive(Complete(s, slot, true), plan, Unchanged, true, prio).ins, slot).Some? <==>
            s.now > a.cycle + LeaseTime(a.dir)
  {
    CompleteMoves(s, slot);
    CompleteEffect(s, slot, true);
    var t := Complete(s, slot, true);
    ApplyKeeps(s, CompleteOf(slot, true), prio);
    AdmittedIff(t, plan, Unchanged, true, prio);
    hide Receive, Complete, Expired, Find;
  }

  /** A new cycle keeps exactly the unexpired entries of OUT and every entry of IN. */
  lemma NewCycleKeepsUnexpired(s: State, pools: set<nat>, slot: Slot)
    requires Inv(s) && s.now < TWO_TO_THE_64
    ensures var t := Reset(s, false, pools);
            && Find(t.ins, slot) == Find(s.ins, slot)
            && Find(t.outs, slot) == match Find(s.outs, slot)
                                     case Some(a) =>
                                       if s.now <= a.cycle + (if a.dir.CtrPromote? || a.dir.CtrDemote? then 2 else 0)
                                       then Some(a) else None
                                     case None => None
  {
    ResetEffect(s, false, pools);
    if Find(s.outs, slot).Some? {
      NoWrap(Find(s.outs, slot).value, s.now);
    }
    hide Reset, Find, AllConsistent, Expired;
  }

  /**
    A new cycle keeps the order of the lists, and drops exactly the indexes of sub-pools that do
    not exist and have nothing in their list any more.
   */
  lemma NewCycleKeepsOrder(s: State, pools: set<nat>, p: nat)
    requires Inv(s)
    ensures var t := Reset(s, false, pools);
            && (p in t.ins <==> p in s.ins && (s.ins[p].items2 != [] || p in pools))
            && (p in t.ins ==> t.ins[p] == s.ins[p])
            && (p in t.outs <==> p in s.outs && (Unexpired(s.outs[p].items2, s.now) != [] || p in pools))
            && (p in t.outs ==> t.outs[p].items2 == Unexpired(s.outs[p].items2, s.now))
  {
    if p in s.ins {
      EmptyTogether(s.ins[p].items, s.ins[p].items2);
    }
    if p in s.outs {
      var x := Discarded(s.outs[p], s.now);
      DiscardedConsistent(s.outs[p], s.now);
      EmptyTogether(x.items, x.items2);
    }
    hide Unexpired, Expired, Consistent, InPast;
  }
}
