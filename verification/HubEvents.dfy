/**
  The HUB event machine: one queue of events, a second queue for those that must wait
  while object IO is collected, and what both together promise over whole runs.
 */
module HubEvents {
  import opened Common
  import opened ObjectCursor
  import opened CollectIO

  datatype HubStatus = Running | ServingForAST | CollectingIO | Stopping

  datatype Kind =
    | EnableAST | DisableAST | EnableASTEcho(ok: bool) | DisableASTEcho(ok: bool)
    | AddDisk | RemoveDisk | AddOBJ | DeleteOBJ | AccessOBJ
    | CollectConfigView | CollectPrep | CollectNormal | CollectPost
    | Migrate | MigrationCompleted | StopHUB

  /**
    What handling the event leaves behind, where that is not decided here. In synchronous mode a
    request that switches the module waits for the echo and handles it within the same event.
   */
  datatype Effect = Effect(pools: seq<SubPoolView>, it: nat, disabled: bool, echo: Option<bool>)

  datatype Event = Event(id: nat, kind: Kind, effect: Effect)

  /** Events that change the configuration or move the shared cursors. */
  predicate Touches(k: Kind)
  {
    k.AddDisk? || k.RemoveDisk? || k.AddOBJ? || k.DeleteOBJ? || k.CollectConfigView? || k.MigrationCompleted?
  }

  /** The state of the machine and its history. */
  datatype Hub = Hub(
    status: HubStatus, disabled: bool, main: seq<Event>, pending: seq<Event>,
    all: seq<ObjKey>, rest: seq<ObjKey>, total: nat, toBe: nat, already: nat,
    launched: seq<Event>, handled: seq<Event>, sent: seq<Response>)

  /** The configuration can hold no fewer objects than its involved part. */
  ghost predicate Sound(s: Hub) { |s.all| <= s.total }

  predicate ShouldPend(status: HubStatus, e: Event)
  {
    status == CollectingIO && Touches(e.kind)
  }

  function Collect(s: Hub, per: nat): Hub
    requires per > 0
  {
    if Idle(s.already, s.toBe, s.disabled) then
      s.(sent := s.sent + [Response(NoData, Unset, [])])
    else
      var source := if s.already == 0 then s.all else s.rest;
      var n := Taken(source, per);
      s.(rest := source[n..], already := s.already + n, sent := s.sent + [Answer(source, s.already, s.toBe, per)])
  }

  /** An echo to a request to switch the module on. */
  function SwitchOn(s: Hub, ok: bool): Hub
  {
    if ok then s.(disabled := false, status := ServingForAST) else s
  }

  /** An echo to a request to switch it off; a collection or service ends with it. */
  function SwitchOff(s: Hub, ok: bool): Hub
  {
    if !ok then s
    else s.(disabled := true,
            status := if s.status == ServingForAST || s.status == CollectingIO then Running else s.status)
  }

  /** The module is switched off by this event, with or without waiting for the echo. */
  predicate SwitchesOff(e: Event)
  {
    e.kind == DisableASTEcho(true) || (e.kind == DisableAST && e.effect.echo == Some(true))
  }

  function Dispatch(s: Hub, e: Event, involved: set<nat>, per: nat): Hub
    requires per > 0
  {
    match e.kind
    case EnableAST => SwitchOn(s.(disabled := e.effect.disabled), e.effect.echo == Some(true))
    case DisableAST => SwitchOff(s.(disabled := e.effect.disabled), e.effect.echo == Some(true))
    case EnableASTEcho(ok) => SwitchOn(s, ok)
    case DisableASTEcho(ok) => SwitchOff(s, ok)
    case CollectPrep => if s.disabled then s else s.(status := CollectingIO, toBe := s.total, already := 0)
    case CollectNormal => Collect(s, per)
    case CollectPost => s.(status := ServingForAST, main := s.pending + s.main, pending := [])
    case AccessOBJ => s
    case Migrate => s
    case StopHUB => s
    case _ => s.(all := PoolsAll(e.effect.pools, involved), total := Count(e.effect.pools),
                 rest := ViewRest(e.effect.pools, e.effect.it, involved))
  }

  function HandleOne(s: Hub, involved: set<nat>, per: nat): Hub
    requires per > 0 && s.main != []
  {
    var e := s.main[0];
    var popped := s.(main := s.main[1..]);
    if ShouldPend(s.status, e) then popped.(pending := s.pending + [e])
    else Dispatch(popped.(handled := s.handled + [e]), e, involved, per)
  }

  lemma HandlePends(s: Hub, involved: set<nat>, per: nat)
    requires per > 0 && s.main != [] && ShouldPend(s.status, s.main[0])
    ensures HandleOne(s, involved, per) == s.(main := s.main[1..], pending := s.pending + [s.main[0]])
  {
    hide Dispatch;
  }

  lemma HandleDispatches(s: Hub, involved: set<nat>, per: nat)
    requires per > 0 && s.main != [] && !ShouldPend(s.status, s.main[0])
    ensures HandleOne(s, involved, per) ==
            Dispatch(s.(main := s.main[1..], handled := s.handled + [s.main[0]]), s.main[0], involved, per)
  {
    hide Dispatch;
  }

  function LaunchAt(s: Hub, e: Event, front: bool): Hub
  {
    s.(main := if front then [e] + s.main else s.main + [e], launched := s.launched + [e])
  }

  ghost predicate Fresh(s: Hub, e: Event)
  {
    forall x :: x in s.launched ==> x.id != e.id
  }

  /** A launch, one handled event, or another thread asking the HUB to stop. */
  ghost predicate Step(s: Hub, t: Hub, involved: set<nat>, per: nat)
    requires per > 0
  {
    || (exists e, front :: Fresh(s, e) && (front ==> !Touches(e.kind)) && t == LaunchAt(s, e, front))
    || (s.main != [] && t == HandleOne(s, involved, per))
    || t == s.(status := Stopping)
  }

  // Every event exactly once

  ghost predicate Accounted(s: Hub)
  {
    multiset(s.launched) == multiset(s.handled) + multiset(s.pending) + multiset(s.main)
  }

  /** Each launched event is in exactly one place, once: handled, pending or still queued. */
  ghost predicate Once(s: Hub)
  {
    Accounted(s) && forall i, j :: 0 <= i < j < |s.launched| ==> s.launched[i].id != s.launched[j].id
  }

  /**
    What handling does to the queues: the event waits, or it is handled and the others stay, or it
    empties the waiting queue.
   */
  lemma QueuesAfter(s: Hub, involved: set<nat>, per: nat)
    requires per > 0 && s.main != []
    ensures var e, t := s.main[0], HandleOne(s, involved, per);
            && t.launched == s.launched
            && (ShouldPend(s.status, e) ==>
               t.handled == s.handled && t.pending == s.pending + [e] && t.main == s.main[1..])
            && (!ShouldPend(s.status, e) ==> t.handled == s.handled + [e])
            && (!ShouldPend(s.status, e) && e.kind != CollectPost ==> t.pending == s.pending && t.main == s.main[1..])
            && (!ShouldPend(s.status, e) && e.kind == CollectPost ==>
               t.pending == [] && t.main == s.pending + s.main[1..])
  {
    hide PoolsAll, ViewRest, Count, Answer, Taken;
  }

  /**
    Which events wait: while object IO is collected the six kinds that change the configuration or
    move the shared cursors, and no other. The post event leaves nothing waiting: what waited comes
    back in front of what is queued.
   */
  lemma WaitsIff(s: Hub, involved: set<nat>, per: nat)
    requires per > 0 && s.main != []
    ensures var e, t := s.main[0], HandleOne(s, involved, per);
            var waits := s.status == CollectingIO &&
                         (e.kind.AddDisk? || e.kind.RemoveDisk? || e.kind.AddOBJ? || e.kind.DeleteOBJ? ||
                          e.kind.CollectConfigView? || e.kind.MigrationCompleted?);
            && (waits ==> t == s.(main := s.main[1..], pending := s.pending + [e]))
            && (!waits ==> t.handled == s.handled + [e])
            && (!waits && e.kind != CollectPost ==> t.pending == s.pending && t.main == s.main[1..])
            && (e.kind == CollectPost ==>
               t == s.(main := s.pending + s.main[1..], pending := [], status := ServingForAST,
                       handled := s.handled + [e]))
  {
    hide PoolsAll, ViewRest, Count, Answer, Taken;
  }

  /** The machine is told that the module has been switched, by an echo or within the same event. */
  predicate Switched(e: Event)
  {
    || e.kind == EnableASTEcho(true) || e.kind == DisableASTEcho(true)
    || ((e.kind == EnableAST || e.kind == DisableAST) && e.effect.echo == Some(true))
  }

  /**
    A collection begins only with its preparation while the module is on, and ends only with the
    post event or when the module is switched.
   */
  lemma CollectingIff(s: Hub, involved: set<nat>, per: nat)
    requires per > 0 && s.main != []
    ensures var e, t := s.main[0], HandleOne(s, involved, per);
            && (s.status != CollectingIO ==>
               (t.status == CollectingIO <==> e.kind == CollectPrep && !s.disabled))
            && (s.status == CollectingIO ==> (t.status != CollectingIO <==> e.kind == CollectPost || Switched(e)))
            && (e.kind == CollectPrep && !s.disabled ==> t.toBe == s.total && t.already == 0)
            && (e.kind == CollectPrep && s.disabled ==>
               t == s.(main := s.main[1..], handled := s.handled + [e]))
  {
    hide PoolsAll, ViewRest, Count, Answer, Taken;
  }

  /**
    What a switch leaves behind: after it is done the module serves or is idle; a request alone
    only changes whether the module is off.
   */
  lemma SwitchMeans(s: Hub, involved: set<nat>, per: nat)
    requires per > 0 && s.main != []
    ensures var e, t := s.main[0], HandleOne(s, involved, per);
            var on := e.kind == EnableASTEcho(true) || (e.kind == EnableAST && e.effect.echo == Some(true));
            var off := e.kind == DisableASTEcho(true) || (e.kind == DisableAST && e.effect.echo == Some(true));
            var asked := (e.kind == EnableAST || e.kind == DisableAST) && e.effect.echo != Some(true);
            && (on ==> t.status == ServingForAST && !t.disabled)
            && (off ==> t.disabled && t.status == if s.status == Stopping then Stopping else Running)
            && (asked ==> t.status == s.status && t.disabled == e.effect.disabled)
            && (!on && !off && !asked ==> t.disabled == s.disabled)
            && (e.kind == EnableASTEcho(false) || e.kind == DisableASTEcho(false) ==>
               t == s.(main := s.main[1..], handled := s.handled + [e]))
  {
    hide PoolsAll, ViewRest, Count, Answer, Taken;
  }

  /**
    What the events leave alone: the configuration and the cursor change with the six kinds when
    they are handled, the target of a collection with its preparation, and only a batch moves the
    cursor on and sends.
   */
  lemma WhatChanges(s: Hub, involved: set<nat>, per: nat)
    requires per > 0 && s.main != []
    ensures var e, t := s.main[0], HandleOne(s, involved, per);
            var configures := s.status != CollectingIO &&
                              e.kind in {AddDisk, RemoveDisk, AddOBJ, DeleteOBJ, CollectConfigView, MigrationCompleted};
            && (configures ==>
               && t.all == PoolsAll(e.effect.pools, involved)
                  && t.rest == ViewRest(e.effect.pools, e.effect.it, involved)
               && t.total == Count(e.effect.pools))
            && (!configures ==> t.all == s.all && t.total == s.total)
            && (!configures && e.kind != CollectNormal ==> t.rest == s.rest)
            && (e.kind != CollectPrep ==> t.toBe == s.toBe)
            && (e.kind != CollectPrep && e.kind != CollectNormal ==> t.already == s.already)
            && (e.kind != CollectNormal ==> t.sent == s.sent)
  {
    hide PoolsAll, ViewRest, Count, Answer, Taken;
  }

  /** A batch sends exactly one answer and counts what is in it, and leaves the rest of the configuration alone. */
  lemma BatchCounts(s: Hub, involved: set<nat>, per: nat)
    requires per > 0 && s.main != [] && s.main[0].kind == CollectNormal
    ensures var t := HandleOne(s, involved, per);
            && t.all == s.all && t.total == s.total && t.toBe == s.toBe
            && |t.sent| == |s.sent| + 1 && t.sent[..|s.sent|] == s.sent
            && t.already == s.already + |Concat(t.sent[|s.sent|].fragments)|
  {
    hide PoolsAll, ViewRest, Count, Concat, Collect;
    CollectCounts(s.(main := s.main[1..], handled := s.handled + [s.main[0]]), per);
  }

  lemma CollectCounts(s: Hub, per: nat)
    requires per > 0
    ensures var t := Collect(s, per);
            && t.all == s.all && t.total == s.total && t.toBe == s.toBe
            && |t.sent| == |s.sent| + 1 && t.sent[..|s.sent|] == s.sent
            && t.already == s.already + |Concat(t.sent[|s.sent|].fragments)|
  {
    AnswerMeans(if s.already == 0 then s.all else s.rest, s.already, s.toBe, per);
    hide Chunks, Taken;
  }

  /** Only the six kinds ever wait. */
  ghost predicate WaitingOnlyConfiguration(s: Hub)
  {
    forall e :: e in s.pending ==>
      e.kind in {AddDisk, RemoveDisk, AddOBJ, DeleteOBJ, CollectConfigView, MigrationCompleted}
  }

  lemma StepKeepsWaitingKinds(s: Hub, t: Hub, involved: set<nat>, per: nat)
    requires per > 0 && Step(s, t, involved, per) && WaitingOnlyConfiguration(s)
    ensures WaitingOnlyConfiguration(t)
  {
    hide HandleOne, ShouldPend;
    if s.main != [] && t == HandleOne(s, involved, per) {
      WaitsIff(s, involved, per);
    }
  }

  /** Over every run no event of another kind ever waits. */
  lemma {:induction false} RunWaitsOnlyConfiguration(states: seq<Hub>, involved: set<nat>, per: nat, i: nat)
    requires per > 0 && i < |states| && Run(states, involved, per) && Initial(states[0])
    ensures WaitingOnlyConfiguration(states[i])
  {
    if i > 0 {
      RunWaitsOnlyConfiguration(states, involved, per, i - 1);
      hide Step, WaitingOnlyConfiguration;
      assert Step(states[i - 1], states[i - 1 + 1], involved, per);
      StepKeepsWaitingKinds(states[i - 1], states[i], involved, per);
    }
  }

  /** The head of a queue may move to another place, and a waiting queue may join it: nothing is lost. */
  lemma MoveAccount(h: seq<Event>, p: seq<Event>, m: seq<Event>)
    requires m != []
    ensures multiset(h + [m[0]]) + multiset(p) + multiset(m[1..]) == multiset(h) + multiset(p) + multiset(m)
    ensures multiset(h) + multiset(p + [m[0]]) + multiset(m[1..]) == multiset(h) + multiset(p) + multiset(m)
    ensures multiset(h + [m[0]]) + multiset(p + m[1..]) == multiset(h) + multiset(p) + multiset(m)
  {
    assert m == [m[0]] + m[1..];
  }

  lemma HandleKeepsAccount(s: Hub, involved: set<nat>, per: nat)
    requires per > 0 && Accounted(s) && s.main != []
    ensures Accounted(HandleOne(s, involved, per))
  {
    QueuesAfter(s, involved, per);
    hide HandleOne;
    MoveAccount(s.handled, s.pending, s.main);
  }

  lemma LaunchKeepsOnce(s: Hub, e: Event, front: bool)
    requires Once(s) && Fresh(s, e)
    ensures Once(LaunchAt(s, e, front))
  {
  }

  lemma HandleKeepsOnce(s: Hub, involved: set<nat>, per: nat)
    requires per > 0 && Once(s) && s.main != []
    ensures Once(HandleOne(s, involved, per))
  {
    HandleKeepsAccount(s, involved, per);
    QueuesAfter(s, involved, per);
    hide HandleOne, Accounted, ShouldPend;
  }

  lemma StepKeepsOnce(s: Hub, t: Hub, involved: set<nat>, per: nat)
    requires per > 0 && Once(s) && Step(s, t, involved, per)
    ensures Once(t)
  {
    if e, front :| Fresh(s, e) && (front ==> !Touches(e.kind)) && t == LaunchAt(s, e, front) {
      hide HandleOne, Once;
      LaunchKeepsOnce(s, e, front);
    } else if s.main != [] && t == HandleOne(s, involved, per) {
      hide HandleOne, Once;
      HandleKeepsOnce(s, involved, per);
    }
  }

  // Order of the configuration events

  function Cfg(es: seq<Event>): seq<Event>
  {
    if es == [] then []
    else
      var n := |es| - 1;
      Cfg(es[..n]) + if Touches(es[n].kind) then [es[n]] else []
  }

  lemma CfgSnoc(es: seq<Event>, e: Event)
    ensures Cfg(es + [e]) == Cfg(es) + if Touches(e.kind) then [e] else []
  {
    assert (es + [e])[..|es|] == es;
  }

  lemma {:induction false} CfgConcat(a: seq<Event>, b: seq<Event>)
    ensures Cfg(a + b) == Cfg(a) + Cfg(b)
  {
    if b == [] {
      assert a + b == a;
    } else {
      var n := |b| - 1;
      CfgConcat(a, b[..n]);
      CfgSnoc(a + b[..n], b[n]);
      assert a + b == (a + b[..n]) + [b[n]];
      Associative(Cfg(a), Cfg(b[..n]), if Touches(b[n].kind) then [b[n]] else []);
    }
  }

  /** Handled, waiting and queued configuration events, read in that order, are the launched ones in launch order. */
  ghost predicate InOrder(s: Hub)
  {
    Cfg(s.launched) == Cfg(s.handled) + Cfg(s.pending) + Cfg(s.main)
  }

  lemma CfgOne(e: Event)
    ensures Cfg([e]) == if Touches(e.kind) then [e] else []
  {
    CfgSnoc([], e);
    assert [] + [e] == [e];
  }

  /** A configuration event that overtakes the waiting ones. */
  predicate Overtakes(s: Hub)
    requires s.main != []
  {
    Touches(s.main[0].kind) && s.status != CollectingIO && Cfg(s.pending) != []
  }

  lemma HandleSplitsMain(s: Hub)
    requires s.main != []
    ensures Cfg(s.main) == (if Touches(s.main[0].kind) then [s.main[0]] else []) + Cfg(s.main[1..])
  {
    hide Cfg;
    CfgConcat([s.main[0]], s.main[1..]);
    CfgOne(s.main[0]);
    assert s.main == [s.main[0]] + s.main[1..];
  }

  /** The head of the queue joins the end of the waiting part: the whole reads the same. */
  lemma MoveToPending<T>(h: seq<T>, p: seq<T>, one: seq<T>, m: seq<T>)
    ensures h + p + (one + m) == h + (p + one) + m
  {
  }

  lemma Drain<T>(h: seq<T>, p: seq<T>, m: seq<T>)
    ensures h + p + ([] + m) == (h + []) + [] + (p + m)
  {
  }

  lemma NothingMoves<T>(h: seq<T>, p: seq<T>, m: seq<T>)
    ensures h + p + ([] + m) == (h + []) + p + m
  {
  }

  /** The head of the queue is handled: the whole reads the same just when nothing waits. */
  lemma MoveToHandled<T>(h: seq<T>, p: seq<T>, e: T, m: seq<T>)
    requires p != [] ==> p[0] != e
    ensures p == [] <==> h + p + ([e] + m) == (h + [e]) + p + m
  {
    if p != [] {
      assert (h + p + ([e] + m))[|h|] == p[0];
      assert ((h + [e]) + p + m)[|h|] == e;
    }
  }

  lemma {:induction false} CfgMember(es: seq<Event>, e: Event)
    requires e in Cfg(es)
    ensures e in es
  {
    var n := |es| - 1;
    if e in Cfg(es[..n]) {
      CfgMember(es[..n], e);
    }
  }

  lemma {:induction false} FoundTwice(es: seq<Event>, e: Event)
    requires multiset(es)[e] >= 2
    ensures exists i, j :: 0 <= i < j < |es| && es[i] == e && es[j] == e
  {
    var n := |es| - 1;
    assert es == es[..n] + [es[n]];
    if es[n] == e {
      assert e in multiset(es[..n]);
      var i :| 0 <= i < n && es[..n][i] == e;
      assert es[i] == e && es[n] == e;
    } else {
      FoundTwice(es[..n], e);
      var i, j :| 0 <= i < j < n && es[..n][i] == e && es[..n][j] == e;
      assert es[i] == e && es[j] == e;
    }
  }

  /** An event that is queued is not also waiting. */
  lemma QueuedNotPending(s: Hub, e: Event)
    requires Once(s) && e in s.pending
    ensures e !in s.main
  {
    if e in s.main {
      assert e in multiset(s.pending) && e in multiset(s.main);
      assert multiset(s.launched)[e] >= 2;
      FoundTwice(s.launched, e);
      assert false;
    }
  }

  /** Exactly when order is kept: a handled event keeps it if and only if it does not overtake a waiting one. */
  lemma HandleKeepsOrderIff(s: Hub, involved: set<nat>, per: nat)
    requires per > 0 && Once(s) && InOrder(s) && s.main != []
    ensures InOrder(HandleOne(s, involved, per)) <==> !Overtakes(s)
  {
    QueuesAfter(s, involved, per);
    hide HandleOne, Cfg, Once;
    var e := s.main[0];
    HandleSplitsMain(s);
    CfgNone();
    if ShouldPend(s.status, e) {
      CfgSnoc(s.pending, e);
      MoveToPending(Cfg(s.handled), Cfg(s.pending), [e], Cfg(s.main[1..]));
    } else if e.kind == CollectPost {
      CfgSnoc(s.handled, e);
      CfgConcat(s.pending, s.main[1..]);
      Drain(Cfg(s.handled), Cfg(s.pending), Cfg(s.main[1..]));
    } else if !Touches(e.kind) {
      CfgSnoc(s.handled, e);
      NothingMoves(Cfg(s.handled), Cfg(s.pending), Cfg(s.main[1..]));
    } else {
      CfgSnoc(s.handled, e);
      if Cfg(s.pending) != [] {
        WaitingHeadDiffers(s, e);
      }
      MoveToHandled(Cfg(s.handled), Cfg(s.pending), e, Cfg(s.main[1..]));
    }
  }

  lemma WaitingHeadDiffers(s: Hub, e: Event)
    requires Once(s) && e in s.main && Cfg(s.pending) != []
    ensures Cfg(s.pending)[0] != e
  {
    hide Cfg, Once;
    var p := Cfg(s.pending)[0];
    CfgMember(s.pending, p);
    QueuedNotPending(s, p);
  }

  lemma CfgNone()
    ensures Cfg([]) == []
  {
  }

  ghost predicate Run(states: seq<Hub>, involved: set<nat>, per: nat)
    requires per > 0
  {
    forall i :: 0 <= i < |states| - 1 ==> Step(states[i], states[i + 1], involved, per)
  }

  ghost predicate Initial(s: Hub)
  {
    s.main == s.pending == s.launched == s.handled == [] && s.sent == [] && s.status != CollectingIO
  }

  /** The step ends a collection other than by handling the post event, which empties the waiting queue. */
  ghost predicate LeavesEarly(s: Hub, t: Hub)
  {
    && s.status == CollectingIO && t.status != CollectingIO
    && !(s.main != [] && s.main[0].kind == CollectPost && t.pending == [])
  }

  ghost predicate LeavesByPost(states: seq<Hub>)
  {
    forall i :: 0 <= i < |states| - 1 ==> !LeavesEarly(states[i], states[i + 1])
  }

  ghost predicate WaitsOnlyWhileCollecting(s: Hub)
  {
    s.pending != [] ==> s.status == CollectingIO
  }

  lemma LaunchKeepsOrder(s: Hub, e: Event, front: bool)
    requires InOrder(s) && (front ==> !Touches(e.kind))
    ensures InOrder(LaunchAt(s, e, front))
  {
    hide Cfg;
    CfgSnoc(s.launched, e);
    CfgSnoc(s.main, e);
    CfgConcat([e], s.main);
    CfgOne(e);
  }

  lemma HandleKeepsWaiting(s: Hub, involved: set<nat>, per: nat)
    requires per > 0 && s.main != [] && !LeavesEarly(s, HandleOne(s, involved, per)) && WaitsOnlyWhileCollecting(s)
    ensures WaitsOnlyWhileCollecting(HandleOne(s, involved, per))
  {
    QueuesAfter(s, involved, per);
    hide PoolsAll, ViewRest, Count, Answer, Taken;
  }

  lemma OrderlyStep(s: Hub, t: Hub, involved: set<nat>, per: nat)
    requires per > 0 && Step(s, t, involved, per) && !LeavesEarly(s, t)
    requires Once(s) && InOrder(s) && WaitsOnlyWhileCollecting(s)
    ensures Once(t) && InOrder(t) && WaitsOnlyWhileCollecting(t)
  {
    hide HandleOne, Cfg, Once;
    StepKeepsOnce(s, t, involved, per);
    CfgNone();
    if e, front :| Fresh(s, e) && (front ==> !Touches(e.kind)) && t == LaunchAt(s, e, front) {
      LaunchKeepsOrder(s, e, front);
    } else if s.main != [] && t == HandleOne(s, involved, per) {
      HandleKeepsOrderIff(s, involved, per);
      HandleKeepsWaiting(s, involved, per);
    }
  }

  /**
    In every run that leaves collecting only by the post event, every launched event is in
    exactly one place and the configuration events are handled in the order of their launch,
    although they pass through two queues.
   */
  lemma {:induction false} RunKeepsOrder(states: seq<Hub>, involved: set<nat>, per: nat, i: nat)
    requires per > 0 && i < |states| && Run(states, involved, per) && Initial(states[0]) && LeavesByPost(states)
    ensures Once(states[i]) && InOrder(states[i]) && WaitsOnlyWhileCollecting(states[i])
    ensures Cfg(states[i].handled) <= Cfg(states[i].launched)
  {
    if i > 0 {
      RunKeepsOrder(states, involved, per, i - 1);
      OrderlyStep(states[i - 1], states[i], involved, per);
    }
    var s := states[i];
    Associative(Cfg(s.handled), Cfg(s.pending), Cfg(s.main));
  }

  lemma PendsThenEnds(s: Hub, involved: set<nat>, per: nat, a: Event, b: Event, echo: Event)
    requires per > 0 && s.status == CollectingIO && s.pending == [] && s.main == [a, echo, b]
    requires Touches(a.kind) && SwitchesOff(echo)
    ensures HandleOne(s, involved, per) == s.(main := [echo, b], pending := [a])
    ensures var t := HandleOne(HandleOne(s, involved, per), involved, per);
            t.main == [b] && t.pending == [a] && t.status == Running
  {
    hide PoolsAll, ViewRest, Count, Collect;
    HandlePends(s, involved, per);
    var s1 := HandleOne(s, involved, per);
    assert s1 == s.(main := [echo, b], pending := [a]);
    HandleDispatches(s1, involved, per);
    hide HandleOne;
  }

  /** The step handles a configuration event past a waiting one. */
  ghost predicate OvertakingStep(s: Hub, t: Hub, involved: set<nat>, per: nat)
    requires per > 0
  {
    s.main != [] && t == HandleOne(s, involved, per) && Overtakes(s)
  }

  lemma StepKeepsOrderIff(s: Hub, t: Hub, involved: set<nat>, per: nat)
    requires per > 0 && Step(s, t, involved, per) && Once(s) && InOrder(s)
    ensures InOrder(t) <==> !OvertakingStep(s, t, involved, per)
  {
    hide Cfg, Once, Overtakes;
    if s.main != [] && t == HandleOne(s, involved, per) {
      hide HandleOne;
      HandleKeepsOrderIff(s, involved, per);
    } else if e, front :| Fresh(s, e) && (front ==> !Touches(e.kind)) && t == LaunchAt(s, e, front) {
      hide HandleOne;
      LaunchKeepsOrder(s, e, front);
    }
  }

  /**
    Over every run at all, the order is kept throughout if and only if no configuration event
    overtakes a waiting one.
   */
  lemma RunKeepsOrderIff(states: seq<Hub>, involved: set<nat>, per: nat)
    requires per > 0 && states != [] && Run(states, involved, per) && Initial(states[0])
    ensures (forall i :: 0 <= i < |states| ==> InOrder(states[i])) <==>
            (forall i :: 0 <= i < |states| - 1 ==> !OvertakingStep(states[i], states[i + 1], involved, per))
  {
    hide Once, InOrder, OvertakingStep;
    if forall i :: 0 <= i < |states| - 1 ==> !OvertakingStep(states[i], states[i + 1], involved, per) {
      forall i | 0 <= i < |states| ensures InOrder(states[i]) {
        NoneOvertakes(states, involved, per, i);
      }
    } else {
      var i :| 0 <= i < |states| - 1 && OvertakingStep(states[i], states[i + 1], involved, per);
      RunKeepsOnce(states, involved, per, i);
      assert Step(states[i], states[i + 1], involved, per);
      hide Run, Step;
      if InOrder(states[i]) {
        StepKeepsOrderIff(states[i], states[i + 1], involved, per);
      }
    }
  }

  lemma {:induction false} RunKeepsOnce(states: seq<Hub>, involved: set<nat>, per: nat, i: nat)
    requires per > 0 && i < |states| && Run(states, involved, per) && Initial(states[0])
    ensures Once(states[i])
  {
    if i > 0 {
      RunKeepsOnce(states, involved, per, i - 1);
      hide Once, Step;
      assert Step(states[i - 1], states[i - 1 + 1], involved, per);
      StepKeepsOnce(states[i - 1], states[i], involved, per);
    }
  }

  lemma {:induction false} NoneOvertakes(states: seq<Hub>, involved: set<nat>, per: nat, i: nat)
    requires per > 0 && i < |states| && Run(states, involved, per) && Initial(states[0])
    requires forall j :: 0 <= j < |states| - 1 ==> !OvertakingStep(states[j], states[j + 1], involved, per)
    ensures InOrder(states[i])
  {
    if i == 0 {
      CfgNone();
    } else {
      NoneOvertakes(states, involved, per, i - 1);
      RunKeepsOnce(states, involved, per, i - 1);
      hide Once, InOrder, OvertakingStep, Step;
      assert Step(states[i - 1], states[i - 1 + 1], involved, per);
      assert !OvertakingStep(states[i - 1], states[i - 1 + 1], involved, per);
      StepKeepsOrderIff(states[i - 1], states[i], involved, per);
    }
  }

  /** An echo that ends the collection lets a later event overtake a waiting one. */
  lemma EchoOvertakes(s: Hub, involved: set<nat>, per: nat, a: Event, b: Event, echo: Event)
    requires per > 0 && Once(s) && InOrder(s)
    requires s.status == CollectingIO && s.pending == []
    requires Touches(a.kind) && Touches(b.kind) && SwitchesOff(echo)
    requires s.main == [a, echo, b]
    ensures var t := HandleOne(HandleOne(s, involved, per), involved, per);
            t.main == [b] && InOrder(t) && !InOrder(HandleOne(t, involved, per))
  {
    hide Cfg, Once, InOrder;
    PendsThenEnds(s, involved, per, a, b, echo);
    hide HandleOne;
    var s1 := HandleOne(s, involved, per);
    var t := HandleOne(s1, involved, per);
    KeepsOnceTwice(s, involved, per);
    HandleKeepsOrderIff(s, involved, per);
    HandleKeepsOrderIff(s1, involved, per);
    CfgOne(a);
    CfgNone();
    HandleKeepsOrderIff(t, involved, per);
  }

  lemma InOrderBeforeEcho(es: seq<Event>, s: Hub)
    requires |es| >= 2 && DifferentIds(es)
    requires s.launched == es && s.handled == [es[0], es[1]] && s.pending == [] && s.main == es[2..]
    ensures Once(s) && InOrder(s)
  {
    hide Cfg;
    assert es == s.handled + s.main;
    CfgConcat(s.handled, s.main);
    CfgNone();
    assert Cfg(s.handled) + Cfg(s.pending) == Cfg(s.handled);
    assert multiset(s.pending) == multiset{};
  }

  const START := Hub(Running, true, [], [], [], [], 0, 0, 0, [], [], [])

  /** The state in which the events have been launched, all at the back. */
  function LaunchedAll(s: Hub, es: seq<Event>): Hub
  {
    if es == [] then s else LaunchAt(LaunchedAll(s, es[..|es| - 1]), es[|es| - 1], false)
  }

  lemma {:induction false} LaunchedQueue(s: Hub, es: seq<Event>)
    ensures LaunchedAll(s, es) == s.(main := s.main + es, launched := s.launched + es)
  {
    if es != [] {
      var n := |es| - 1;
      LaunchedQueue(s, es[..n]);
      assert es == es[..n] + [es[n]];
      Associative(s.main, es[..n], [es[n]]);
      Associative(s.launched, es[..n], [es[n]]);
    }
  }

  ghost predicate DifferentIds(es: seq<Event>)
  {
    forall i, j :: 0 <= i < j < |es| ==> es[i].id != es[j].id
  }

  /** The states while events are launched one after the other. */
  function Launching(s: Hub, es: seq<Event>): (states: seq<Hub>)
    ensures |states| == |es| + 1 && states[0] == s && states[|es|] == LaunchedAll(s, es)
  {
    if es == [] then [s] else Launching(s, es[..|es| - 1]) + [LaunchedAll(s, es)]
  }

  lemma {:induction false} LaunchingIsRun(s: Hub, es: seq<Event>, involved: set<nat>, per: nat)
    requires per > 0 && s.launched == [] && DifferentIds(es)
    ensures Run(Launching(s, es), involved, per)
  {
    if es != [] {
      var n := |es| - 1;
      LaunchingIsRun(s, es[..n], involved, per);
      LaunchedQueue(s, es[..n]);
      var t := LaunchedAll(s, es[..n]);
      assert Fresh(t, es[n]);
      hide HandleOne, Fresh;
      assert Step(t, LaunchAt(t, es[n], false), involved, per);
    }
  }

  lemma RunThenHandle(states: seq<Hub>, involved: set<nat>, per: nat) returns (more: seq<Hub>)
    requires per > 0 && states != [] && Run(states, involved, per) && states[|states| - 1].main != []
    ensures more == states + [HandleOne(states[|states| - 1], involved, per)] && Run(more, involved, per)
  {
    hide HandleOne, Fresh, LaunchAt;
    var s := states[|states| - 1];
    more := states + [HandleOne(s, involved, per)];
    assert Step(s, more[|states|], involved, per);
  }

  ghost predicate Ending(es: seq<Event>)
  {
    && |es| == 5 && DifferentIds(es)
    && es[0].kind == EnableASTEcho(true) && es[1].kind == CollectPrep
    && Touches(es[2].kind) && SwitchesOff(es[3]) && Touches(es[4].kind)
  }

  /** After n of the five events: the third one waits, and goes on waiting when the fourth has ended the collection. */
  ghost function Stage(es: seq<Event>, n: nat): Hub
    requires Ending(es) && n <= 4
  {
    Hub(if n == 0 || n == 4 then Running else if n == 1 then ServingForAST else CollectingIO, n == 0 || n == 4,
        es[n..], if n >= 3 then [es[2]] else [], [], [], 0, 0, 0,
        es, if n <= 2 then es[..n] else if n == 3 then es[..2] else [es[0], es[1], es[3]], [])
  }

  lemma Stages(es: seq<Event>, involved: set<nat>, per: nat)
    requires per > 0 && Ending(es)
    ensures forall n :: 0 <= n < 4 ==> HandleOne(Stage(es, n), involved, per) == Stage(es, n + 1)
    ensures var t := HandleOne(Stage(es, 4), involved, per);
            t.launched == es && t.handled == [es[0], es[1], es[3], es[4]] && t.pending == [es[2]]
    ensures Stage(es, 2).main == [es[2], es[3], es[4]]
  {
    hide Count, PoolsAll, ViewRest, Answer;
    forall n | 0 <= n < 4 ensures HandleOne(Stage(es, n), involved, per) == Stage(es, n + 1) {
      StageStep(es, n, involved, per);
    }
  }

  lemma StageStep(es: seq<Event>, n: nat, involved: set<nat>, per: nat)
    requires per > 0 && Ending(es) && n < 4
    ensures HandleOne(Stage(es, n), involved, per) == Stage(es, n + 1)
  {
    hide Count, PoolsAll, ViewRest, Collect;
    var s := Stage(es, n);
    assert es[n..][1..] == es[n + 1..] && s.main[0] == es[n];
    assert es[..n] + [es[n]] == es[..n + 1];
    if n == 2 {
      HandlePends(s, involved, per);
    } else {
      HandleDispatches(s, involved, per);
    }
    hide HandleOne;
  }

  lemma StagesStart(es: seq<Event>, involved: set<nat>, per: nat) returns (states: seq<Hub>)
    requires per > 0 && Ending(es)
    ensures |states| == 6 && Initial(states[0]) && Run(states, involved, per) && states[5] == Stage(es, 0)
  {
    LaunchingIsRun(START, es, involved, per);
    LaunchedQueue(START, es);
    states := Launching(START, es);
    assert START.main + es == es && START.launched + es == es;
  }

  lemma {:induction false} StagesRun(es: seq<Event>, involved: set<nat>, per: nat, n: nat) returns (states: seq<Hub>)
    requires per > 0 && Ending(es) && n <= 4
    ensures |states| == 6 + n && Initial(states[0]) && Run(states, involved, per)
    ensures forall k :: 0 <= k <= n ==> states[5 + k] == Stage(es, k)
  {
    if n == 0 {
      states := StagesStart(es, involved, per);
    } else {
      var before := StagesRun(es, involved, per, n - 1);
      StageStep(es, n - 1, involved, per);
      assert Stage(es, n - 1).main != [];
      hide HandleOne, Run, Initial, Stage, Ending;
      assert before[5 + (n - 1)] == Stage(es, n - 1);
      states := RunThenHandle(before, involved, per);
    }
  }

  lemma LastOvertakes(es: seq<Event>, involved: set<nat>, per: nat)
    requires per > 0 && Ending(es)
    ensures LeavesEarly(Stage(es, 3), Stage(es, 4)) && InOrder(Stage(es, 4)) && Stage(es, 4).main != []
    ensures var t := HandleOne(Stage(es, 4), involved, per);
            !InOrder(t) && t.launched == es && t.handled == [es[0], es[1], es[3], es[4]] && t.pending == [es[2]]
  {
    Stages(es, involved, per);
    InOrderBeforeEcho(es, Stage(es, 2));
    hide HandleOne, Once, InOrder, DifferentIds;
    assert HandleOne(Stage(es, 2), involved, per) == Stage(es, 3);
    assert HandleOne(Stage(es, 3), involved, per) == Stage(es, 4);
    EchoOvertakes(Stage(es, 2), involved, per, es[2], es[4], es[3]);
  }

  /**
    The assumption of RunKeepsOrder is needed: a run from the start in which five events are
    launched and handled, and the last one overtakes the third because the fourth, an echo that
    switches the module off, ends the collection.
   */
  lemma EchoBreaksOrder(es: seq<Event>, involved: set<nat>, per: nat) returns (states: seq<Hub>)
    requires per > 0 && Ending(es)
    ensures |states| == 11 && Initial(states[0]) && Run(states, involved, per)
    ensures states[10].launched == es && states[10].pending == [es[2]]
    ensures states[10].handled == [es[0], es[1], es[3], es[4]]
    ensures InOrder(states[9]) && !InOrder(states[10])
    ensures LeavesEarly(states[8], states[9])
  {
    LastOvertakes(es, involved, per);
    hide HandleOne, Run, Once, InOrder, Initial, Stage, LeavesEarly, Ending;
    var before := StagesRun(es, involved, per, 4);
    assert before[5 + 3] == Stage(es, 3) && before[5 + 4] == Stage(es, 4);
    states := RunThenHandle(before, involved, per);
  }

  lemma KeepsOnceTwice(s: Hub, involved: set<nat>, per: nat)
    requires per > 0 && Once(s) && s.main != [] && HandleOne(s, involved, per).main != []
    ensures Once(HandleOne(s, involved, per))
    ensures Once(HandleOne(HandleOne(s, involved, per), involved, per))
  {
    var t := HandleOne(s, involved, per);
    hide HandleOne, Once;
    StepKeepsOnce(s, t, involved, per);
    StepKeepsOnce(t, HandleOne(t, involved, per), involved, per);
  }
}
