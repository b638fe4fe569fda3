/**
  The loop of the HUB over its two queues, in place, with the reference count of every event.
 */
module HubLoop {
  import opened Common
  import opened ObjectCursor
  import opened CollectIO
  import opened HubEvents
  import opened HubCollection

  function Reversed(s: seq<Event>): (r: seq<Event>)
    ensures |r| == |s| && forall i :: 0 <= i < |s| ==> r[i] == s[|s| - 1 - i]
  {
    if s == [] then [] else [s[|s| - 1]] + Reversed(s[..|s| - 1])
  }

  class HUB {
    const per: nat
    var status: HubStatus
    var disabled: bool
    var mainQueue: seq<Event>
    var pendingQueue: seq<Event>
    /** How many references each event has; an event with none is freed. */
    var refs: multiset<Event>
    /** The configuration with its shared cursor, and the collection that reads it. */
    const view: ConfigView
    const collector: Collector
    ghost var launched: seq<Event>
    ghost var handled: seq<Event>
    ghost var sent: seq<Response>

    constructor (per: nat)
      ensures this.per == per && Valid() && Counted() && fresh(view) && fresh(collector)
      ensures forall involved :: Initial(Abs(involved))
    {
      var v := new ConfigView([]);
      var c := new Collector(v, per);
      this.per, view, collector := per, v, c;
      status, disabled := Running, true;
      mainQueue, pendingQueue, refs := [], [], multiset{};
      launched, handled, sent := [], [], [];
    }

    ghost predicate Valid()
    {
      collector.view == view && collector.per == per
    }

    /** The value of the machine: what is left to collect is what the three-level cursor has left. */
    ghost function Abs(involved: set<nat>): Hub
      reads this, view, collector
    {
      Hub(status, disabled, mainQueue, pendingQueue, view.All(involved), view.Rest(involved), Count(view.subPools),
          collector.toBe, collector.already, launched, handled, sent)
    }

    /** An event has one reference for each queue slot that holds it. */
    ghost predicate Counted()
      reads `mainQueue, `pendingQueue, `refs
    {
      refs == multiset(mainQueue) + multiset(pendingQueue)
    }

    /** While an event is in hand it has one more. */
    ghost predicate CountedWith(e: Event)
      reads `mainQueue, `pendingQueue, `refs
    {
      refs == multiset(mainQueue) + multiset(pendingQueue) + multiset{e}
    }

    method Launch(e: Event, front: bool)
      requires Counted()
      modifies this
      ensures forall involved :: Abs(involved) == LaunchAt(old(Abs(involved)), e, front)
      ensures Counted() && disabled == old(disabled)
    {
      refs := refs + multiset{e};
      if front {
        mainQueue := [e] + mainQueue;
      } else {
        mainQueue := mainQueue + [e];
      }
      launched := launched + [e];
    }

    method Dequeue() returns (e: Event)
      requires mainQueue != [] && Counted()
      modifies `mainQueue
      ensures e == old(mainQueue[0]) && mainQueue == old(mainQueue)[1..] && CountedWith(e)
    {
      e := mainQueue[0];
      assert mainQueue == [e] + mainQueue[1..];
      mainQueue := mainQueue[1..];
    }

    method DecRef(e: Event)
      requires CountedWith(e)
      modifies `refs
      ensures Counted()
    {
      refs := refs - multiset{e};
    }

    method EnqueuePending(e: Event)
      requires CountedWith(e)
      modifies `pendingQueue, `refs
      ensures pendingQueue == old(pendingQueue) + [e] && CountedWith(e)
    {
      refs := refs + multiset{e};
      pendingQueue := pendingQueue + [e];
    }

    /** Pushes the waiting events to the front, last one first, without touching their references. */
    method HandlePendingEvent(ghost e: Event)
      requires CountedWith(e)
      modifies `mainQueue, `pendingQueue
      ensures mainQueue == old(pendingQueue) + old(mainQueue) && pendingQueue == [] && CountedWith(e)
    {
      if pendingQueue == [] {
        return;
      }
      var eventvec := pendingQueue;
      pendingQueue := [];
      var eventvec2 := Reversed(eventvec);
      var i, n := 0, |eventvec|;
      while i < n
        invariant i <= n && pendingQueue == [] && |eventvec2| == n
        invariant mainQueue == eventvec[n - i..] + old(mainQueue)
      {
        assert eventvec2[i] == eventvec[n - 1 - i];
        PushedFront(eventvec, n - 1 - i, old(mainQueue));
        mainQueue := [eventvec2[i]] + mainQueue;
        i := i + 1;
      }
    }

    /**
      One round of the loop: what it does to the state, and that each event keeps exactly the
      references of its slots.
     */
    method HandleEvent(involved: set<nat>)
      requires Valid() && per > 0 && mainQueue != [] && Counted()
      modifies this, view, collector
      ensures Abs(involved) == HandleOne(old(Abs(involved)), involved, per) && Counted()
      ensures var e := old(mainQueue[0]);
              var waits := old(status) == CollectingIO &&
                           (e.kind.AddDisk? || e.kind.RemoveDisk? || e.kind.AddOBJ? || e.kind.DeleteOBJ? ||
                            e.kind.CollectConfigView? || e.kind.MigrationCompleted?);
              && (waits ==>
                 && pendingQueue == old(pendingQueue) + [e] && mainQueue == old(mainQueue)[1..]
                 && Abs(involved) == old(Abs(involved)).(main := mainQueue, pending := pendingQueue))
              && (!waits ==> handled == old(handled) + [e])
              && (!waits && e.kind != CollectPost ==>
                 pendingQueue == old(pendingQueue) && mainQueue == old(mainQueue)[1..])
              && (e.kind == CollectPost ==>
                 pendingQueue == [] && mainQueue == old(pendingQueue) + old(mainQueue)[1..] && status == ServingForAST)
    {
      WaitsIff(Abs(involved), involved, per);
      hide Counted, CountedWith, HandleOne, Dispatch, ShouldPend, PoolsAll, ViewRest, Count;
      ghost var before := Abs(involved);
      var event := Dequeue();
      assert Abs(involved) == before.(main := before.main[1..]);
      if ShouldPend(status, event) {
        HandlePends(before, involved, per);
        Pend(event);
      } else {
        HandleDispatches(before, involved, per);
        Serve(event, involved);
      }
    }

    method Pend(event: Event)
      requires CountedWith(event)
      modifies `pendingQueue, `refs
      ensures pendingQueue == old(pendingQueue) + [event] && Counted()
    {
      EnqueuePending(event);
      DecRef(event);
    }

    method Serve(event: Event, involved: set<nat>)
      requires Valid() && per > 0 && CountedWith(event)
      modifies this, view, collector
      ensures Counted()
      ensures var s := old(Abs(involved));
              Abs(involved) == Dispatch(s.(handled := s.handled + [event]), event, involved, per)
    {
      hide Counted, CountedWith, Dispatch, PoolsAll, ViewRest, Count;
      ghost var before := Abs(involved);
      handled := handled + [event];
      assert Abs(involved) == before.(handled := before.handled + [event]);
      HandleNow(event, involved);
      ghost var after := Abs(involved);
      DecRef(event);
      assert Abs(involved) == after;
    }

    method HandleNow(event: Event, involved: set<nat>)
      requires Valid() && per > 0 && CountedWith(event)
      modifies this, view, collector
      ensures Abs(involved) == Dispatch(old(Abs(involved)), event, involved, per) && CountedWith(event)
    {
      hide PoolsAll, ViewRest, Count, CountedWith, Collect, SwitchOn, SwitchOff;
      match event.kind
      case EnableAST =>
        disabled := event.effect.disabled;
        HandleEnableASTEcho(event.effect.echo == Some(true), involved);
      case DisableAST =>
        disabled := event.effect.disabled;
        HandleDisableASTEcho(event.effect.echo == Some(true), involved);
      case EnableASTEcho(ok) => HandleEnableASTEcho(ok, involved);
      case DisableASTEcho(ok) => HandleDisableASTEcho(ok, involved);
      case CollectPrep =>
        if !disabled {
          PrepareCollection(involved);
        }
      case CollectNormal => CollectBatch(involved);
      case CollectPost =>
        status := ServingForAST;
        HandlePendingEvent(event);
      case AccessOBJ =>
      case Migrate =>
      case StopHUB =>
      case _ => Configure(event.effect, involved);
    }

    method HandleEnableASTEcho(ok: bool, ghost involved: set<nat>)
      modifies `disabled, `status
      ensures Abs(involved) == SwitchOn(old(Abs(involved)), ok)
    {
      if ok {
        disabled, status := false, ServingForAST;
      }
    }

    method HandleDisableASTEcho(ok: bool, ghost involved: set<nat>)
      modifies `disabled, `status
      ensures Abs(involved) == SwitchOff(old(Abs(involved)), ok)
    {
      if ok {
        disabled := true;
        if status == ServingForAST || status == CollectingIO {
          status := Running;
        }
      }
    }

    /** What a configuration event leaves behind. */
    method Configure(effect: Effect, ghost involved: set<nat>)
      modifies view
      ensures var s := old(Abs(involved));
              Abs(involved) == s.(all := PoolsAll(effect.pools, involved), total := Count(effect.pools),
                                  rest := ViewRest(effect.pools, effect.it, involved))
    {
      view.subPools, view.it := effect.pools, effect.it;
    }

    method PrepareCollection(ghost involved: set<nat>)
      requires Valid()
      modifies `status, collector
      ensures Abs(involved) ==
              old(Abs(involved)).(status := CollectingIO, toBe := old(Abs(involved)).total, already := 0)
    {
      hide PoolsAll, ViewRest, Count;
      status := CollectingIO;
      collector.Prepare();
    }

    /** The first request of a collection restarts the cursor, the others go on where it stands. */
    method CollectBatch(involved: set<nat>)
      requires Valid() && per > 0
      modifies `sent, collector`already, view
      ensures Abs(involved) == Collect(old(Abs(involved)), per)
    {
      hide PoolsAll, ViewRest, Count, Answer, Taken, SameObjects;
      ghost var before := view.subPools;
      var response := collector.CollectIO(collector.already == 0, involved, disabled);
      SameObjectsSameAll(before, view.subPools, involved);
      sent := sent + [response];
    }

    /**
      The loop until the queue is empty: it ends, and the states it goes through are a run. What
      holds over every run, as the completeness of a collection, holds of it and its cursor.
     */
    method HandleEvents(involved: set<nat>) returns (ghost states: seq<Hub>)
      requires Valid() && per > 0 && Counted()
      modifies this, view, collector
      ensures states != [] && states[0] == old(Abs(involved)) && states[|states| - 1] == Abs(involved)
      ensures Run(states, involved, per) && mainQueue == [] && Counted()
    {
      hide Counted, HandleOne, PoolsAll, ViewRest, Count;
      states := [Abs(involved)];
      while mainQueue != []
        invariant Counted() && states != []
        invariant states[0] == old(Abs(involved)) && states[|states| - 1] == Abs(involved)
        invariant Run(states, involved, per)
        decreases |mainQueue| + |pendingQueue|, |mainQueue|
      {
        QueuesAfter(Abs(involved), involved, per);
        HandleEvent(involved);
        states := RunThenHandle(states, involved, per);
      }
    }

    lemma ViewIsSound(involved: set<nat>)
      ensures Sound(Abs(involved))
    {
      InvolvedAtMostAll(view.subPools, involved);
    }

    /**
      At every moment of a collection that has sent something: what was sent, read fragment by
      fragment, and what the three-level cursor has left are together all involved objects, in order.
     */
    lemma SentAndLeft(states: seq<Hub>, involved: set<nat>, i: nat)
      requires per > 0 && Collection(states, involved, per) && i < |states| && states[i] == Abs(involved)
      ensures |sent| >= |states[0].sent|
      ensures collector.already > 0 ==>
                Concat(Fragments(sent[|states[0].sent|..])) + view.Rest(involved) == view.All(involved)
    {
      hide Collection, Concat, Fragments, Chunks, PoolsAll, ViewRest, Count, Off;
      CollectionIsComplete(states, involved, per, i);
    }

    /** A queued or waiting event has exactly one reference; a handled one has none and is freed. */
    lemma FreedExactlyWhenHandled(e: Event, involved: set<nat>)
      requires Counted() && Once(Abs(involved))
      ensures refs[e] == if e in mainQueue || e in pendingQueue then 1 else 0
    {
      var s := Abs(involved);
      assert refs[e] <= multiset(launched)[e];
      if multiset(launched)[e] >= 2 {
        FoundTwice(launched, e);
        assert false;
      }
      assert e in mainQueue <==> e in multiset(mainQueue);
      assert e in pendingQueue <==> e in multiset(pendingQueue);
    }
  }

  lemma PushedFront(s: seq<Event>, i: nat, tail: seq<Event>)
    requires i < |s|
    ensures [s[i]] + (s[i + 1..] + tail) == s[i..] + tail
  {
  }
}
