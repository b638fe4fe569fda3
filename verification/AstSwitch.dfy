/**
  The HUB's handlers of enable and disable requests and of the module's echoes, with their
  loops over all sub-pools, each proved to do what the step on values does.
 */
module AstSwitch {
  import opened AstStatus

  class HUB {
    var astStatus: Status
    var enableInBatch: bool
    var stopping: bool
    /** What the event loop read last. */
    var status: Status
    var subPoolASTStatus: map<nat, Status>
    var requests: multiset<Request>
    var outbox: multiset<Message>
    ghost var sent: seq<Message>

    /** The invariants of the protocol. */
    ghost predicate Valid()
      reads this
    {
      Inv(Abs())
    }

    constructor ()
      ensures Abs() == INITIAL && Valid()
    {
      InitialHolds();
      astStatus, enableInBatch, stopping, status := Disabled, true, false, Disabled;
      subPoolASTStatus, requests, outbox, sent := map[], multiset{}, multiset{}, [];
    }

    ghost function Abs(): State
      reads this
    {
      State(astStatus, enableInBatch, stopping, status, subPoolASTStatus, requests, outbox, sent)
    }

    method Launch(r: Request)
      modifies `requests
      ensures old(Valid()) ==> Valid()
      ensures requests == old(requests) + multiset{r}
    {
      hide Inv;
      ghost var before := Abs();
      requests := requests + multiset{r};
      if Inv(before) {
        RequestsKeep(before, Abs());
      }
    }

    method EnableAST()
      modifies `astStatus, `outbox, `sent
      ensures Abs() == Send(old(Abs()), EnableMsg)
    {
      astStatus, outbox, sent := Enabling, outbox + multiset{EnableMsg}, sent + [EnableMsg];
    }

    method DisableAST()
      modifies `astStatus, `outbox, `sent
      ensures Abs() == Send(old(Abs()), DisableMsg)
    {
      astStatus, outbox, sent := Disabling, outbox + multiset{DisableMsg}, sent + [DisableMsg];
    }

    /** The sub-pool is enabled at once by an enabled module, and otherwise waits for it; no other changes. */
    method HandleEnableEvent(k: nat)
      requires Valid() && Enable(k) in requests
      modifies this
      ensures Valid() && Abs() == Handle(old(Abs()), Enable(k))
      ensures ActiveIn(Abs(), k) && (subPoolASTStatus[k] == Enabled <==> astStatus == Enabled)
      ensures old(astStatus) == Disabled <==> sent != old(sent)
      ensures forall j :: j != k ==> (ActiveIn(Abs(), j) <==> old(ActiveIn(Abs(), j)))
    {
      hide Inv, HandleEnable, HandleDisable, ActiveIn;
      HandleKeeps(Abs(), Enable(k));
      EnableMeans(Abs(), k);
      requests := requests - multiset{Enable(k)};
      EnableSubPool(k);
    }

    method EnableSubPool(k: nat)
      modifies this
      ensures Abs() == HandleEnable(old(Abs()), k)
    {
      status := astStatus;
      if status == Disabled {
        enableInBatch := false;
        subPoolASTStatus := subPoolASTStatus[k := Enabling];
        EnableAST();
      } else if status == Enabled {
        subPoolASTStatus := subPoolASTStatus[k := Enabled];
      } else {
        subPoolASTStatus := subPoolASTStatus[k := Enabling];
      }
    }

    /** Finding no status leaves what was read before. */
    method GetSubPoolASTStatus(k: nat) returns (found: bool)
      modifies `status
      ensures status == StatusOf(old(Abs()), k)
      ensures found <==> enableInBatch || k in subPoolASTStatus
    {
      found := true;
      if enableInBatch {
        status := astStatus;
      } else if k in subPoolASTStatus {
        status := subPoolASTStatus[k];
      } else {
        found := false;
      }
    }

    /** Counts the sub-pools that need the module: whether this one does and no other. */
    method ShouldDisable(k: nat) returns (should: bool)
      ensures should <==> ShouldDisableAST(Abs(), k)
      ensures !enableInBatch ==>
                (should <==>
                 && k in subPoolASTStatus && (subPoolASTStatus[k] == Enabling || subPoolASTStatus[k] == Enabled)
                 && forall j :: j in subPoolASTStatus && j != k ==>
                      subPoolASTStatus[j] == Disabled || subPoolASTStatus[j] == Disabling)
      ensures enableInBatch && subPoolASTStatus == map[] ==> !should
    {
      OnlyOneIff(Abs(), k);
      should := CountAndDecide(k);
    }

    method CountAndDecide(k: nat) returns (should: bool)
      ensures should <==> ShouldDisableAST(Abs(), k)
    {
      var rest, num := subPoolASTStatus.Keys, 0;
      ghost var seen: set<nat> := {};
      while rest != {}
        invariant rest !! seen && rest + seen == subPoolASTStatus.Keys
        invariant num == |seen * ActivePools(subPoolASTStatus)|
        decreases |rest|
      {
        var j :| j in rest;
        CountOne(seen, j, ActivePools(subPoolASTStatus));
        if Active(subPoolASTStatus[j]) {
          num := num + 1;
        }
        rest, seen := rest - {j}, seen + {j};
      }
      assert seen * ActivePools(subPoolASTStatus) == ActivePools(subPoolASTStatus);
      if num != 1 {
        return false;
      }
      if enableInBatch {
        should := Active(astStatus);
      } else {
        should := k in subPoolASTStatus && Active(subPoolASTStatus[k]);
      }
    }

    /** The sub-pool no longer needs the module; that is final exactly when no request to enable it is queued. */
    method HandleDisableEvent(k: nat)
      requires Valid() && Disable(k) in requests
      modifies this
      ensures Valid() && Abs() == Handle(old(Abs()), Disable(k))
      ensures !ActiveIn(Abs(), k)
      ensures OffForGood(Abs(), k) <==> Enable(k) !in old(requests)
      ensures var stops := k in old(subPoolASTStatus) && old(subPoolASTStatus)[k] == Enabled &&
                           NoOtherActive(old(subPoolASTStatus), k);
              && (stops ==> astStatus == Disabling && sent == old(sent) + [DisableMsg]
                            && subPoolASTStatus == old(subPoolASTStatus)[k := Disabling])
              && (!stops ==> astStatus == old(astStatus) && sent == old(sent) && outbox == old(outbox))
              && (!stops && k in old(subPoolASTStatus) ==>
                 subPoolASTStatus == old(subPoolASTStatus)[k := old(Given(Abs(), k))])
    {
      DisableMeans(Abs(), k);
      hide Inv, HandleEnable, HandleDisable, OffForGood, NoOtherActive, Given;
      HandleKeeps(Abs(), Disable(k));
      DisableIsFinalIff(Abs(), k);
      FinalOrQueued(Abs(), k);
      requests := requests - multiset{Disable(k)};
      DisableSubPool(k);
    }

    method DisableSubPool(k: nat)
      modifies this
      ensures Abs() == HandleDisable(old(Abs()), k)
    {
      hide ShouldDisableAST, ActivePools;
      ghost var before := Abs();
      var _ := GetSubPoolASTStatus(k);
      SameDecision(before, Abs(), k);
      if status == Enabled {
        var should := ShouldDisable(k);
        if should {
          subPoolASTStatus := subPoolASTStatus[k := Disabling];
          DisableAST();
        } else if stopping {
          subPoolASTStatus := subPoolASTStatus[k := Disabling];
        } else {
          subPoolASTStatus := subPoolASTStatus[k := Disabled];
        }
      } else if status == Enabling {
        subPoolASTStatus := subPoolASTStatus[k := Disabled];
      }
    }

    /** Visits every sub-pool and turns those of one status into another. */
    method TurnAll(from: Status, to: Status)
      requires from != to
      modifies `subPoolASTStatus
      ensures subPoolASTStatus == Turn(old(subPoolASTStatus), from, to)
    {
      var rest := subPoolASTStatus.Keys;
      while rest != {}
        invariant rest <= subPoolASTStatus.Keys == old(subPoolASTStatus).Keys
        invariant forall k :: k in rest ==> subPoolASTStatus[k] == old(subPoolASTStatus)[k]
        invariant forall k :: k in subPoolASTStatus && k !in rest ==>
                    subPoolASTStatus[k] == if old(subPoolASTStatus)[k] == from then to else old(subPoolASTStatus)[k]
        decreases |rest|
      {
        var k :| k in rest;
        if subPoolASTStatus[k] == from {
          subPoolASTStatus := subPoolASTStatus[k := to];
        }
        rest := rest - {k};
      }
    }

    /** A successful echo leaves no sub-pool waiting, and a stopping HUB serving. */
    method HandleEnableASTEcho(ok: bool)
      requires Valid() && EnableMsg in outbox
      modifies this
      ensures Valid() && Abs() == EnableEcho(old(Abs()), ok) && outbox == multiset{}
      ensures ok ==> astStatus == Enabled && !stopping && forall k :: k in subPoolASTStatus ==>
              subPoolASTStatus[k] != Enabling
      ensures !ok ==> astStatus == Enabling && subPoolASTStatus == old(subPoolASTStatus)
      ensures subPoolASTStatus.Keys == old(subPoolASTStatus).Keys
      ensures ok ==> forall k :: k in subPoolASTStatus ==>
              subPoolASTStatus[k] == if old(subPoolASTStatus)[k] == Enabling then Enabled else old(subPoolASTStatus)[k]
    {
      BatchMeansQuiet(Abs());
      EnableEchoMeans(Abs(), ok);
      hide Turn, Inv;
      EnableEchoKeeps(Abs(), ok);
      EchoEmpties(Abs(), EnableMsg, ok);
      outbox := outbox - multiset{EnableMsg};
      if ok {
        astStatus, stopping := Enabled, false;
        if !enableInBatch {
          TurnAll(Enabling, Enabled);
        }
      }
      NoneWaits(Abs());
    }

    /** Launches one request for each sub-pool still waiting. */
    method RelaunchAll()
      modifies `requests
      ensures requests == old(requests) + multiset(Relaunched(subPoolASTStatus))
    {
      var rest := set k | k in subPoolASTStatus && subPoolASTStatus[k] == Enabling;
      ghost var done: set<Request> := {};
      while rest != {}
        invariant rest <= subPoolASTStatus.Keys
        invariant forall k :: k in rest ==> subPoolASTStatus[k] == Enabling && Enable(k) !in done
        invariant forall k :: k in subPoolASTStatus && subPoolASTStatus[k] == Enabling && k !in rest ==>
                  Enable(k) in done
        invariant done <= Relaunched(subPoolASTStatus)
        invariant requests == old(requests) + multiset(done)
        decreases |rest|
      {
        var k :| k in rest;
        Launch(Enable(k));
        OneMore(done, Enable(k));
        rest, done := rest - {k}, done + {Enable(k)};
      }
      assert done == Relaunched(subPoolASTStatus);
    }

    /** A successful echo leaves every waiting sub-pool with a request launched for it. */
    method HandleDisableASTEcho(ok: bool)
      requires Valid() && DisableMsg in outbox
      modifies this
      ensures Valid() && Abs() == DisableEcho(old(Abs()), ok) && outbox == multiset{}
      ensures ok ==> astStatus == Disabled && forall k :: ActiveIn(Abs(), k) ==> Enable(k) in requests
      ensures !ok ==> astStatus == Disabling && subPoolASTStatus == old(subPoolASTStatus) && requests == old(requests)
      ensures subPoolASTStatus.Keys == old(subPoolASTStatus).Keys
      ensures ok ==> forall k :: k in subPoolASTStatus ==>
              subPoolASTStatus[k] == if old(subPoolASTStatus)[k] == Disabling then Disabled
                else old(subPoolASTStatus)[k]
      ensures forall r :: requests[r] == old(requests)[r] + old(MoreOf(Abs(), r, ok))
    {
      DisableEchoMeans(Abs(), ok);
      hide Turn, Relaunched, Inv, MoreOf;
      DisableEchoKeeps(Abs(), ok);
      EchoEmpties(Abs(), DisableMsg, ok);
      outbox := outbox - multiset{DisableMsg};
      if ok {
        astStatus := Disabled;
        FinishDisabled();
      }
      AllWaitersQueued(Abs());
    }

    /** Finishes the disabling sub-pools and launches a request for each waiting one. */
    method FinishDisabled()
      modifies `subPoolASTStatus, `enableInBatch, `requests
      ensures subPoolASTStatus == Turn(old(subPoolASTStatus), Disabling, Disabled) && !enableInBatch
      ensures requests == old(requests) + multiset(Relaunched(old(subPoolASTStatus)))
    {
      hide Turn, Relaunched;
      ghost var before := subPoolASTStatus;
      TurnAll(Disabling, Disabled);
      SameWaiting(before);
      enableInBatch := false;
      RelaunchAll();
    }
  }

  lemma EnableMeans(s: State, k: nat)
    ensures var t := Handle(s, Enable(k));
            && ActiveIn(t, k) && (t.subs[k] == Enabled <==> t.mod == Enabled)
            && (s.mod == Disabled <==> t.sent != s.sent)
            && forall j :: j != k ==> (ActiveIn(t, j) <==> ActiveIn(s, j))
  {
    assert |Handle(s, Enable(k)).sent| == |s.sent| + if s.mod == Disabled then 1 else 0;
  }

  lemma FinalOrQueued(s: State, k: nat)
    requires Inv(s)
    ensures !ActiveIn(Handle(s, Disable(k)), k)
  {
    var t := s.(requests := s.requests - multiset{Disable(k)});
    BatchMeansQuiet(s);
    hide Inv, HandleDisable;
    DisabledIsInactive(t, k);
  }

  lemma EchoEmpties(s: State, m: Message, ok: bool)
    requires Inv(s) && m in s.outbox
    ensures s.outbox - multiset{m} == multiset{} && s.mod == if m == EnableMsg then Enabling else Disabling
  {
    hide Alternating, NoLostRequest;
  }

  lemma NoneWaits(s: State)
    ensures Inv(s) && s.mod == Enabled ==> forall k :: k in s.subs ==> s.subs[k] != Enabling
  {
    hide Alternating, NoLostRequest;
  }

  lemma AllWaitersQueued(s: State)
    ensures Inv(s) && s.mod == Disabled ==> forall k :: ActiveIn(s, k) ==> Enable(k) in s.requests
  {
    hide Alternating, OneMessage;
  }

  lemma CountOne(seen: set<nat>, j: nat, active: set<nat>)
    requires j !in seen
    ensures |(seen + {j}) * active| == |seen * active| + if j in active then 1 else 0
  {
    assert (seen + {j}) * active == if j in active then seen * active + {j} else seen * active;
  }

  lemma OneMore(done: set<Request>, r: Request)
    requires r !in done
    ensures multiset(done + {r}) == multiset(done) + multiset{r}
  {
  }

  /** Finishing the disabled ones changes nothing for those that wait to be enabled. */
  lemma SameWaiting(subs: map<nat, Status>)
    ensures Relaunched(Turn(subs, Disabling, Disabled)) == Relaunched(subs)
  {
  }

  /** What was read last plays no part in the decision. */
  lemma SameDecision(s: State, t: State, k: nat)
    requires t == s.(last := t.last)
    ensures ShouldDisableAST(t, k) <==> ShouldDisableAST(s, k)
  {
  }
}
