/**
  A whole collection, from its preparation to its end, while other events keep arriving:
  the fragments of all batches together are the involved objects, cut into full fragments.
 */
module HubCollection {
  import opened Common
  import opened ObjectCursor
  import opened CollectIO
  import opened HubEvents

  function Fragments(sent: seq<Response>): seq<seq<ObjKey>>
  {
    if sent == [] then [] else Fragments(sent[..|sent| - 1]) + sent[|sent| - 1].fragments
  }

  lemma FragmentsSnoc(sent: seq<Response>, r: Response)
    ensures Fragments(sent + [r]) == Fragments(sent) + r.fragments
  {
    assert (sent + [r])[..|sent|] == sent;
  }

  /** Cutting at a multiple of the fragment size makes no difference to the fragments. */
  lemma {:induction false} ChunksSplit(s: seq<ObjKey>, m: nat, per: nat)
    requires per > 0 && m * per <= |s|
    ensures Chunks(s[..m * per], per) + Chunks(s[m * per..], per) == Chunks(s, per)
  {
    if m == 0 {
      assert s[m * per..] == s && s[..m * per] == [];
    } else {
      assert m * per == per + (m - 1) * per;
      var t := s[per..];
      ChunksSplit(t, m - 1, per);
      assert s[..m * per] == s[..per] + t[..(m - 1) * per] && s[m * per..] == t[(m - 1) * per..];
      ChunksFirst(s[..per], t[..(m - 1) * per], per);
      assert s == s[..per] + t;
      ChunksFirst(s[..per], t, per);
      Associative([s[..per]], Chunks(t[..(m - 1) * per], per), Chunks(t[(m - 1) * per..], per));
    }
  }

  /** A collection under way; the module may be switched off and on again in it. */
  ghost predicate UnderWay(s: Hub)
  {
    s.status == CollectingIO
  }

  ghost predicate Restarts(s: Hub)
  {
    s.main != [] && s.main[0].kind == CollectPrep && !s.disabled
  }

  /** A stretch of a run inside one collection, right from its preparation. */
  ghost predicate Collection(states: seq<Hub>, involved: set<nat>, per: nat)
    requires per > 0
  {
    && states != []
    && Sound(states[0]) && states[0].already == 0 && states[0].toBe == states[0].total
    && (forall i :: 0 <= i < |states| ==> UnderWay(states[i]))
    && (forall i :: 0 <= i < |states| - 1 ==> CollectionStep(states[i], states[i + 1], involved, per))
  }

  ghost predicate CollectionStep(s: Hub, t: Hub, involved: set<nat>, per: nat)
    requires per > 0
  {
    Step(s, t, involved, per) && (Restarts(s) ==> !(t == HandleOne(s, involved, per)))
  }

  /** What has been reported since s0 by k requests, and by `off` others that came while the module was off. */
  ghost predicate Reported(s0: Hub, s: Hub, k: nat, off: nat, per: nat)
    requires per > 0
  {
    && s.all == s0.all && s.total == s.toBe == s0.total && |s.all| <= s.total
    && |s.sent| == |s0.sent| + k + off
    && s.already <= |s.all|
    && (s.already > 0 ==> s.rest == s.all[s.already..])
    && Fragments(s.sent[|s0.sent|..]) == Chunks(s.all[..s.already], per)
    && (s.already == |s.all| || s.already == k * BATCH * per)
    && (off == 0 && k > 0 && s.sent[|s.sent| - 1].flag != NextBatch ==> s.already == |s.all|)
    && (k + off > 0 && s.sent[|s.sent| - 1].flag == End ==> s.already == |s.all|)
  }

  lemma NothingReported(s: Hub, per: nat)
    requires per > 0 && Sound(s) && s.already == 0 && s.toBe == s.total
    ensures Reported(s, s, 0, 0, per)
  {
    assert s.sent[|s.sent|..] == [];
    assert s.all[..0] == [];
  }

  /** Taking the next batch from where the last one ended. */
  lemma NextBatchChunks(all: seq<ObjKey>, already: nat, n: nat, k: nat, per: nat)
    requires per > 0 && already + n <= |all|
    requires already == k * BATCH * per || n == 0
    ensures Chunks(all[..already], per) + Chunks(all[already..][..n], per) == Chunks(all[..already + n], per)
  {
    var s := all[..already + n];
    assert all[already..][..n] == s[already..] && all[..already] == s[..already];
    if n == 0 {
      assert s[already..] == [];
    } else {
      assert (k * BATCH) * per == already;
      ChunksSplit(s, k * BATCH, per);
    }
  }

  /** An answer while nothing is left, or while the module is off, sends no fragment and changes no cursor. */
  lemma IdleReports(s0: Hub, s: Hub, k: nat, off: nat, per: nat)
    requires per > 0 && Reported(s0, s, k, off, per) && Idle(s.already, s.toBe, s.disabled)
    ensures var t := s.(sent := s.sent + [Response(NoData, Unset, [])]);
            if s.disabled then Reported(s0, t, k, off + 1, per) else Reported(s0, t, k + 1, off, per)
  {
    hide Chunks, Fragments;
    var r := Response(NoData, Unset, []);
    assert (s.sent + [r])[|s0.sent|..] == s.sent[|s0.sent|..] + [r];
    FragmentsSnoc(s.sent[|s0.sent|..], r);
    assert Fragments(s.sent[|s0.sent|..]) + [] == Fragments(s.sent[|s0.sent|..]);
  }

  lemma BatchReports(s0: Hub, s: Hub, k: nat, off: nat, per: nat)
    requires per > 0 && Reported(s0, s, k, off, per) && !Idle(s.already, s.toBe, s.disabled)
    ensures Reported(s0, Collect(s, per), k + 1, off, per)
  {
    hide Chunks, Fragments;
    var t := Collect(s, per);
    var source := s.all[s.already..];
    assert s.all[0..] == s.all;
    var r := Answer(source, s.already, s.toBe, per);
    var n := Taken(source, per);
    assert t == s.(rest := source[n..], already := s.already + n, sent := s.sent + [r]);
    assert t.sent[|s0.sent|..] == s.sent[|s0.sent|..] + [r];
    FragmentsSnoc(s.sent[|s0.sent|..], r);
    NextBatchChunks(s.all, s.already, n, k, per);
    assert source[n..] == s.all[t.already..];
    NextMultiple(k, per, s.already, n, |s.all|);
  }

  lemma NormalReports(s0: Hub, s: Hub, k: nat, off: nat, per: nat)
    requires per > 0 && Reported(s0, s, k, off, per)
    ensures if s.disabled then Reported(s0, Collect(s, per), k, off + 1, per)
            else Reported(s0, Collect(s, per), k + 1, off, per)
  {
    hide Reported, Taken, Answer;
    if Idle(s.already, s.toBe, s.disabled) {
      IdleReports(s0, s, k, off, per);
    } else {
      BatchReports(s0, s, k, off, per);
    }
  }

  lemma NextMultiple(k: nat, per: nat, already: nat, n: nat, size: nat)
    requires already <= size && n == Min(size - already, BATCH * per)
    requires already == size || already == k * BATCH * per
    ensures already + n == size || already + n == (k + 1) * BATCH * per
  {
    assert (k + 1) * BATCH * per == k * BATCH * per + BATCH * per;
  }

  /** Everything that can be handled inside a collection, except its own requests, waits or leaves the cursor alone. */
  lemma OthersLeaveCursor(s: Hub, involved: set<nat>, per: nat)
    requires per > 0 && s.main != [] && UnderWay(s) && UnderWay(HandleOne(s, involved, per))
    requires s.main[0].kind != CollectNormal && !Restarts(s)
    ensures var t := HandleOne(s, involved, per);
            && t.all == s.all && t.rest == s.rest && t.total == s.total && t.toBe == s.toBe
            && t.already == s.already && t.sent == s.sent
  {
    hide PoolsAll, ViewRest, Count, Collect;
  }

  lemma HandleNormal(s: Hub, involved: set<nat>, per: nat)
    requires per > 0 && s.main != [] && s.main[0].kind == CollectNormal
    ensures HandleOne(s, involved, per) == Collect(s.(main := s.main[1..], handled := s.handled + [s.main[0]]), per)
  {
    hide PoolsAll, ViewRest, Count, Collect;
  }

  lemma CollectSendsOne(s: Hub, per: nat)
    requires per > 0
    ensures |Collect(s, per).sent| == |s.sent| + 1
  {
  }

  /** A request was answered in this step while the module was off. */
  predicate AnsweredOff(s: Hub, t: Hub)
  {
    |t.sent| > |s.sent| && s.disabled
  }

  /** Inside a collection a step either collects one batch or leaves configuration and cursor alone. */
  lemma StepReports(s0: Hub, s: Hub, t: Hub, k: nat, off: nat, involved: set<nat>, per: nat)
    returns (k': nat, off': nat)
    requires per > 0 && UnderWay(s) && UnderWay(t) && CollectionStep(s, t, involved, per)
    requires Reported(s0, s, k, off, per)
    ensures Reported(s0, t, k', off', per)
    ensures k' + off' == k + off + |t.sent| - |s.sent|
    ensures off' == if AnsweredOff(s, t) then off + 1 else off
    ensures |t.sent| > |s.sent| && !s.disabled && t.sent[|t.sent| - 1].flag != NextBatch ==> t.already == |t.all|
  {
    hide Reported, HandleOne, Collect;
    if s.main != [] && t == HandleOne(s, involved, per) {
      var e := s.main[0];
      if e.kind == CollectNormal {
        var popped := s.(main := s.main[1..], handled := s.handled + [e]);
        HandleNormal(s, involved, per);
        SameReport(s0, s, popped, k, off, per);
        NormalReports(s0, popped, k, off, per);
        CollectSendsOne(popped, per);
        if !s.disabled {
          AnswerTells(s0, popped, k, off, per);
        }
        k', off' := if s.disabled then k else k + 1, if s.disabled then off + 1 else off;
      } else {
        OthersLeaveCursor(s, involved, per);
        SameReport(s0, s, t, k, off, per);
        k', off' := k, off;
      }
    } else {
      SameReport(s0, s, t, k, off, per);
      k', off' := k, off;
    }
  }

  /** What is answered while the module is on announces a next batch as long as something is left. */
  lemma AnswerTells(s0: Hub, s: Hub, k: nat, off: nat, per: nat)
    requires per > 0 && Reported(s0, s, k, off, per) && !s.disabled
    ensures var t := Collect(s, per);
            t.sent != [] && (t.sent[|t.sent| - 1].flag != NextBatch ==> t.already == |t.all|)
  {
    hide Chunks, Fragments;
  }

  lemma SameReport(s0: Hub, s: Hub, t: Hub, k: nat, off: nat, per: nat)
    requires per > 0 && Reported(s0, s, k, off, per)
    requires t.all == s.all && t.rest == s.rest && t.total == s.total && t.toBe == s.toBe
    requires t.already == s.already && t.sent == s.sent
    ensures Reported(s0, t, k, off, per)
  {
    hide Chunks, Fragments;
  }

  /** How many requests were answered while the module was off. */
  function Off(states: seq<Hub>): nat
  {
    if |states| < 2 then 0
    else
      var n := |states| - 1;
      Off(states[..n]) + if AnsweredOff(states[n - 1], states[n]) then 1 else 0
  }

  lemma {:induction false} CollectionReports(states: seq<Hub>, involved: set<nat>, per: nat, i: nat) returns (k: nat)
    requires per > 0 && Collection(states, involved, per) && i < |states|
    ensures Reported(states[0], states[i], k, Off(states[..i + 1]), per)
    decreases i
  {
    if i == 0 {
      NothingReported(states[0], per);
      k := 0;
    } else {
      hide Reported, Sound;
      var j := CollectionReports(states, involved, per, i - 1);
      assert states[..i + 1][..i] == states[..i];
      var off;
      k, off := StepReports(states[0], states[i - 1], states[i], j, Off(states[..i]), involved, per);
    }
  }

  /**
    The main result, over every collection, the module being switched off and on in it included:
    the fragments sent are the first objects of the involved sub-pools in cursor order, each
    once, cut into full fragments across all batches. They are all of them once the requests
    that came while the module was on have room for them.
   */
  lemma CollectionIsComplete(states: seq<Hub>, involved: set<nat>, per: nat, i: nat)
    requires per > 0 && Collection(states, involved, per) && i < |states|
    ensures var s0, s := states[0], states[i];
            var k := |s.sent| - |s0.sent| - Off(states[..i + 1]);
            && k >= 0 && s.already <= |s0.all|
            && s.all == s0.all && (s.already > 0 ==> s.rest == s0.all[s.already..])
            && Fragments(s.sent[|s0.sent|..]) == Chunks(s0.all[..s.already], per)
            && (k * BATCH * per >= |s0.all| ==> s.already == |s0.all|)
            && Concat(Fragments(s.sent[|s0.sent|..])) == s0.all[..s.already]
  {
    hide Collection, Chunks, Fragments, Concat, Off;
    var k := CollectionReports(states, involved, per, i);
    ChunksCoverExactly(states[0].all[..states[i].already], per);
  }

  lemma StepOfCollection(states: seq<Hub>, involved: set<nat>, per: nat, i: nat)
    requires per > 0 && Collection(states, involved, per) && 0 < i < |states|
    ensures UnderWay(states[i - 1]) && UnderWay(states[i]) && CollectionStep(states[i - 1], states[i], involved, per)
  {
    assert CollectionStep(states[i - 1], states[i - 1 + 1], involved, per);
  }

  /**
    The flag of an answer given with the module on while fewer than counted are collected: another
    batch is announced if and only if something was sent and fewer than counted are collected now.
   */
  lemma FlagOfBatch(states: seq<Hub>, involved: set<nat>, per: nat, i: nat)
    requires per > 0 && Collection(states, involved, per) && 0 < i < |states|
    requires |states[i].sent| > |states[i - 1].sent| && !states[i - 1].disabled
    requires states[i - 1].already < states[0].total
    ensures var s, t := states[i - 1], states[i];
            var flag := t.sent[|t.sent| - 1].flag;
            && (flag == NextBatch <==> s.already < t.already < states[0].total)
            && (flag == End <==> !(s.already < t.already < states[0].total))
  {
    hide Collection, CollectionStep, Chunks, Fragments, Concat, Sound, Off;
    StepOfCollection(states, involved, per, i);
    var k := CollectionReports(states, involved, per, i - 1);
    hide HandleOne, PoolsAll, ViewRest, Count;
    AnsweredByCollect(states[i - 1], states[i], involved, per);
    var s := states[i - 1];
    AnswerMeans(if s.already == 0 then s.all else s.rest, s.already, s.toBe, per);
  }

  /** Only a collecting request is answered. */
  lemma AnsweredByCollect(s: Hub, t: Hub, involved: set<nat>, per: nat)
    requires per > 0 && UnderWay(s) && UnderWay(t) && CollectionStep(s, t, involved, per) && |t.sent| > |s.sent|
    ensures t == Collect(s.(main := t.main, handled := t.handled), per)
  {
    hide Collect, HandleOne;
    assert s.main != [] && t == HandleOne(s, involved, per);
    if s.main[0].kind == CollectNormal {
      HandleNormal(s, involved, per);
      CollectLeavesQueues(s.(main := s.main[1..], handled := s.handled + [s.main[0]]), per);
    } else {
      OthersLeaveCursor(s, involved, per);
    }
  }

  lemma CollectLeavesQueues(s: Hub, per: nat)
    requires per > 0
    ensures Collect(s, per).main == s.main && Collect(s, per).handled == s.handled
  {
    hide Taken, Answer;
  }

  /**
    The batch that sends the last involved object is marked as the end if and only if every counted
    object is involved; otherwise it announces a batch in which nothing will be sent.
   */
  lemma LastBatchEndsIff(states: seq<Hub>, involved: set<nat>, per: nat, i: nat)
    requires per > 0 && Collection(states, involved, per) && 0 < i < |states|
    requires |states[i].sent| > |states[i - 1].sent| && !states[i - 1].disabled
    requires states[i - 1].already < |states[0].all| == states[i].already
    ensures var flag := states[i].sent[|states[i].sent| - 1].flag;
            && (flag == End <==> |states[0].all| == states[0].total)
            && (flag == NextBatch <==> |states[0].all| < states[0].total)
  {
    CountedSound(states, involved, per);
    hide Collection;
    FlagOfBatch(states, involved, per, i);
  }

  lemma CountedSound(states: seq<Hub>, involved: set<nat>, per: nat)
    requires per > 0 && Collection(states, involved, per)
    ensures |states[0].all| <= states[0].total
  {
  }

  /**
    A requester that stops at an answer which does not announce a next batch has missed nothing,
    if the module was on when that answer was given, or if the answer is marked as the end.
   */
  lemma StopsInTime(states: seq<Hub>, involved: set<nat>, per: nat, i: nat)
    requires per > 0 && Collection(states, involved, per) && 0 < i < |states|
    requires |states[i].sent| > |states[i - 1].sent|
    ensures var s0, s := states[0], states[i];
            var flag := s.sent[|s.sent| - 1].flag;
            (flag != NextBatch && !states[i - 1].disabled) || flag == End ==>
            && s.already == |s0.all| && |s.sent| >= |s0.sent|
            && Concat(Fragments(s.sent[|s0.sent|..])) == s0.all
  {
    hide Collection, CollectionStep, Chunks, Fragments, Concat, Sound, UnderWay, Off;
    CollectionIsComplete(states, involved, per, i);
    var k := CollectionReports(states, involved, per, i - 1);
    StepOfCollection(states, involved, per, i);
    var s0, s := states[0], states[i];
    var k', off := StepReports(s0, states[i - 1], s, k, Off(states[..i]), involved, per);
    assert s0.all[..|s0.all|] == s0.all;
  }
}
