/**
  Switching the module on and off for single sub-pools: the module runs while at least one
  sub-pool needs it. Requests, messages to the module and its echoes interleave freely.
 */
module AstStatus {

  datatype Status = Disabled | Enabling | Enabled | Disabling

  datatype Request = Enable(pool: nat) | Disable(pool: nat)

  datatype Message = EnableMsg | DisableMsg

  /**
    inBatch is the initial state in which every sub-pool shares the status of the module.
    last is what the event loop read last; a lookup that fails leaves it as it was.
    requests are the launched events not yet handled, in any order. outbox holds the
    messages whose echo is not yet handled, sent all messages so far.
   */
  datatype State = State(
    mod: Status, inBatch: bool, stopping: bool, last: Status, subs: map<nat, Status>,
    requests: multiset<Request>, outbox: multiset<Message>, sent: seq<Message>)

  const INITIAL: State := State(Disabled, true, false, Disabled, map[], multiset{}, multiset{}, [])

  predicate Active(st: Status)
  {
    st == Enabling || st == Enabled
  }

  function ActivePools(subs: map<nat, Status>): set<nat>
  {
    set k | k in subs && Active(subs[k])
  }

  function Send(s: State, m: Message): State
  {
    s.(outbox := s.outbox + multiset{m}, sent := s.sent + [m], mod := if m == EnableMsg then Enabling else Disabling)
  }

  function HandleEnable(s: State, k: nat): State
  {
    var t := s.(last := s.mod);
    match s.mod
    case Disabled => Send(t.(inBatch := false, subs := t.subs[k := Enabling]), EnableMsg)
    case Enabled => t.(subs := t.subs[k := Enabled])
    case _ => t.(subs := t.subs[k := Enabling])
  }

  /** The status of a sub-pool as the loop sees it: of the module in batch mode, stale if there is none. */
  function StatusOf(s: State, k: nat): Status
  {
    if s.inBatch then s.mod else if k in s.subs then s.subs[k] else s.last
  }

  /** Whether this is the only sub-pool that still needs the module. */
  predicate ShouldDisableAST(s: State, k: nat)
  {
    |ActivePools(s.subs)| == 1 && if s.inBatch then Active(s.mod) else k in s.subs && Active(s.subs[k])
  }

  function HandleDisable(s: State, k: nat): State
  {
    var st := StatusOf(s, k);
    var t := s.(last := st);
    match st
    case Enabled =>
      if ShouldDisableAST(s, k) then Send(t.(subs := t.subs[k := Disabling]), DisableMsg)
      else t.(subs := t.subs[k := if s.stopping then Disabling else Disabled])
    case Enabling => t.(subs := t.subs[k := Disabled])
    case _ => t
  }

  function Handle(s: State, r: Request): State
  {
    var t := s.(requests := s.requests - multiset{r});
    match r
    case Enable(k) => HandleEnable(t, k)
    case Disable(k) => HandleDisable(t, k)
  }

  /** Every sub-pool that has one status gets another. */
  function Turn(subs: map<nat, Status>, from: Status, to: Status): map<nat, Status>
  {
    map k | k in subs :: if subs[k] == from then to else subs[k]
  }

  /** One enable request for each sub-pool that asked while the module was being disabled. */
  function Relaunched(subs: map<nat, Status>): set<Request>
  {
    set k | k in subs && subs[k] == Enabling :: Enable(k)
  }

  /** A successful echo also makes a stopping HUB serve again. */
  function EnableEcho(s: State, ok: bool): State
  {
    var t := s.(outbox := s.outbox - multiset{EnableMsg});
    if ok then
      t.(mod := Enabled, stopping := false, subs := if t.inBatch then t.subs else Turn(t.subs, Enabling, Enabled))
    else t
  }

  function DisableEcho(s: State, ok: bool): State
  {
    var t := s.(outbox := s.outbox - multiset{DisableMsg});
    if ok then
      t.(mod := Disabled, subs := Turn(t.subs, Disabling, Disabled), inBatch := false,
         requests := t.requests + multiset(Relaunched(t.subs)))
    else t
  }

  datatype Event =
    | Launch(r: Request)
    | HandleOf(r: Request)
    | Echo(m: Message, ok: bool)
    | StopHUB
    | ReadStatus

  predicate Possible(s: State, e: Event)
  {
    (e.HandleOf? ==> e.r in s.requests) && (e.Echo? ==> e.m in s.outbox)
  }

  function Next(s: State, e: Event): State
    requires Possible(s, e)
  {
    match e
    case Launch(r) => s.(requests := s.requests + multiset{r})
    case HandleOf(r) => Handle(s, r)
    case Echo(m, ok) => if m == EnableMsg then EnableEcho(s, ok) else DisableEcho(s, ok)
    case StopHUB => s.(stopping := true)
    case ReadStatus => s.(last := s.mod)
  }

  // The invariants

  /** An enabled sub-pool has an enabled module; an enabled module has no sub-pool still enabling. */
  ghost predicate EnabledNeedsModule(s: State)
  {
    && (forall k :: k in s.subs && s.subs[k] == Enabled ==> s.mod == Enabled)
    && (s.mod == Enabled ==> forall k :: k in s.subs ==> s.subs[k] != Enabling)
  }

  ghost predicate DisabledIsQuiet(s: State)
  {
    s.mod == Disabled ==> forall k :: k in s.subs ==> s.subs[k] == Disabled || s.subs[k] == Enabling
  }

  /** A sub-pool that waits for a disabled module has a request on its way. */
  ghost predicate NoLostRequest(s: State)
  {
    s.mod == Disabled ==> forall k :: k in s.subs && s.subs[k] == Enabling ==> Enable(k) in s.requests
  }

  /** At most one message is under way, and it is the one the module's status tells. */
  ghost predicate OneMessage(s: State)
  {
    || s.outbox == multiset{}
    || (s.outbox == multiset{EnableMsg} && s.mod == Enabling)
    || (s.outbox == multiset{DisableMsg} && s.mod == Disabling)
  }

  /** The batch state of the beginning ends with the first request to enable. */
  ghost predicate BatchAtFirst(s: State)
  {
    s.inBatch ==> s.mod == Disabled && s.subs == map[]
  }

  /** Enabling and disabling messages alternate, beginning with an enabling one. */
  ghost predicate Alternating(s: State)
  {
    && (forall i :: 0 <= i < |s.sent| ==> s.sent[i] == if i % 2 == 0 then EnableMsg else DisableMsg)
    && (Active(s.mod) <==> |s.sent| % 2 == 1)
  }

  ghost predicate Inv(s: State)
  {
    EnabledNeedsModule(s) && NoLostRequest(s) && OneMessage(s) && BatchAtFirst(s) && Alternating(s)
  }

  /** No other sub-pool is enabling or enabled. */
  predicate NoOtherActive(subs: map<nat, Status>, k: nat)
  {
    forall j :: j in subs && j != k ==> subs[j] == Disabled || subs[j] == Disabling
  }

  lemma OnlyOne(subs: map<nat, Status>, k: nat)
    requires k in subs && Active(subs[k])
    ensures |ActivePools(subs)| == 1 <==> NoOtherActive(subs, k)
  {
    var p := ActivePools(subs);
    if |p| == 1 {
      assert k in p && |p - {k}| == 0;
      assert p == {k} + (p - {k});
      forall j | j in subs && j != k ensures !Active(subs[j]) {
        assert j in p <==> Active(subs[j]);
      }
    }
    if NoOtherActive(subs, k) {
      assert p == {k};
    }
  }

  /**
    What the count of active sub-pools decides, said without counting: this sub-pool is active and no
    other is. While no sub-pool has a status of its own there is nothing to disable.
   */
  lemma OnlyOneIff(s: State, k: nat)
    ensures !s.inBatch ==>
              (ShouldDisableAST(s, k) <==>
               && k in s.subs && (s.subs[k] == Enabling || s.subs[k] == Enabled)
               && forall j :: j in s.subs && j != k ==> s.subs[j] == Disabled || s.subs[j] == Disabling)
    ensures s.inBatch && BatchAtFirst(s) ==> !ShouldDisableAST(s, k)
  {
    if k in s.subs && Active(s.subs[k]) {
      OnlyOne(s.subs, k);
    }
  }

  /** Sending a message from the status that asks for it keeps the order of messages. */
  lemma SendKeeps(s: State, m: Message)
    requires Alternating(s) && OneMessage(s)
    requires s.mod == if m == EnableMsg then Disabled else Enabled
    ensures Alternating(Send(s, m)) && OneMessage(Send(s, m))
  {
  }

  lemma EnableKeeps(s: State, k: nat)
    requires EnabledNeedsModule(s) && OneMessage(s) && BatchAtFirst(s) && Alternating(s)
    ensures Inv(HandleEnable(s, k))
  {
    if s.mod == Disabled {
      hide Alternating, OneMessage;
      SameMessages(s, s.(last := s.mod, inBatch := false, subs := s.subs[k := Enabling]));
      SendKeeps(s.(last := s.mod, inBatch := false, subs := s.subs[k := Enabling]), EnableMsg);
    } else {
      hide Alternating, OneMessage;
      SameMessages(s, HandleEnable(s, k));
    }
  }

  /** Messages are judged by the status of the module alone. */
  lemma SameMessages(s: State, t: State)
    requires t.mod == s.mod && t.sent == s.sent && t.outbox == s.outbox
    ensures Alternating(s) <==> Alternating(t)
    ensures OneMessage(s) <==> OneMessage(t)
  {
  }

  lemma DisableLast(s: State, k: nat)
    requires Inv(s) && StatusOf(s, k) == Enabled && ShouldDisableAST(s, k)
    ensures Inv(HandleDisable(s, k))
  {
    hide Alternating, OneMessage;
    OnlyOneIff(s, k);
    var t := s.(last := Enabled, subs := s.subs[k := Disabling]);
    SameMessages(s, t);
    SendKeeps(t, DisableMsg);
    hide ActivePools;
  }

  lemma DisableKeeps(s: State, k: nat)
    requires Inv(s)
    ensures Inv(HandleDisable(s, k))
  {
    if StatusOf(s, k) == Enabled && ShouldDisableAST(s, k) {
      DisableLast(s, k);
    } else {
      hide Alternating, OneMessage, ActivePools, ShouldDisableAST;
      SameMessages(s, HandleDisable(s, k));
    }
  }

  lemma EnableEchoKeeps(s: State, ok: bool)
    requires Inv(s) && EnableMsg in s.outbox
    ensures Inv(EnableEcho(s, ok))
  {
    var t := EnableEcho(s, ok);
    EchoMessages(s, t, EnableMsg);
    hide Alternating, OneMessage;
  }

  lemma DisableEchoKeeps(s: State, ok: bool)
    requires Inv(s) && DisableMsg in s.outbox
    ensures Inv(DisableEcho(s, ok))
  {
    var t := DisableEcho(s, ok);
    EchoMessages(s, t, DisableMsg);
    hide Alternating, OneMessage;
    forall k | k in t.subs && t.subs[k] == Enabling && ok ensures Enable(k) in t.requests {
      assert Enable(k) in Relaunched(s.subs);
    }
  }

  /** The echo of the one message under way: the module gets where the message asked, or stays on its way. */
  lemma EchoMessages(s: State, t: State, m: Message)
    requires Alternating(s) && OneMessage(s) && m in s.outbox
    requires t.outbox == s.outbox - multiset{m} && t.sent == s.sent
    requires t.mod == s.mod || t.mod == if m == EnableMsg then Enabled else Disabled
    ensures Alternating(t) && OneMessage(t) && s.mod == if m == EnableMsg then Enabling else Disabling
  {
    assert t.outbox == multiset{};
  }

  lemma RequestsKeep(s: State, t: State)
    requires Inv(s) && t == s.(requests := t.requests, stopping := t.stopping, last := t.last)
             && s.requests <= t.requests
    ensures Inv(t)
  {
    hide Alternating, OneMessage;
    SameMessages(s, t);
  }

  /** Every step keeps the invariants, whatever the order of requests and echoes. */
  lemma StepKeeps(s: State, e: Event)
    requires Inv(s) && Possible(s, e)
    ensures Inv(Next(s, e))
  {
    hide EnableEcho, DisableEcho, HandleEnable, HandleDisable, OneMessage, Alternating, EnabledNeedsModule,
         NoLostRequest;
    match e
    case HandleOf(r) => HandleKeeps(s, r);
    case Echo(m, ok) =>
      if m == EnableMsg {
        EnableEchoKeeps(s, ok);
      } else {
        DisableEchoKeeps(s, ok);
      }
    case _ => RequestsKeep(s, Next(s, e));
  }

  lemma HandleKeeps(s: State, r: Request)
    requires Inv(s) && r in s.requests
    ensures Inv(Handle(s, r))
  {
    var t := s.(requests := s.requests - multiset{r});
    SameMessages(s, t);
    hide OneMessage, Alternating, HandleEnable, HandleDisable;
    if r.Enable? {
      EnableKeeps(t, r.pool);
    } else {
      DisableKeeps(t, r.pool);
    }
  }

  // What each step does

  lemma DecidesOnActive(s: State, k: nat)
    requires BatchAtFirst(s)
    ensures ShouldDisableAST(s, k) <==>
              !s.inBatch && k in s.subs && Active(s.subs[k]) && NoOtherActive(s.subs, k)
  {
    OnlyOneIff(s, k);
    hide ShouldDisableAST, ActivePools;
  }

  /**
    A request to disable tells the module to stop if and only if the sub-pool is enabled and no other
    is active; the sub-pool is then disabling. Otherwise the module is left alone: an enabled
    sub-pool is disabled, or disabling while the HUB stops, and an enabling one is disabled.
   */
  lemma DisableMeans(s: State, k: nat)
    requires Inv(s)
    ensures var t := Handle(s, Disable(k));
            var stops := k in s.subs && s.subs[k] == Enabled && NoOtherActive(s.subs, k);
            && (stops ==> t.mod == Disabling && t.sent == s.sent + [DisableMsg]
                          && t.outbox == s.outbox + multiset{DisableMsg} && t.subs == s.subs[k := Disabling])
            && (!stops ==> t.mod == s.mod && t.sent == s.sent && t.outbox == s.outbox)
            && (!stops && k in s.subs ==> t.subs == s.subs[k := Given(s, k)])
            && (k !in s.subs ==>
               && t.subs - {k} == s.subs
               && (k in t.subs <==> !s.inBatch && Active(s.last))
               && (k in t.subs ==> t.subs[k] == if s.stopping && s.last == Enabled then Disabling else Disabled))
  {
    var t := s.(requests := s.requests - multiset{Disable(k)});
    BatchMeansQuiet(s);
    hide Inv;
    DecidesOnActive(t, k);
    hide ShouldDisableAST, NoOtherActive, EnabledNeedsModule, HandleDisable;
    if k in s.subs {
      DisableKnown(t, k);
    } else {
      DisableUnknown(t, k);
    }
  }

  /** What a known sub-pool becomes when it is disabled and the module goes on. */
  function Given(s: State, k: nat): Status
    requires k in s.subs
  {
    match s.subs[k]
    case Enabled => if s.stopping then Disabling else Disabled
    case Enabling => Disabled
    case other => other
  }

  lemma DisableUnknown(s: State, k: nat)
    requires k !in s.subs && !ShouldDisableAST(s, k)
    ensures var t := HandleDisable(s, k);
            && t.mod == s.mod && t.sent == s.sent && t.outbox == s.outbox && t.subs - {k} == s.subs
            && (k in t.subs <==> Active(StatusOf(s, k)))
            && (k in t.subs ==> t.subs[k] == if s.stopping && StatusOf(s, k) == Enabled then Disabling else Disabled)
  {
    hide ShouldDisableAST;
    assert HandleDisable(s, k).subs - {k} == s.subs;
  }

  lemma DisableKnown(s: State, k: nat)
    requires k in s.subs && !s.inBatch
    ensures var t, stops := HandleDisable(s, k), s.subs[k] == Enabled && ShouldDisableAST(s, k);
            && (stops ==> t.mod == Disabling && t.sent == s.sent + [DisableMsg]
                          && t.outbox == s.outbox + multiset{DisableMsg} && t.subs == s.subs[k := Disabling])
            && (!stops ==> t.mod == s.mod && t.sent == s.sent && t.outbox == s.outbox)
            && (!stops ==> t.subs == s.subs[k := Given(s, k)])
  {
    hide ShouldDisableAST;
    assert s.subs[k := s.subs[k]] == s.subs;
  }

  /** A successful echo turns exactly the enabling sub-pools into enabled ones; a failed one changes no status. */
  lemma EnableEchoMeans(s: State, ok: bool)
    requires BatchAtFirst(s)
    ensures var t := EnableEcho(s, ok);
            && t.subs.Keys == s.subs.Keys && t.requests == s.requests && t.sent == s.sent
            && t.mod == (if ok then Enabled else s.mod) && t.stopping == (s.stopping && !ok)
            && forall k :: k in s.subs ==>
                 t.subs[k] == if ok && s.subs[k] == Enabling then Enabled else s.subs[k]
  {
  }

  /**
    A successful echo turns exactly the disabling sub-pools into disabled ones and launches one more
    request for each enabling one; a failed one changes no status.
   */
  lemma DisableEchoMeans(s: State, ok: bool)
    ensures var t := DisableEcho(s, ok);
            && t.subs.Keys == s.subs.Keys && t.sent == s.sent && t.stopping == s.stopping
            && t.mod == (if ok then Disabled else s.mod) && t.inBatch == (s.inBatch && !ok)
            && (forall k :: k in s.subs ==>
                 t.subs[k] == if ok && s.subs[k] == Disabling then Disabled else s.subs[k])
            && (forall r :: t.requests[r] == s.requests[r] + MoreOf(s, r, ok))
  {
    hide Turn;
    forall r ensures DisableEcho(s, ok).requests[r] == s.requests[r] + MoreOf(s, r, ok) {
      if r in Relaunched(s.subs) {
        assert multiset(Relaunched(s.subs))[r] == 1;
      }
    }
    TurnMeans(s.subs, Disabling, Disabled);
  }

  /** How many more requests of a kind a successful echo leaves: one to enable each enabling sub-pool. */
  function MoreOf(s: State, r: Request, ok: bool): nat
  {
    if ok && r.Enable? && r.pool in s.subs && s.subs[r.pool] == Enabling then 1 else 0
  }

  lemma TurnMeans(subs: map<nat, Status>, from: Status, to: Status)
    ensures Turn(subs, from, to).Keys == subs.Keys
    ensures forall k :: k in subs ==> Turn(subs, from, to)[k] == if subs[k] == from then to else subs[k]
  {
  }

  // Whether the module is needed

  /** The module runs for somebody: some sub-pool is enabled, or on its way to be. */
  ghost predicate RunsForSomebody(s: State)
  {
    s.mod == Enabled ==> exists k :: k in s.subs && Active(s.subs[k])
  }

  /** The module has been enabled, and the sub-pools that asked for it have all been disabled in the meantime. */
  ghost predicate EnabledForNobody(s: State, e: Event)
  {
    e == Echo(EnableMsg, true) && forall k :: k in s.subs ==> s.subs[k] != Enabling
  }

  /** Exactly when a module gets to run for nobody. */
  lemma NeededIff(s: State, e: Event)
    requires Inv(s) && Possible(s, e) && RunsForSomebody(s)
    ensures RunsForSomebody(Next(s, e)) <==>
            !EnabledForNobody(s, e)
  {
    match e
    case HandleOf(r) =>
      hide Inv;
      BatchMeansQuiet(s);
      if r.Enable? {
        EnableIsFor(s, r.pool);
      } else {
        DisableLeavesSome(s, r.pool);
      }
    case Echo(m, ok) =>
      if m == EnableMsg {
        EnableEchoMeans(s, ok);
      }
      hide EnableEcho, Alternating, Relaunched;
    case _ =>
  }

  lemma EnableIsFor(s: State, k: nat)
    ensures RunsForSomebody(Handle(s, Enable(k)))
  {
    var t := Handle(s, Enable(k));
    assert k in t.subs && Active(t.subs[k]);
  }

  lemma DisableLeavesSome(s: State, k: nat)
    requires Inv(s) && RunsForSomebody(s)
    ensures RunsForSomebody(Handle(s, Disable(k)))
  {
    DisableMeans(s, k);
    var t := Handle(s, Disable(k));
    hide Handle, Alternating, OneMessage, NoLostRequest;
    if t.mod == Enabled {
      var j :| j in s.subs && Active(s.subs[j]);
      if j == k {
        assert !NoOtherActive(s.subs, k);
        var i :| i in s.subs && i != k && !(s.subs[i] == Disabled || s.subs[i] == Disabling);
        assert i in t.subs && t.subs[i] == s.subs[i];
      } else {
        assert j in t.subs - {k} || k in s.subs;
        assert j in t.subs && t.subs[j] == s.subs[j];
      }
    }
  }

  // A disabled module

  /**
    The one step that leaves a disabled module with a sub-pool in the middle of being disabled:
    a request for an unknown sub-pool while the HUB stops, judged by what was read last.
   */
  predicate StaleWhileStopping(s: State, e: Event)
  {
    e.HandleOf? && e.r.Disable? && s.mod == Disabled && s.stopping && !s.inBatch && e.r.pool !in s.subs
      && s.last == Enabled
  }

  lemma DisabledStaysQuietIff(s: State, e: Event)
    requires Inv(s) && DisabledIsQuiet(s) && Possible(s, e)
    ensures DisabledIsQuiet(Next(s, e)) <==> !StaleWhileStopping(s, e)
  {
    if e.Echo? {
      EchoIsQuiet(s, e.m, e.ok);
    } else if e.HandleOf? {
      HandleIsQuiet(s, e.r);
    }
  }

  lemma EchoIsQuiet(s: State, m: Message, ok: bool)
    requires Inv(s) && DisabledIsQuiet(s) && m in s.outbox
    ensures DisabledIsQuiet(if m == EnableMsg then EnableEcho(s, ok) else DisableEcho(s, ok))
  {
    hide Alternating, Relaunched;
  }

  lemma HandleIsQuiet(s: State, r: Request)
    requires Inv(s) && DisabledIsQuiet(s)
    ensures DisabledIsQuiet(Handle(s, r)) <==> !StaleWhileStopping(s, HandleOf(r))
  {
    var t := s.(requests := s.requests - multiset{r});
    hide Inv;
    if r.Enable? {
      EnableIsQuiet(t, r.pool);
    } else {
      hide HandleDisable;
      BatchMeansQuiet(s);
      DisableIsQuiet(t, r.pool);
    }
  }

  lemma BatchMeansQuiet(s: State)
    requires Inv(s)
    ensures BatchAtFirst(s) && EnabledNeedsModule(s)
  {
  }

  lemma EnableIsQuiet(s: State, k: nat)
    requires DisabledIsQuiet(s)
    ensures DisabledIsQuiet(HandleEnable(s, k))
  {
  }

  lemma DisableIsQuiet(s: State, k: nat)
    requires DisabledIsQuiet(s) && BatchAtFirst(s) && EnabledNeedsModule(s)
    ensures DisabledIsQuiet(HandleDisable(s, k)) <==>
              !(s.mod == Disabled && s.stopping && !s.inBatch && k !in s.subs && s.last == Enabled)
  {
    var t := HandleDisable(s, k);
    if s.mod == Disabled && s.stopping && !s.inBatch && k !in s.subs && s.last == Enabled {
      assert t.subs[k] == Disabling;
    } else if t.mod == Disabled {
      hide ActivePools;
    }
  }

  ghost predicate RunFrom(s: State, states: seq<State>, events: seq<Event>)
  {
    && |states| == |events| + 1 && states[0] == s
    && forall i :: 0 <= i < |events| ==> Possible(states[i], events[i]) && states[i + 1] == Next(states[i], events[i])
  }

  ghost predicate Run(states: seq<State>, events: seq<Event>)
  {
    RunFrom(INITIAL, states, events)
  }

  lemma InitialHolds()
    ensures Inv(INITIAL) && DisabledIsQuiet(INITIAL)
  {
  }

  /**
    The main result, over every run: an enabled sub-pool has an enabled module, messages
    alternate and never overlap, no request to enable is lost, and, up to the one stale step,
    with a disabled module every sub-pool is disabled or waits to be enabled.
   */
  lemma {:induction false} RunKeeps(states: seq<State>, events: seq<Event>, i: nat)
    requires Run(states, events) && i < |states|
    ensures Inv(states[i])
    ensures (forall j :: 0 <= j < i ==> !StaleWhileStopping(states[j], events[j])) ==> DisabledIsQuiet(states[i])
  {
    if i == 0 {
      InitialHolds();
    } else {
      RunKeeps(states, events, i - 1);
      hide Inv, DisabledIsQuiet, StaleWhileStopping, Next, Possible;
      assert states[i - 1 + 1] == Next(states[i - 1], events[i - 1]);
      StepKeeps(states[i - 1], events[i - 1]);
      if DisabledIsQuiet(states[i - 1]) {
        DisabledStaysQuietIff(states[i - 1], events[i - 1]);
      }
    }
  }

  /**
    Over every run, the module runs only while some sub-pool needs it if and only if it never gets
    enabled when those that asked for it no longer want it.
   */
  lemma RunNeededIff(states: seq<State>, events: seq<Event>)
    requires Run(states, events)
    ensures (forall i :: 0 <= i < |states| ==> RunsForSomebody(states[i])) <==>
            (forall i :: 0 <= i < |events| ==> !EnabledForNobody(states[i], events[i]))
  {
    hide RunsForSomebody, EnabledForNobody, Next, Possible;
    if forall i :: 0 <= i < |events| ==> !EnabledForNobody(states[i], events[i]) {
      forall i | 0 <= i < |states| ensures RunsForSomebody(states[i]) {
        NeededUpTo(states, events, i);
      }
    } else {
      var i :| 0 <= i < |events| && EnabledForNobody(states[i], events[i]);
      RunKeeps(states, events, i);
      StepOfRun(states, events, i);
      hide Inv, Run;
      if RunsForSomebody(states[i]) {
        NeededIff(states[i], events[i]);
      }
    }
  }

  lemma {:induction false} NeededUpTo(states: seq<State>, events: seq<Event>, i: nat)
    requires Run(states, events) && i < |states|
    requires forall j :: 0 <= j < |events| ==> !EnabledForNobody(states[j], events[j])
    ensures RunsForSomebody(states[i])
  {
    hide EnabledForNobody, Next, Possible, Inv;
    if i > 0 {
      NeededUpTo(states, events, i - 1);
      RunKeeps(states, events, i - 1);
      StepOfRun(states, events, i - 1);
      NeededIff(states[i - 1], events[i - 1]);
    }
  }

  /** The nine events of a run that ends with the guarded step. */
  function StaleEvents(a: nat, b: nat): seq<Event>
  {
    [Launch(Enable(a)), HandleOf(Enable(a)), Echo(EnableMsg, true), Launch(Disable(a)), HandleOf(Disable(a)),
     Echo(DisableMsg, true), StopHUB, Launch(Disable(b)), HandleOf(Disable(b))]
  }

  /** The states of that run before the last step. */
  function StaleStates(a: nat): seq<State>
  {
    var none, sent := multiset{}, [EnableMsg];
    [INITIAL,
     INITIAL.(requests := multiset{Enable(a)}),
     State(Enabling, false, false, Disabled, map[a := Enabling], none, multiset{EnableMsg}, sent),
     State(Enabled, false, false, Disabled, map[a := Enabled], none, multiset{}, sent),
     State(Enabled, false, false, Disabled, map[a := Enabled], multiset{Disable(a)}, multiset{}, sent),
     State(Disabling, false, false, Enabled, map[a := Disabling], none, multiset{DisableMsg}, [EnableMsg, DisableMsg]),
     State(Disabled, false, false, Enabled, map[a := Disabled], none, multiset{}, [EnableMsg, DisableMsg]),
     State(Disabled, false, true, Enabled, map[a := Disabled], none, multiset{}, [EnableMsg, DisableMsg])]
  }

  lemma EnablingRun(a: nat)
    ensures var st := StaleStates(a);
            && |st| == 8 && Possible(st[0], Launch(Enable(a))) && Next(st[0], Launch(Enable(a))) == st[1]
            && Possible(st[1], HandleOf(Enable(a))) && Next(st[1], HandleOf(Enable(a))) == st[2]
            && Possible(st[2], Echo(EnableMsg, true)) && Next(st[2], Echo(EnableMsg, true)) == st[3]
  {
    var st := StaleStates(a);
    assert Next(st[1], HandleOf(Enable(a))).subs == map[a := Enabling];
    assert Next(st[1], HandleOf(Enable(a))).requests == multiset{};
    assert [] + [EnableMsg] == [EnableMsg];
    assert multiset{} + multiset{EnableMsg} == multiset{EnableMsg};
    assert Turn(map[a := Enabling], Enabling, Enabled) == map[a := Enabled];
  }

  lemma DisablingRun(a: nat)
    ensures var st := StaleStates(a);
            && |st| == 8 && Possible(st[3], Launch(Disable(a))) && Next(st[3], Launch(Disable(a))) == st[4]
            && Possible(st[4], HandleOf(Disable(a))) && Next(st[4], HandleOf(Disable(a))) == st[5]
            && Possible(st[5], Echo(DisableMsg, true)) && Next(st[5], Echo(DisableMsg, true)) == st[6]
            && Possible(st[6], StopHUB) && Next(st[6], StopHUB) == st[7]
  {
    var st := StaleStates(a);
    assert ActivePools(map[a := Enabled]) == {a};
    hide ActivePools;
    assert multiset{} + multiset{Disable(a)} == multiset{Disable(a)};
    assert map[a := Enabled][a := Disabling] == map[a := Disabling];
    assert [EnableMsg] + [DisableMsg] == [EnableMsg, DisableMsg];
    assert Turn(map[a := Disabling], Disabling, Disabled) == map[a := Disabled];
    assert Relaunched(map[a := Disabling]) == {};
  }

  /**
    The guarded step can happen: a run from the initial state that leaves a disabled module with a
    disabling sub-pool.
   */
  lemma StaleStepBreaksQuiet(a: nat, b: nat) returns (states: seq<State>)
    requires a != b
    ensures Run(states, StaleEvents(a, b)) && |states| == 10
    ensures StaleWhileStopping(states[8], HandleOf(Disable(b)))
    ensures states[9].mod == Disabled && b in states[9].subs && states[9].subs[b] == Disabling
  {
    hide StaleStates, Next, Possible, ActivePools;
    StaleShape(a, b);
    var st := StaleStates(a);
    EnablingRun(a);
    DisablingRun(a);
    StaleLastStep(st[7], b);
    var asked := Next(st[7], Launch(Disable(b)));
    states := st + [asked, Next(asked, HandleOf(Disable(b)))];
  }

  lemma StaleShape(a: nat, b: nat)
    requires a != b
    ensures var st := StaleStates(a);
            && |st| == 8 && st[0] == INITIAL && ActivePools(st[7].subs) == {}
            && st[7].mod == Disabled && st[7].stopping && !st[7].inBatch && b !in st[7].subs && st[7].last == Enabled
  {
  }

  lemma StaleLastStep(s: State, k: nat)
    requires s.mod == Disabled && s.stopping && !s.inBatch && k !in s.subs && s.last == Enabled
    requires ActivePools(s.subs) == {}
    ensures Possible(s, Launch(Disable(k)))
    ensures var t := Next(s, Launch(Disable(k)));
            && StaleWhileStopping(t, HandleOf(Disable(k))) && Possible(t, HandleOf(Disable(k)))
            && Next(t, HandleOf(Disable(k))) == s.(subs := s.subs[k := Disabling])
  {
  }

  /** After a failed echo nothing brings the module out of its transition again, whatever is asked. */
  lemma {:induction false} FailedEchoIsFinal(states: seq<State>, events: seq<Event>, i: nat, j: nat)
    requires Run(states, events) && i <= j < |states|
    requires (states[i].mod == Enabling || states[i].mod == Disabling) && states[i].outbox == multiset{}
    ensures states[j].mod == states[i].mod && states[j].outbox == multiset{} && states[j].sent == states[i].sent
  {
    hide Run, Next, Inv, Possible;
    if i < j {
      FailedEchoIsFinal(states, events, i, j - 1);
      RunKeeps(states, events, j - 1);
      LengthOfRun(states, events);
      StepOfRun(states, events, j - 1);
      StuckStays(states[j - 1], events[j - 1]);
    }
  }

  /** A run of three steps from the start that ends with a failed echo: the module is then stuck. */
  lemma FailedEchoReached(a: nat) returns (states: seq<State>, events: seq<Event>)
    ensures Run(states, events) && events == [Launch(Enable(a)), HandleOf(Enable(a)), Echo(EnableMsg, false)]
    ensures |states| == 4 && states[3].mod == Enabling && states[3].outbox == multiset{}
    ensures a in states[3].subs && states[3].subs[a] == Enabling
  {
    EnablingRun(a);
    var st := StaleStates(a);
    var last := st[2].(outbox := multiset{});
    assert Next(st[2], Echo(EnableMsg, false)) == last;
    hide Next, Possible, StaleStates;
    states, events := [st[0], st[1], st[2], last], [Launch(Enable(a)), HandleOf(Enable(a)), Echo(EnableMsg, false)];
  }

  /**
    It does get enabled for nobody: a run of five steps from the start, in which the only sub-pool is
    disabled while the module is still being enabled. A later request to disable no longer stops it.
   */
  lemma UnneededReached(a: nat) returns (states: seq<State>, events: seq<Event>)
    ensures Run(states, events) && |states| == 6
    ensures events == [Launch(Enable(a)), HandleOf(Enable(a)), Launch(Disable(a)), HandleOf(Disable(a)),
                       Echo(EnableMsg, true)]
    ensures states[5].mod == Enabled && states[5].subs == map[a := Disabled] && states[5].outbox == multiset{}
    ensures Handle(states[5], Disable(a)).mod == Enabled && Handle(states[5], Disable(a)).sent == [EnableMsg]
  {
    hide StaleStates, Next, Possible, Handle;
    EnablingRun(a);
    Asking(a);
    var st := StaleStates(a);
    var asked := st[2].(requests := multiset{Disable(a)});
    var off := st[2].(last := Enabling, subs := map[a := Disabled]);
    var on := off.(mod := Enabled, outbox := multiset{});
    UnneededSteps(st[2], a);
    states, events := [st[0], st[1], st[2], asked, off, on],
      [Launch(Enable(a)), HandleOf(Enable(a)), Launch(Disable(a)), HandleOf(Disable(a)), Echo(EnableMsg, true)];
  }

  lemma Asking(a: nat)
    ensures var st := StaleStates(a);
            && |st| == 8 && st[0] == INITIAL
            && st[2] == State(Enabling, false, false, Disabled, map[a := Enabling], multiset{}, multiset{EnableMsg},
                              [EnableMsg])
  {
  }

  lemma UnneededSteps(s: State, a: nat)
    requires s.mod == Enabling && !s.inBatch && s.subs == map[a := Enabling]
    requires s.outbox == multiset{EnableMsg} && s.requests == multiset{} && !s.stopping && s.sent == [EnableMsg]
    ensures var asked := s.(requests := multiset{Disable(a)});
            var off := s.(last := Enabling, subs := map[a := Disabled]);
            var on := off.(mod := Enabled, outbox := multiset{});
            && Possible(s, Launch(Disable(a))) && Next(s, Launch(Disable(a))) == asked
            && Possible(asked, HandleOf(Disable(a))) && Next(asked, HandleOf(Disable(a))) == off
            && Possible(off, Echo(EnableMsg, true)) && Next(off, Echo(EnableMsg, true)) == on
            && Handle(on, Disable(a)).mod == Enabled && Handle(on, Disable(a)).sent == [EnableMsg]
  {
    assert map[a := Enabling][a := Disabled] == map[a := Disabled];
    assert Turn(map[a := Disabled], Enabling, Enabled) == map[a := Disabled];
    hide ActivePools, Turn;
  }

  lemma LengthOfRun(states: seq<State>, events: seq<Event>)
    requires Run(states, events)
    ensures |states| == |events| + 1
  {
  }

  lemma StepOfRun(states: seq<State>, events: seq<Event>, i: nat)
    requires Run(states, events) && i < |events| && |states| == |events| + 1
    ensures Possible(states[i], events[i]) && states[i + 1] == Next(states[i], events[i])
  {
  }

  lemma StuckStays(s: State, e: Event)
    requires Inv(s) && Possible(s, e) && (s.mod == Enabling || s.mod == Disabling) && s.outbox == multiset{}
    ensures Next(s, e).mod == s.mod && Next(s, e).outbox == multiset{} && Next(s, e).sent == s.sent
  {
    hide Alternating, ActivePools, Turn, Relaunched;
  }

  // The last word

  predicate ActiveIn(s: State, k: nat)
  {
    k in s.subs && Active(s.subs[k])
  }

  /** The sub-pool neither needs the module nor has a request on its way that would make it. */
  predicate Silent(s: State, k: nat)
  {
    Enable(k) !in s.requests && !ActiveIn(s, k)
  }

  /** Only its own request to enable makes a sub-pool active, and handling adds no requests. */
  lemma HandlingActivates(s: State, r: Request, k: nat)
    requires r != Enable(k) && !ActiveIn(s, k)
    ensures !ActiveIn(Handle(s, r), k) && Handle(s, r).requests == s.requests - multiset{r}
  {
    hide ActivePools, ShouldDisableAST;
    if r.Enable? {
      hide HandleDisable;
    } else {
      hide HandleEnable;
    }
  }

  /** An echo launches requests for sub-pools that wait, and activates none. */
  lemma EchoActivates(s: State, m: Message, ok: bool, k: nat)
    requires Silent(s, k)
    ensures Silent(if m == EnableMsg then EnableEcho(s, ok) else DisableEcho(s, ok), k)
  {
    assert Enable(k) !in Relaunched(s.subs);
    hide Relaunched;
  }

  /** A silent sub-pool stays silent until somebody asks again to enable it. */
  lemma SilentStays(s: State, e: Event, k: nat)
    requires Silent(s, k) && Possible(s, e) && e != Launch(Enable(k))
    ensures Silent(Next(s, e), k)
  {
    hide Handle, EnableEcho, DisableEcho;
    if e.HandleOf? {
      HandlingActivates(s, e.r, k);
    } else if e.Echo? {
      EchoActivates(s, e.m, e.ok, k);
    }
  }

  /** A handled request to disable leaves the sub-pool inactive. */
  lemma DisabledIsInactive(s: State, k: nat)
    requires BatchAtFirst(s)
    ensures !ActiveIn(HandleDisable(s, k), k) && HandleDisable(s, k).requests == s.requests
  {
    hide ActivePools, ShouldDisableAST;
  }

  /** A handled request to disable silences the sub-pool exactly when no request to enable it is queued. */
  lemma DisableSilencesIff(s: State, k: nat)
    requires Inv(s)
    ensures Silent(Handle(s, Disable(k)), k) <==> Enable(k) !in s.requests
    ensures Enable(k) in Handle(s, Disable(k)).requests <==> Enable(k) in s.requests
  {
    var t := s.(requests := s.requests - multiset{Disable(k)});
    BatchMeansQuiet(s);
    hide Inv, HandleDisable;
    DisabledIsInactive(t, k);
  }

  ghost predicate NotAsked(events: seq<Event>, k: nat)
  {
    forall i :: 0 <= i < |events| ==> events[i] != Launch(Enable(k))
  }

  lemma {:induction false} RunStaysSilent(s: State, states: seq<State>, events: seq<Event>, k: nat, i: nat)
    requires RunFrom(s, states, events) && NotAsked(events, k) && Silent(s, k) && i < |states|
    ensures Silent(states[i], k)
  {
    if i > 0 {
      RunStaysSilent(s, states, events, k, i - 1);
      assert states[i - 1 + 1] == Next(states[i - 1], events[i - 1]) && Possible(states[i - 1], events[i - 1]);
      hide Next, Possible, Silent, RunFrom;
      SilentStays(states[i - 1], events[i - 1], k);
    }
  }

  /** Handling a queued request to enable makes the sub-pool active again. */
  lemma QueuedEnableActivates(s: State, k: nat)
    ensures ActiveIn(Handle(s, Enable(k)), k)
  {
  }

  /** Over every run in which nobody asks to enable the sub-pool, it never becomes active. */
  ghost predicate OffForGood(s: State, k: nat)
  {
    forall states, events :: RunFrom(s, states, events) && NotAsked(events, k) ==> !ActiveIn(states[|events|], k)
  }

  /**
    Exactly when the last word is kept: a handled request to disable is final, as long as nobody
    asks again, if and only if no request to enable the sub-pool is queued.
   */
  lemma DisableIsFinalIff(s: State, k: nat)
    requires Inv(s)
    ensures OffForGood(Handle(s, Disable(k)), k) <==> Enable(k) !in s.requests
  {
    hide Inv, Handle, OffForGood;
    var t := Handle(s, Disable(k));
    DisableSilencesIff(s, k);
    if Enable(k) !in s.requests {
      SilentIsOff(t, k);
    } else {
      QueuedIsNotOff(t, k);
    }
  }

  lemma SilentIsOff(s: State, k: nat)
    requires Silent(s, k)
    ensures OffForGood(s, k)
  {
    hide Next, Possible;
    forall states, events | RunFrom(s, states, events) && NotAsked(events, k) ensures !ActiveIn(states[|events|], k) {
      RunStaysSilent(s, states, events, k, |events|);
    }
  }

  lemma QueuedIsNotOff(s: State, k: nat)
    requires Enable(k) in s.requests
    ensures !OffForGood(s, k)
  {
    QueuedEnableActivates(s, k);
    var states, events := [s, Handle(s, Enable(k))], [HandleOf(Enable(k))];
    hide Handle;
    assert RunFrom(s, states, events) && NotAsked(events, k) && ActiveIn(states[|events|], k);
  }

  /**
    Such a request need not be anybody's last word: a sub-pool that asked while the module was
    being disabled has one launched for it by the echo, and a disable handled next is undone by it.
   */
  lemma RelaunchUndoesDisable(s: State, k: nat)
    requires Inv(s) && s.mod == Disabling && DisableMsg in s.outbox && k in s.subs && s.subs[k] == Enabling
    ensures var t := DisableEcho(s, true);
            Inv(t) && Enable(k) in t.requests && !OffForGood(Handle(t, Disable(k)), k)
  {
    DisableEchoKeeps(s, true);
    assert Enable(k) in Relaunched(s.subs);
    assert Enable(k) in DisableEcho(s, true).requests;
    hide DisableEcho, Handle, Inv, OffForGood;
    DisableIsFinalIff(DisableEcho(s, true), k);
  }
}
