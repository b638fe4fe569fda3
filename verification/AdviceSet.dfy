/**
  The advice set: one list per tier, walked so that the tiers take turns.

  The reference is the schedule of slots in rounds: round r takes the r-th advice of every
  tier that still has one, lowest tier first.
 */
module AdviceSet {
  import opened Common

  const TIER_NUM: nat := 3

  datatype Advice = Advice(id: nat, flags: set<nat>)

  datatype Slot = Slot(tier: nat, index: nat)

  function Longest(sizes: seq<nat>): (m: nat)
    ensures forall t :: 0 <= t < |sizes| ==> sizes[t] <= m
  {
    if sizes == [] then 0
    else
      var m := Longest(sizes[..|sizes| - 1]);
      if sizes[|sizes| - 1] > m then sizes[|sizes| - 1] else m
  }

  /** Round r, from tier t on. */
  function Row(sizes: seq<nat>, r: nat, t: nat): seq<Slot>
    decreases |sizes| - t
  {
    if t >= |sizes| then []
    else (if r < sizes[t] then [Slot(t, r)] else []) + Row(sizes, r, t + 1)
  }

  /** All rounds from r on. */
  function Rounds(sizes: seq<nat>, r: nat): seq<Slot>
    decreases Longest(sizes) - r
  {
    if r >= Longest(sizes) then [] else Row(sizes, r, 0) + Rounds(sizes, r + 1)
  }

  /** The slots of one tier among the given ones, in order. */
  function OfTier(slots: seq<Slot>, t: nat): seq<Slot>
  {
    if slots == [] then []
    else (if slots[0].tier == t then [slots[0]] else []) + OfTier(slots[1..], t)
  }

  lemma {:induction false} OfTierConcat(a: seq<Slot>, b: seq<Slot>, t: nat)
    ensures OfTier(a + b, t) == OfTier(a, t) + OfTier(b, t)
  {
    if a == [] {
      assert a + b == b;
    } else {
      OfTierConcat(a[1..], b, t);
      assert (a + b)[1..] == a[1..] + b && (a + b)[0] == a[0];
      Associative(if a[0].tier == t then [a[0]] else [], OfTier(a[1..], t), OfTier(b, t));
    }
  }

  lemma {:induction false} RowOfTier(sizes: seq<nat>, r: nat, from: nat, t: nat)
    ensures OfTier(Row(sizes, r, from), t) == if from <= t < |sizes| && r < sizes[t] then [Slot(t, r)] else []
    decreases |sizes| - from
  {
    if from < |sizes| {
      RowOfTier(sizes, r, from + 1, t);
      OfTierConcat(if r < sizes[from] then [Slot(from, r)] else [], Row(sizes, r, from + 1), t);
    }
  }

  /** What tier t contributes from round r on: its own advices r, r + 1, ... in order, each once. */
  lemma {:induction false} RoundsOfTier(sizes: seq<nat>, r: nat, t: nat)
    requires t < |sizes|
    ensures var own := OfTier(Rounds(sizes, r), t);
            && |own| == (if r < sizes[t] then sizes[t] - r else 0)
            && forall k :: 0 <= k < |own| ==> own[k] == Slot(t, r + k)
    decreases Longest(sizes) - r
  {
    if r < Longest(sizes) {
      RoundsOfTier(sizes, r + 1, t);
      RowOfTier(sizes, r, 0, t);
      OfTierConcat(Row(sizes, r, 0), Rounds(sizes, r + 1), t);
    }
  }

  lemma {:induction false} OfTierMember(slots: seq<Slot>, s: Slot, t: nat)
    ensures s in OfTier(slots, t) <==> s in slots && s.tier == t
    ensures multiset(OfTier(slots, t))[s] == if s.tier == t then multiset(slots)[s] else 0
  {
    if slots != [] {
      OfTierMember(slots[1..], s, t);
      assert slots == [slots[0]] + slots[1..];
    }
  }

  lemma {:induction false} RowTiers(sizes: seq<nat>, r: nat, from: nat, s: Slot)
    ensures s in Row(sizes, r, from) ==> s.tier < |sizes| && s.index < sizes[s.tier]
    decreases |sizes| - from
  {
    if from < |sizes| {
      RowTiers(sizes, r, from + 1, s);
    }
  }

  lemma {:induction false} RoundsTiers(sizes: seq<nat>, r: nat, s: Slot)
    ensures s in Rounds(sizes, r) ==> s.tier < |sizes| && s.index < sizes[s.tier]
    decreases Longest(sizes) - r
  {
    if r < Longest(sizes) {
      RoundsTiers(sizes, r + 1, s);
      RowTiers(sizes, r, 0, s);
    }
  }

  lemma {:induction false} CountInRun(own: seq<Slot>, t: nat, s: Slot)
    requires forall k :: 0 <= k < |own| ==> own[k] == Slot(t, k)
    ensures multiset(own)[s] == if s.tier == t && s.index < |own| then 1 else 0
  {
    if own != [] {
      var n := |own| - 1;
      CountInRun(own[..n], t, s);
      assert own == own[..n] + [own[n]];
    }
  }

  /** The whole schedule holds exactly the existing slots, each exactly once. */
  lemma EachSlotOnce(sizes: seq<nat>, s: Slot)
    ensures multiset(Rounds(sizes, 0))[s] == if s.tier < |sizes| && s.index < sizes[s.tier] then 1 else 0
  {
    hide Rounds, OfTier;
    RoundsTiers(sizes, 0, s);
    if s.tier < |sizes| {
      RoundsOfTier(sizes, 0, s.tier);
      OfTierMember(Rounds(sizes, 0), s, s.tier);
      CountInRun(OfTier(Rounds(sizes, 0), s.tier), s.tier, s);
    }
  }

  /** Slot a has its turn before slot b: in an earlier round, or as a lower tier in the same round. */
  predicate Earlier(a: Slot, b: Slot)
  {
    a.index < b.index || (a.index == b.index && a.tier < b.tier)
  }

  predicate InTurn(slots: seq<Slot>)
  {
    forall p, q :: 0 <= p < q < |slots| ==> Earlier(slots[p], slots[q])
  }

  lemma {:induction false} RowInTurn(sizes: seq<nat>, r: nat, from: nat)
    ensures InTurn(Row(sizes, r, from))
    ensures forall s :: s in Row(sizes, r, from) ==> s.index == r && s.tier >= from
    decreases |sizes| - from
  {
    if from < |sizes| {
      RowInTurn(sizes, r, from + 1);
    }
  }

  /** The schedule goes round by round, and in each round from the lowest tier to the highest. */
  lemma {:induction false} RoundsInTurn(sizes: seq<nat>, r: nat)
    ensures InTurn(Rounds(sizes, r))
    ensures forall s :: s in Rounds(sizes, r) ==> s.index >= r
    decreases Longest(sizes) - r
  {
    if r < Longest(sizes) {
      RowInTurn(sizes, r, 0);
      RoundsInTurn(sizes, r + 1);
      hide Row, Longest;
    }
  }

  /** The closed form of the walk: which tiers have had their turn in round r. */
  ghost predicate At(sizes: seq<nat>, chosen: seq<nat>, last: nat, r: nat)
  {
    && |sizes| == |chosen| == TIER_NUM
    && last < TIER_NUM && r < sizes[last]
    && forall t :: 0 <= t < TIER_NUM ==> chosen[t] == Min(sizes[t], if t <= last then r + 1 else r)
  }

  /** What is still to come after the turn of tier `last` in round r. */
  function Remaining(sizes: seq<nat>, last: nat, r: nat): seq<Slot>
  {
    Row(sizes, r, last + 1) + Rounds(sizes, r + 1)
  }

  /** Two tiers that both have advices left differ by at most one turn. */
  lemma TurnsAreFair(sizes: seq<nat>, chosen: seq<nat>, last: nat, r: nat, t: nat, u: nat)
    requires At(sizes, chosen, last, r)
    requires t < u < TIER_NUM && chosen[t] < sizes[t] && chosen[u] < sizes[u]
    ensures chosen[u] <= chosen[t] <= chosen[u] + 1
  {
  }

  lemma {:induction false} RowSkips(sizes: seq<nat>, r: nat, from: nat, t: nat)
    requires from <= t <= |sizes|
    requires forall i :: from <= i < t ==> sizes[i] <= r
    ensures Row(sizes, r, from) == Row(sizes, r, t)
    decreases t - from
  {
    if from < t {
      RowSkips(sizes, r, from + 1, t);
    }
  }

  /** The first tier that has a turn in round r comes first in what is left of the round. */
  lemma RowAt(sizes: seq<nat>, r: nat, from: nat, t: nat)
    requires from <= t < |sizes| && r < sizes[t]
    requires forall i :: from <= i < t ==> sizes[i] <= r
    ensures Row(sizes, r, from) == [Slot(t, r)] + Row(sizes, r, t + 1)
  {
    RowSkips(sizes, r, from, t);
  }

  lemma NothingLeft(sizes: seq<nat>, r: nat)
    requires forall t :: 0 <= t < |sizes| ==> sizes[t] <= r
    ensures Rounds(sizes, r) == []
  {
    LongestReached(sizes);
  }

  lemma {:induction false} LongestReached(sizes: seq<nat>)
    ensures sizes != [] ==> exists t :: 0 <= t < |sizes| && sizes[t] == Longest(sizes)
    ensures sizes == [] ==> Longest(sizes) == 0
  {
    if |sizes| > 0 {
      var n := |sizes| - 1;
      LongestReached(sizes[..n]);
      if n > 0 && sizes[n] <= Longest(sizes[..n]) {
        var t :| 0 <= t < n && sizes[..n][t] == Longest(sizes[..n]);
        assert sizes[t] == Longest(sizes);
      }
    }
  }

  lemma RoundsUnfold(sizes: seq<nat>, r: nat, t: nat)
    requires t < |sizes| && r < sizes[t]
    ensures Rounds(sizes, r) == Row(sizes, r, 0) + Rounds(sizes, r + 1)
  {
  }

  /** The next turn in the same round. */
  lemma NextInRound(sizes: seq<nat>, last: nat, r: nat, t: nat)
    requires last < t < |sizes| && r < sizes[t]
    requires forall i :: last < i < t ==> sizes[i] <= r
    ensures Remaining(sizes, last, r) == [Slot(t, r)] + Remaining(sizes, t, r)
  {
    hide Rounds, Longest, Row;
    RowAt(sizes, r, last + 1, t);
  }

  /** The first turn of the next round. */
  lemma NextRound(sizes: seq<nat>, last: nat, r: nat, t: nat)
    requires t <= last < |sizes| && r + 1 < sizes[t]
    requires forall i :: last < i < |sizes| ==> sizes[i] <= r
    requires forall i :: 0 <= i < t ==> sizes[i] <= r + 1
    ensures Remaining(sizes, last, r) == [Slot(t, r + 1)] + Remaining(sizes, t, r + 1)
  {
    RowSkips(sizes, r, last + 1, |sizes|);
    assert Row(sizes, r, last + 1) == [];
    hide Rounds, Longest, Row;
    RoundsUnfold(sizes, r + 1, t);
    RowAt(sizes, r + 1, 0, t);
  }

  /** The walk ends when no tier has an advice left. */
  lemma NoTurnLeft(sizes: seq<nat>, last: nat, r: nat)
    requires last < |sizes|
    requires forall i :: last < i < |sizes| ==> sizes[i] <= r
    requires forall i :: 0 <= i <= last ==> sizes[i] <= r + 1
    ensures Remaining(sizes, last, r) == []
  {
    RowSkips(sizes, r, last + 1, |sizes|);
    NothingLeft(sizes, r + 1);
  }

  /** One turn of the walk, from the counters the code keeps: it takes the next slot of the schedule. */
  lemma TurnTaken(sizes: seq<nat>, chosen: seq<nat>, last: nat, r: nat, t: nat)
    requires At(sizes, chosen, last, r) && t < TIER_NUM && chosen[t] < sizes[t]
    requires t > last ==> forall i :: last < i < t ==> sizes[i] <= chosen[i]
    requires t <= last ==> forall i :: (last < i < TIER_NUM || 0 <= i < t) ==> sizes[i] <= chosen[i]
    ensures var r' := if t > last then r else r + 1;
            && chosen[t] == r'
            && Remaining(sizes, last, r) == [Slot(t, r')] + Remaining(sizes, t, r')
            && At(sizes, chosen[t := r' + 1], t, r')
  {
    hide Remaining;
    if t > last {
      NextInRound(sizes, last, r, t);
    } else {
      NextRound(sizes, last, r, t);
    }
  }

  lemma NoTurnTaken(sizes: seq<nat>, chosen: seq<nat>, last: nat, r: nat)
    requires At(sizes, chosen, last, r)
    requires forall i :: 0 <= i < TIER_NUM ==> sizes[i] <= chosen[i]
    ensures Remaining(sizes, last, r) == []
  {
    NoTurnLeft(sizes, last, r);
  }

  lemma FirstTurn(sizes: seq<nat>, t: nat)
    requires t < |sizes| && 0 < sizes[t]
    requires forall i :: 0 <= i < t ==> sizes[i] == 0
    ensures Rounds(sizes, 0) == [Slot(t, 0)] + Remaining(sizes, t, 0)
  {
    hide Rounds, Longest;
    RoundsUnfold(sizes, 0, t);
    RowAt(sizes, 0, 0, t);
  }

  function Sizes(advise: seq<seq<Advice>>): seq<nat>
  {
    seq(|advise|, t requires 0 <= t < |advise| => |advise[t]|)
  }

  /** The advices the slots stand for; slots that do not exist stand for nothing. */
  function Fetch(advise: seq<seq<Advice>>, slots: seq<Slot>): seq<Advice>
  {
    if slots == [] then []
    else
      var s := slots[0];
      (if s.tier < |advise| && s.index < |advise[s.tier]| then [advise[s.tier][s.index]] else [])
        + Fetch(advise, slots[1..])
  }

  lemma FetchNone(advise: seq<seq<Advice>>)
    ensures Fetch(advise, []) == []
  {
  }

  lemma FetchCons(advise: seq<seq<Advice>>, s: Slot, rest: seq<Slot>)
    requires s.tier < |advise| && s.index < |advise[s.tier]|
    ensures Fetch(advise, [s] + rest) == [advise[s.tier][s.index]] + Fetch(advise, rest)
  {
    assert ([s] + rest)[1..] == rest;
  }

  /** Slots that exist stand for one advice each. */
  lemma {:induction false} FetchIs(advise: seq<seq<Advice>>, slots: seq<Slot>)
    requires forall s :: s in slots ==> s.tier < |advise| && s.index < |advise[s.tier]|
    ensures |Fetch(advise, slots)| == |slots|
    ensures forall k :: 0 <= k < |slots| ==> Fetch(advise, slots)[k] == advise[slots[k].tier][slots[k].index]
  {
    if slots != [] {
      FetchIs(advise, slots[1..]);
    }
  }

  /** What the whole schedule stands for, one advice for each turn. */
  lemma ScheduleOf(advise: seq<seq<Advice>>)
    ensures var slots, out := Rounds(Sizes(advise), 0), Fetch(advise, Rounds(Sizes(advise), 0));
            && |out| == |slots| && InTurn(slots)
            && forall k :: 0 <= k < |slots| ==>
                 && slots[k].tier < |advise| && slots[k].index < |advise[slots[k].tier]|
                 && out[k] == advise[slots[k].tier][slots[k].index]
  {
    var slots := Rounds(Sizes(advise), 0);
    forall s | s in slots ensures s.tier < |advise| && s.index < |advise[s.tier]| {
      RoundsTiers(Sizes(advise), 0, s);
    }
    RoundsInTurn(Sizes(advise), 0);
    hide Rounds, Sizes, Earlier;
    FetchIs(advise, slots);
    hide Fetch;
  }

  class TierBasedAdviceSet {
    var advise: seq<seq<Advice>>
    var it2: seq<nat>
    var chosen: seq<nat>
    var lastChosenTier: nat
    ghost var round: nat

    ghost predicate Shape()
      reads this
    {
      |advise| == |it2| == |chosen| == TIER_NUM && lastChosenTier <= TIER_NUM
    }

    /** Either no walk is under way, or it is at the turn of lastChosenTier in the current round. */
    ghost predicate Valid()
      reads this
    {
      && Shape()
      && (lastChosenTier < TIER_NUM ==> it2 == chosen && At(Sizes(advise), chosen, lastChosenTier, round))
    }

    ghost function Rest(): seq<Advice>
      reads this
      requires Valid()
    {
      if lastChosenTier == TIER_NUM then [] else Fetch(advise, Remaining(Sizes(advise), lastChosenTier, round))
    }

    constructor ()
      ensures Valid() && advise == [[], [], []] && Rest() == []
    {
      advise, it2, chosen := [[], [], []], [0, 0, 0], [0, 0, 0];
      lastChosenTier := TIER_NUM;
    }

    /** Adding belongs to building the set, not to a walk that is under way. */
    method AddAdvice(tier: nat, advice: Advice)
      requires Shape() && tier < TIER_NUM
      modifies this`advise
      ensures Shape() && |advise| == TIER_NUM && advise == old(advise)[tier := old(advise)[tier] + [advice]]
      ensures lastChosenTier == TIER_NUM ==> Valid()
    {
      advise := advise[tier := advise[tier] + [advice]];
    }

    method GetFirstTier() returns (tier: nat)
      requires Shape()
      modifies this`lastChosenTier
      ensures tier <= TIER_NUM && lastChosenTier == tier
      ensures forall i :: 0 <= i < tier ==> advise[i] == []
      ensures tier < TIER_NUM ==> advise[tier] != []
    {
      tier := 0;
      while tier < TIER_NUM && advise[tier] == []
        invariant tier <= TIER_NUM
        invariant forall i :: 0 <= i < tier ==> advise[i] == []
      {
        tier := tier + 1;
      }
      lastChosenTier := tier;
    }

    predicate Spent(t: nat)
      reads `advise, `chosen
      requires t < |advise| && t < |chosen|
    {
      advise[t] == [] || |advise[t]| <= chosen[t]
    }

    /** The next tier after the last one, wrapping round once; TIER_NUM when all are spent. */
    method GetNextTier() returns (tier: nat)
      requires Shape()
      modifies this`lastChosenTier
      ensures tier <= TIER_NUM && lastChosenTier == tier
      ensures old(lastChosenTier) == TIER_NUM ==> tier == TIER_NUM
      ensures old(lastChosenTier) < TIER_NUM ==>
                && (tier < TIER_NUM ==> !Spent(tier))
                && (tier > old(lastChosenTier) ==> forall i :: old(lastChosenTier) < i < tier ==> Spent(i))
                && (tier <= old(lastChosenTier) ==> forall i ::
                   (old(lastChosenTier) < i < TIER_NUM || 0 <= i < tier) ==> Spent(i))
                && (tier == TIER_NUM ==> forall i :: 0 <= i < TIER_NUM ==> Spent(i))
    {
      var cur := lastChosenTier + 1;
      if TIER_NUM < cur {
        return TIER_NUM;
      }
      while cur < TIER_NUM && Spent(cur)
        invariant lastChosenTier < cur <= TIER_NUM
        invariant forall i :: lastChosenTier < i < cur ==> Spent(i)
      {
        cur := cur + 1;
      }
      if cur == TIER_NUM {
        cur := 0;
        while cur < lastChosenTier && Spent(cur)
          invariant 0 <= cur <= lastChosenTier
          invariant forall i :: 0 <= i < cur ==> Spent(i)
        {
          cur := cur + 1;
        }
      }
      if Spent(cur) {
        cur := TIER_NUM;
      }
      lastChosenTier := cur;
      tier := cur;
    }

    method GetFirstAdvice() returns (advice: Option<Advice>)
      requires Shape()
      modifies this`lastChosenTier, this`it2, this`chosen, this`round
      ensures Valid()
      ensures match advice
              case None => Fetch(advise, Rounds(Sizes(advise), 0)) == [] && Rest() == []
              case Some(a) => Fetch(advise, Rounds(Sizes(advise), 0)) == [a] + Rest()
    {
      hide Fetch, Remaining;
      lastChosenTier := TIER_NUM;
      it2, chosen := [0, 0, 0], [0, 0, 0];
      var first := GetFirstTier();
      if first != TIER_NUM {
        advice := Some(advise[first][it2[first]]);
        chosen := chosen[first := chosen[first] + 1];
        it2 := it2[first := it2[first] + 1];
        round := 0;
        FirstTurn(Sizes(advise), first);
        FetchCons(advise, Slot(first, 0), Remaining(Sizes(advise), first, 0));
      } else {
        advice := None;
        NothingLeft(Sizes(advise), 0);
        FetchNone(advise);
      }
    }

    method GetNextAdvice() returns (advice: Option<Advice>)
      requires Valid()
      modifies this`lastChosenTier, this`it2, this`chosen, this`round
      ensures Valid()
      ensures match advice
              case None => old(Rest()) == [] && Rest() == []
              case Some(a) => old(Rest()) == [a] + Rest()
    {
      ghost var last, sizes := lastChosenTier, Sizes(advise);
      hide Fetch, Remaining, At;
      var next := GetNextTier();
      forall i | 0 <= i < TIER_NUM ensures Spent(i) <==> sizes[i] <= chosen[i] {
      }
      if 0 <= next < TIER_NUM {
        TurnTaken(sizes, chosen, last, round, next);
        advice := Some(advise[next][it2[next]]);
        if next <= last {
          round := round + 1;
        }
        FetchCons(advise, Slot(next, round), Remaining(sizes, next, round));
        chosen := chosen[next := chosen[next] + 1];
        it2 := it2[next := it2[next] + 1];
      } else {
        advice := None;
        if last < TIER_NUM {
          NoTurnTaken(sizes, chosen, last, round);
          FetchNone(advise);
        }
      }
    }

    /** The caller's loop: the walk hands out the whole schedule, round by round. */
    method Walk() returns (out: seq<Advice>)
      requires Shape()
      modifies this`lastChosenTier, this`it2, this`chosen, this`round
      ensures Valid() && Rest() == []
      ensures out == Fetch(advise, Rounds(Sizes(advise), 0))
      ensures var slots := Rounds(Sizes(advise), 0);
              && |out| == |slots| && InTurn(slots)
              && forall k :: 0 <= k < |slots| ==>
                   && slots[k].tier < |advise| && slots[k].index < |advise[slots[k].tier]|
                   && out[k] == advise[slots[k].tier][slots[k].index]
    {
      ScheduleOf(advise);
      hide Fetch, Rounds, Sizes, Valid, Rest;
      ghost var walk := Fetch(advise, Rounds(Sizes(advise), 0));
      out := [];
      var advice := GetFirstAdvice();
      while advice.Some?
        invariant Valid()
        invariant advice.Some? ==> walk == out + ([advice.value] + Rest())
        invariant advice.None? ==> walk == out && Rest() == []
        decreases |walk| - |out|
      {
        out := out + [advice.value];
        advice := GetNextAdvice();
      }
    }

    /** From here on, the first advice whose flag is as wanted; what lies before it is passed over. */
    ghost predicate Finds(walk: seq<Advice>, flag: nat, wanted: bool, advice: Option<Advice>, rest: seq<Advice>)
    {
      match advice
      case None => rest == [] && forall a :: a in walk ==> (flag in a.flags) != wanted
      case Some(a) => exists k: nat :: SplitAt(walk, k, a, rest) && (flag in a.flags) == wanted
                                  && forall b :: b in walk[..k] ==> (flag in b.flags) != wanted
    }

    static ghost predicate SplitAt(walk: seq<Advice>, k: nat, a: Advice, rest: seq<Advice>)
    {
      k < |walk| && walk[k] == a && rest == walk[k + 1..]
    }

    method GetNextAdviceSatisfy(flag: nat, wanted: bool) returns (advice: Option<Advice>)
      requires Valid()
      modifies this`lastChosenTier, this`it2, this`chosen, this`round
      ensures Valid() && Finds(old(Rest()), flag, wanted, advice, Rest())
    {
      hide Valid, Rest;
      ghost var walk := Rest();
      advice := GetNextAdvice();
      advice := SkipUnwanted(flag, wanted, advice, walk);
    }

    method GetFirstAdviceSatisfy(flag: nat, wanted: bool) returns (advice: Option<Advice>)
      requires Shape()
      modifies this`lastChosenTier, this`it2, this`chosen, this`round
      ensures Valid() && Finds(Fetch(advise, Rounds(Sizes(advise), 0)), flag, wanted, advice, Rest())
    {
      hide Valid, Rest, Fetch, Rounds, Sizes;
      ghost var walk := Fetch(advise, Rounds(Sizes(advise), 0));
      advice := GetFirstAdvice();
      advice := SkipUnwanted(flag, wanted, advice, walk);
    }

    /** The loop both searches share. */
    method SkipUnwanted(flag: nat, wanted: bool, start: Option<Advice>, ghost walk: seq<Advice>)
      returns (advice: Option<Advice>)
      requires Valid()
      requires match start case None => walk == [] && Rest() == [] case Some(a) => walk == [a] + Rest()
      modifies this`lastChosenTier, this`it2, this`chosen, this`round
      ensures Valid() && Finds(walk, flag, wanted, advice, Rest())
    {
      hide Valid, Rest;
      advice := start;
      ghost var k := 0;
      while advice.Some?
        invariant Valid() && k <= |walk|
        invariant forall b :: b in walk[..k] ==> (flag in b.flags) != wanted
        invariant advice.Some? ==> SplitAt(walk, k, advice.value, Rest())
        invariant advice.None? ==> k == |walk| && Rest() == []
        decreases |walk| - k
      {
        if wanted == (flag in advice.value.flags) {
          return;
        }
        assert walk[..k + 1] == walk[..k] + [walk[k]];
        assert walk[k + 1..] == Rest();
        advice := GetNextAdvice();
        k := k + 1;
      }
    }
  }
}
