/**
  Objects ordered by one heat key, and what a sorted run of them is.

  The comparators of the heat distribution are modelled by a single key per object
  and a direction: the hot walk wants the largest heat first, the cold walk the
  smallest. Ties may come out in any order, as with the sort the source calls.
 */
module HeatOrder {

  datatype Obj = Obj(id: nat, heat: nat)

  datatype Direction = Hot | Cold

  /** Heat a may be handed out before heat b. */
  predicate Before(dir: Direction, a: nat, b: nat)
  {
    match dir
    case Hot => a >= b
    case Cold => a <= b
  }

  ghost predicate OrderedKeys(dir: Direction, s: seq<nat>)
  {
    forall i, j :: 0 <= i < j < |s| ==> Before(dir, s[i], s[j])
  }

  ghost predicate Ordered(dir: Direction, s: seq<Obj>)
  {
    forall i, j :: 0 <= i < j < |s| ==> Before(dir, s[i].heat, s[j].heat)
  }

  function Heats(s: seq<Obj>): (h: seq<nat>)
    ensures |h| == |s|
    ensures forall i :: 0 <= i < |s| ==> h[i] == s[i].heat
  {
    seq(|s|, i requires 0 <= i < |s| => s[i].heat)
  }

  lemma HeatsConcat(a: seq<Obj>, b: seq<Obj>)
    ensures Heats(a + b) == Heats(a) + Heats(b)
  {
  }

  lemma MultisetOfCut<T>(s: seq<T>, k: nat)
    requires k < |s|
    ensures multiset(s) == multiset(s[..k] + s[k + 1..]) + multiset{s[k]}
  {
    assert s == s[..k] + [s[k]] + s[k + 1..];
  }

  lemma CutBoth<T>(a: seq<T>, i: nat, b: seq<T>, j: nat)
    requires i < |a| && j < |b| && a[i] == b[j] && multiset(a) == multiset(b)
    ensures multiset(a[..i] + a[i + 1..]) == multiset(b[..j] + b[j + 1..])
  {
    MultisetOfCut(a, i);
    MultisetOfCut(b, j);
    var ca, cb := multiset(a[..i] + a[i + 1..]), multiset(b[..j] + b[j + 1..]);
    assert ca == (ca + multiset{a[i]}) - multiset{a[i]};
    assert cb == (cb + multiset{a[i]}) - multiset{a[i]};
  }

  lemma HeatsOfCut(s: seq<Obj>, k: nat)
    requires k < |s|
    ensures multiset(Heats(s)) == multiset(Heats(s[..k] + s[k + 1..])) + multiset{s[k].heat}
  {
    assert Heats(s[..k] + s[k + 1..]) == Heats(s)[..k] + Heats(s)[k + 1..];
    MultisetOfCut(Heats(s), k);
  }

  /** Rearranging objects rearranges their heats. */
  lemma {:induction false} HeatsPermute(a: seq<Obj>, b: seq<Obj>)
    requires multiset(a) == multiset(b)
    ensures multiset(Heats(a)) == multiset(Heats(b))
  {
    if a == [] {
      assert |multiset(b)| == 0;
      assert b == [];
    } else {
      assert a[0] in multiset(b);
      var k :| 0 <= k < |b| && b[k] == a[0];
      CutBoth(a, 0, b, k);
      HeatsOfCut(a, 0);
      HeatsOfCut(b, k);
      HeatsPermute(a[..0] + a[1..], b[..k] + b[k + 1..]);
    }
  }

  /**
    An ordered run that no remaining key may precede is the front of every
    complete ordering. With nothing remaining, two orderings of one bag agree.
   */
  lemma {:induction false} PrefixOfFullSort(dir: Direction, run: seq<nat>, rest: multiset<nat>, full: seq<nat>)
    requires OrderedKeys(dir, run) && OrderedKeys(dir, full)
    requires multiset(full) == multiset(run) + rest
    requires forall x, y :: x in run && y in rest ==> Before(dir, x, y)
    ensures |run| <= |full| && full[..|run|] == run
  {
    if run != [] {
      SameHead(dir, run, rest, full);
      Uncons(run);
      Uncons(full);
      PrefixOfFullSort(dir, run[1..], rest, full[1..]);
    }
  }

  lemma Uncons<T>(s: seq<T>)
    requires s != []
    ensures multiset(s[1..]) == multiset(s) - multiset{s[0]}
    ensures s == [s[0]] + s[1..]
    ensures multiset(s) == multiset{s[0]} + multiset(s[1..])
  {
    assert s == [s[0]] + s[1..];
  }

  lemma SameHead(dir: Direction, run: seq<nat>, rest: multiset<nat>, full: seq<nat>)
    requires OrderedKeys(dir, run) && OrderedKeys(dir, full)
    requires multiset(full) == multiset(run) + rest
    requires forall x, y :: x in run && y in rest ==> Before(dir, x, y)
    requires run != []
    ensures full != [] && full[0] == run[0]
  {
    assert run[0] in multiset(full);
    var i :| 0 <= i < |full| && full[i] == run[0];
    assert full[0] in multiset(full);
    assert full[0] in multiset(run) || full[0] in rest;
    assert Before(dir, full[0], run[0]);
    assert Before(dir, run[0], full[0]);
  }

  /** Inserts x into an ordered run. */
  method Insert(dir: Direction, s: seq<Obj>, x: Obj) returns (t: seq<Obj>)
    requires Ordered(dir, s)
    ensures Ordered(dir, t) && multiset(t) == multiset(s) + multiset{x}
  {
    var k := 0;
    while k < |s| && Before(dir, s[k].heat, x.heat)
      invariant 0 <= k <= |s|
      invariant forall i :: 0 <= i < k ==> Before(dir, s[i].heat, x.heat)
    {
      k := k + 1;
    }
    t := s[..k] + [x] + s[k..];
    Inserted(dir, s, k, x);
    hide Ordered;
    assert s == s[..k] + s[k..];
  }

  lemma Inserted(dir: Direction, s: seq<Obj>, k: nat, x: Obj)
    requires Ordered(dir, s) && k <= |s|
    requires forall i :: 0 <= i < k ==> Before(dir, s[i].heat, x.heat)
    requires k < |s| ==> !Before(dir, s[k].heat, x.heat)
    ensures Ordered(dir, s[..k] + [x] + s[k..])
  {
    var t := s[..k] + [x] + s[k..];
    forall i, j | 0 <= i < j < |t| ensures Before(dir, t[i].heat, t[j].heat) {
      assert i < k ==> t[i] == s[i];
      assert j > k ==> t[j] == s[j - 1];
    }
  }

  /**
    The library sort: some ordered permutation. Callers rely on the contract only,
    so nothing below depends on how ties are broken.
   */
  method Sort(dir: Direction, s: seq<Obj>) returns (t: seq<Obj>)
    ensures Ordered(dir, t) && multiset(t) == multiset(s)
    ensures |t| == |s|
  {
    t := [];
    for i := 0 to |s|
      invariant Ordered(dir, t) && multiset(t) == multiset(s[..i])
    {
      t := Insert(dir, t, s[i]);
      assert s[..i + 1] == s[..i] + [s[i]];
    }
    assert s[..|s|] == s;
    assert |multiset(t)| == |multiset(s)|;
  }
}
