/**
  The index of the arbitratees of one sub-pool: a map for searching, a list for traversing,
  and one cursor into the list that must survive removals behind it.
 */
module ArbitrateeIndex {
  import opened Common

  datatype Direction = CtrPromote | CtrDemote | SwapUp | SwapDown

  datatype Arbitratee = Arbitratee(key: nat, target: nat, dir: Direction, cycle: nat, epoch: nat)

  const CTR_LEASE_TIME: nat := 2
  const TWO_TO_THE_64: nat := 0x1_0000_0000_0000_0000

  function LeaseTime(dir: Direction): nat
  {
    if dir.CtrPromote? || dir.CtrDemote? then CTR_LEASE_TIME else 0
  }

  /** Cycles are unsigned 64-bit numbers, and so is their difference. */
  predicate Expired(a: Arbitratee, now: nat)
  {
    (now - a.cycle) % TWO_TO_THE_64 > LeaseTime(a.dir)
  }

  function Unexpired(s: seq<Arbitratee>, now: nat): seq<Arbitratee>
  {
    if s == [] then []
    else Unexpired(s[..|s| - 1], now) + if Expired(s[|s| - 1], now) then [] else [s[|s| - 1]]
  }

  lemma UnexpiredSnoc(s: seq<Arbitratee>, a: Arbitratee, now: nat)
    ensures Unexpired(s + [a], now) == Unexpired(s, now) + if Expired(a, now) then [] else [a]
  {
    assert (s + [a])[..|s|] == s;
  }

  /** What stays is exactly what has not expired. */
  lemma {:induction false} UnexpiredMember(s: seq<Arbitratee>, now: nat, a: Arbitratee)
    ensures a in Unexpired(s, now) <==> a in s && !Expired(a, now)
  {
    if s != [] {
      UnexpiredMember(s[..|s| - 1], now, a);
      assert s == s[..|s| - 1] + [s[|s| - 1]];
    }
  }

  predicate KeysDiffer(s: seq<Arbitratee>)
  {
    forall i, j :: 0 <= i < j < |s| ==> s[i].key != s[j].key
  }

  /** The map and the list hold the same arbitratees. */
  predicate SameItems(m: map<nat, Arbitratee>, s: seq<Arbitratee>)
  {
    && KeysDiffer(s)
    && (forall i :: 0 <= i < |s| ==> s[i].key in m && m[s[i].key] == s[i])
    && (forall k :: k in m ==> m[k] in s && m[k].key == k)
  }

  /** Where the list holds the key, or the length of the list. */
  function IndexOf(s: seq<Arbitratee>, key: nat): (n: nat)
    ensures n <= |s| && (n < |s| ==> s[n].key == key)
    ensures forall i :: 0 <= i < n ==> s[i].key != key
  {
    if s == [] then 0 else if s[0].key == key then 0 else 1 + IndexOf(s[1..], key)
  }

  lemma AddKeepsSame(m: map<nat, Arbitratee>, s: seq<Arbitratee>, a: Arbitratee)
    requires SameItems(m, s) && a.key !in m
    ensures SameItems(m[a.key := a], s + [a])
  {
    var r := m[a.key := a];
    forall k | k in r ensures r[k] in s + [a] && r[k].key == k {
      if k != a.key {
        assert m[k] in s;
      }
    }
  }

  lemma RemoveKeepsSame(m: map<nat, Arbitratee>, s: seq<Arbitratee>, n: nat)
    requires SameItems(m, s) && n < |s|
    ensures SameItems(m - {s[n].key}, s[..n] + s[n + 1..])
  {
    var t, r := s[..n] + s[n + 1..], m - {s[n].key};
    forall i | 0 <= i < |t| ensures t[i].key in r && r[t[i].key] == t[i] {
      assert t[i] == s[if i < n then i else i + 1];
    }
    forall k | k in r ensures r[k] in t && r[k].key == k {
      var i :| 0 <= i < |s| && s[i] == m[k];
      assert i != n;
      assert t[if i < n then i else i - 1] == s[i];
    }
  }

  lemma FoundAt(m: map<nat, Arbitratee>, s: seq<Arbitratee>, key: nat)
    requires SameItems(m, s) && key in m
    ensures IndexOf(s, key) < |s| && s[IndexOf(s, key)] == m[key]
  {
    assert m[key] in s;
    var i :| 0 <= i < |s| && s[i] == m[key];
    assert s[i].key == key;
  }

  lemma ReplaceKeepsSame(m: map<nat, Arbitratee>, s: seq<Arbitratee>, a: Arbitratee)
    requires SameItems(m, s) && a.key in m
    ensures IndexOf(s, a.key) < |s| && SameItems(m[a.key := a], s[IndexOf(s, a.key) := a])
  {
    FoundAt(m, s, a.key);
    var n := IndexOf(s, a.key);
    hide IndexOf;
    ReplaceAt(m, s, n, a);
  }

  lemma ReplaceAt(m: map<nat, Arbitratee>, s: seq<Arbitratee>, n: nat, a: Arbitratee)
    requires SameItems(m, s) && n < |s| && s[n].key == a.key
    ensures SameItems(m[a.key := a], s[n := a])
  {
    var t, r := s[n := a], m[a.key := a];
    forall i | 0 <= i < |t| ensures t[i].key in r && r[t[i].key] == t[i] {
      assert s[i].key in m && m[s[i].key] == s[i];
      assert i != n ==> s[i].key != s[n].key;
    }
    forall k | k in r ensures r[k] in t && r[k].key == k {
      if k == a.key {
        assert t[n] == a;
      } else {
        var i :| 0 <= i < |s| && s[i] == m[k];
        assert t[i] == r[k];
      }
    }
    forall i, j | 0 <= i < j < |t| ensures t[i].key != t[j].key {
      assert s[i].key != s[j].key;
    }
  }

  /**
    The value of an index. The cursor is a position in the list, its end, or -1 if the arbitratee
    under it was removed.
   */
  datatype Index = Index(items: map<nat, Arbitratee>, items2: seq<Arbitratee>, it: int)

  const EMPTY := Index(map[], [], 0)

  ghost predicate Consistent(x: Index)
  {
    SameItems(x.items, x.items2) && -1 <= x.it <= |x.items2|
  }

  /** A key that is there already is refused. A cursor at the end stays at the end. */
  function Added(x: Index, a: Arbitratee): Index
  {
    if a.key in x.items then x
    else Index(x.items[a.key := a], x.items2 + [a], if x.it == |x.items2| then x.it + 1 else x.it)
  }

  /** Removing behind the cursor does not move it from the arbitratee it stands on. */
  function Removed(x: Index, key: nat): Index
  {
    var n := IndexOf(x.items2, key);
    if key !in x.items || n == |x.items2| then x
    else Index(x.items - {key}, x.items2[..n] + x.items2[n + 1..],
               if n < x.it then x.it - 1 else if n == x.it then -1 else x.it)
  }

  /** The data of an arbitratee is overwritten where it stands. */
  function Replaced(x: Index, a: Arbitratee): Index
  {
    var n := IndexOf(x.items2, a.key);
    if a.key !in x.items || n == |x.items2| then x
    else x.(items := x.items[a.key := a], items2 := x.items2[n := a])
  }

  /** Exactly the unexpired stay, in their order; the walk that removes the others ends at the end of the list. */
  function Discarded(x: Index, now: nat): Index
  {
    Index(map k | k in x.items && !Expired(x.items[k], now) :: x.items[k], Unexpired(x.items2, now),
          if x.items2 == [] then x.it else |Unexpired(x.items2, now)|)
  }

  lemma AddedConsistent(x: Index, a: Arbitratee)
    requires Consistent(x)
    ensures Consistent(Added(x, a))
  {
    if a.key !in x.items {
      AddKeepsSame(x.items, x.items2, a);
    }
  }

  lemma RemovedConsistent(x: Index, key: nat)
    requires Consistent(x)
    ensures Consistent(Removed(x, key)) && Removed(x, key).items == x.items - {key}
  {
    if key in x.items {
      FoundAt(x.items, x.items2, key);
      RemoveKeepsSame(x.items, x.items2, IndexOf(x.items2, key));
    } else {
      assert x.items - {key} == x.items;
    }
  }

  lemma ReplacedConsistent(x: Index, a: Arbitratee)
    requires Consistent(x) && a.key in x.items
    ensures Consistent(Replaced(x, a)) && Replaced(x, a).items == x.items[a.key := a]
  {
    ReplaceKeepsSame(x.items, x.items2, a);
  }

  lemma {:induction false} UnexpiredKeysDiffer(s: seq<Arbitratee>, now: nat)
    requires KeysDiffer(s)
    ensures KeysDiffer(Unexpired(s, now))
  {
    if s != [] {
      var t, a := s[..|s| - 1], s[|s| - 1];
      UnexpiredKeysDiffer(t, now);
      var u := Unexpired(t, now);
      forall i | 0 <= i < |u| ensures u[i].key != a.key {
        UnexpiredMember(t, now, u[i]);
        var j :| 0 <= j < |t| && t[j] == u[i];
      }
    }
  }

  lemma DiscardedConsistent(x: Index, now: nat)
    requires Consistent(x)
    ensures Consistent(Discarded(x, now))
  {
    hide Expired, Unexpired;
    var y := Discarded(x, now);
    UnexpiredKeysDiffer(x.items2, now);
    forall i | 0 <= i < |y.items2| ensures y.items2[i].key in y.items && y.items[y.items2[i].key] == y.items2[i] {
      UnexpiredMember(x.items2, now, y.items2[i]);
      var j :| 0 <= j < |x.items2| && x.items2[j] == y.items2[i];
    }
    forall k | k in y.items ensures y.items[k] in y.items2 && y.items[k].key == k {
      UnexpiredMember(x.items2, now, x.items[k]);
    }
    if x.items2 == [] {
      NothingSeen(now);
    }
  }

  class SubPoolArbitratee {
    var items: map<nat, Arbitratee>
    var items2: seq<Arbitratee>
    /** The cursor: a position in the list, its end, or -1 where the arbitratee under it was removed. */
    var it: int

    ghost function Abs(): Index
      reads this
    {
      Index(items, items2, it)
    }

    ghost predicate Valid()
      reads this
    {
      Consistent(Abs())
    }

    constructor ()
      ensures Valid() && Abs() == EMPTY
    {
      items, items2, it := map[], [], 0;
    }

    method GetArbitratee(key: nat) returns (a: Option<Arbitratee>)
      requires Valid()
      ensures a == if key in items then Some(items[key]) else None
      ensures a.Some? ==> a.value in items2 && a.value.key == key
      ensures a.None? ==> forall i :: 0 <= i < |items2| ==> items2[i].key != key
    {
      a := if key in items then Some(items[key]) else None;
    }

    /** A key that is there already is refused. A cursor at the end stays at the end. */
    method AddArbitratee(a: Arbitratee) returns (ok: bool)
      requires Valid()
      modifies this
      ensures Valid()
      ensures ok <==> a.key !in old(items)
      ensures ok ==> items == old(items)[a.key := a] && items2 == old(items2) + [a]
      ensures ok ==> it == if old(it) == |old(items2)| then |items2| else old(it)
      ensures Abs() == Added(old(Abs()), a)
      ensures !ok ==> items == old(items) && items2 == old(items2) && it == old(it)
    {
      ok := a.key !in items;
      if ok {
        AddKeepsSame(items, items2, a);
        if it == |items2| {
          it := it + 1;
        }
        items, items2 := items[a.key := a], items2 + [a];
      }
    }

    /** Removing behind the cursor does not move it from the arbitratee it stands on. */
    method RemoveArbitratee(key: nat) returns (ok: bool)
      requires Valid()
      modifies this
      ensures Valid()
      ensures ok <==> key in old(items)
      ensures !ok ==> items == old(items) && items2 == old(items2) && it == old(it)
      ensures ok ==> var n := IndexOf(old(items2), key);
                && n < |old(items2)|
                && items == old(items) - {key} && items2 == old(items2)[..n] + old(items2)[n + 1..]
                && it == if n < old(it) then old(it) - 1 else if n == old(it) then -1 else old(it)
      ensures Abs() == Removed(old(Abs()), key)
    {
      ok := key in items;
      if ok {
        FoundAt(items, items2, key);
        var n := IndexOf(items2, key);
        RemoveKeepsSame(items, items2, n);
        hide SameItems, IndexOf;
        it := if n < it then it - 1 else if n == it then -1 else it;
        items, items2 := items - {key}, items2[..n] + items2[n + 1..];
      }
    }

    /** Map and list share the arbitratee, so overwriting its data shows in both. */
    method SetArbitratee(a: Arbitratee)
      requires Valid() && a.key in items
      modifies this
      ensures Valid() && Abs() == Replaced(old(Abs()), a)
      ensures items == old(items)[a.key := a] && it == old(it) && |items2| == |old(items2)|
      ensures forall i :: 0 <= i < |items2| ==> items2[i] == if old(items2)[i].key == a.key then a else old(items2)[i]
    {
      ReplaceKeepsSame(items, items2, a);
      var n := IndexOf(items2, a.key);
      items, items2 := items[a.key := a], items2[n := a];
    }

    predicate Empty()
      reads this
      requires Valid()
      ensures Empty() <==> items2 == []
    {
      EmptyTogether(items, items2);
      items == map[]
    }

    method GetFirstArbitratee() returns (a: Option<Arbitratee>)
      requires Valid()
      modifies `it
      ensures Valid()
      ensures items2 == [] ==> a == None && it == old(it)
      ensures items2 != [] ==> a == Some(items2[0]) && it == 1
    {
      if items2 != [] {
        a, it := Some(items2[0]), 1;
      } else {
        a := None;
      }
    }

    method GetNextArbitratee() returns (a: Option<Arbitratee>)
      requires Valid() && it >= 0
      modifies `it
      ensures Valid()
      ensures old(it) == |items2| ==> a == None && it == old(it)
      ensures old(it) < |items2| ==> a == Some(items2[old(it)]) && it == old(it) + 1
    {
      if it < |items2| {
        a, it := Some(items2[it]), it + 1;
      } else {
        a := None;
      }
    }

    /**
      The walk of a new cycle. Although it removes arbitratees while the cursor is among them,
      it visits each once: exactly the unexpired ones stay, in their order.
     */
    method DiscardExpired(now: nat)
      requires Valid()
      modifies this
      ensures Valid()
      ensures items2 == Unexpired(old(items2), now)
      ensures forall k :: k in items <==> k in old(items) && !Expired(old(items)[k], now)
      ensures forall k :: k in items ==> items[k] == old(items)[k]
      ensures Abs() == Discarded(old(Abs()), now)
    {
      hide Unexpired, SameItems, Expired;
      ghost var all, before, seen, kept, rest := items2, items, [], [], items2;
      NothingSeen(now);
      var a := GetFirstArbitratee();
      if a.Some? {
        rest := items2[1..];
        assert items2 == [a.value] + rest;
      }
      while a.Some?
        invariant Valid() && kept == Unexpired(seen, now)
        invariant a.Some? ==>
                  all == seen + ([a.value] + rest) && items2 == kept + ([a.value] + rest) && it == |kept| + 1
        invariant a.None? ==> all == seen && items2 == kept && it == if all == [] then old(it) else |items2|
        decreases |all| - |seen|, a.Some?
      {
        UnexpiredSnoc(seen, a.value, now);
        StillThere(seen, a.value, rest);
        DiscardIfExpired(a.value, now, kept, rest);
        seen, kept := seen + [a.value], Unexpired(seen + [a.value], now);
        a := GetNextArbitratee();
        if rest != [] {
          assert items2[|kept|] == rest[0] && rest == [rest[0]] + rest[1..];
          rest := rest[1..];
        }
      }
      KeptInMap(before, all, items, items2, now);
    }

    /** One visit: what the cursor stands after is removed if expired, and the cursor then stands where it ended. */
    method DiscardIfExpired(a: Arbitratee, now: nat, ghost kept: seq<Arbitratee>, ghost rest: seq<Arbitratee>)
      requires Valid() && items2 == kept + ([a] + rest) && it == |kept| + 1
      modifies this
      ensures Valid()
      ensures items2 == (kept + if Expired(a, now) then [] else [a]) + rest
      ensures it == |items2| - |rest|
    {
      hide SameItems, Expired;
      if Expired(a, now) {
        AtCursor(items, items2, |kept|);
        var _ := RemoveArbitratee(a.key);
        Without(kept, a, rest);
      } else {
        StillThere(kept, a, rest);
      }
    }
  }

  lemma EmptyTogether(m: map<nat, Arbitratee>, s: seq<Arbitratee>)
    requires SameItems(m, s)
    ensures m == map[] <==> s == []
  {
    if s != [] {
      assert s[0].key in m;
    }
  }

  lemma NothingSeen(now: nat)
    ensures Unexpired([], now) == []
  {
  }

  lemma AtCursor(m: map<nat, Arbitratee>, s: seq<Arbitratee>, n: nat)
    requires SameItems(m, s) && n < |s|
    ensures s[n].key in m && IndexOf(s, s[n].key) == n
  {
    FoundAt(m, s, s[n].key);
  }

  lemma Without<T>(a: seq<T>, x: T, b: seq<T>)
    ensures var s := a + ([x] + b); s[..|a|] + s[|a| + 1..] == a + b
  {
  }

  lemma StillThere<T>(a: seq<T>, x: T, b: seq<T>)
    ensures a + ([x] + b) == (a + [x]) + b
  {
  }

  lemma KeptInMap(m: map<nat, Arbitratee>, s: seq<Arbitratee>, m': map<nat, Arbitratee>, s': seq<Arbitratee>, now: nat)
    requires SameItems(m, s) && SameItems(m', s') && s' == Unexpired(s, now)
    ensures forall k :: k in m' <==> k in m && !Expired(m[k], now)
    ensures forall k :: k in m' ==> m'[k] == m[k]
  {
    hide Unexpired, Expired;
    forall k | k in m' ensures k in m && m'[k] == m[k] && !Expired(m[k], now) {
      UnexpiredMember(s, now, m'[k]);
      var i :| 0 <= i < |s| && s[i] == m'[k];
    }
    forall k | k in m && !Expired(m[k], now) ensures k in m' {
      UnexpiredMember(s, now, m[k]);
      var i :| 0 <= i < |s'| && s'[i] == m[k];
    }
  }
}
