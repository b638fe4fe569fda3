/**
  The lazy bucket sort, seen from one side of the bucket boundary.

  A side is the list of its buckets in walk order: hottest bucket first above the
  boundary, coldest first below it. Its depth is how many leading buckets are sorted.
  Sorting from scratch is an extension from depth 0.
 */
module LazySort {
  import opened Common
  import opened HeatOrder

  function Total(s: seq<seq<Obj>>): nat
  {
    if s == [] then 0 else Total(s[..|s| - 1]) + |s[|s| - 1]|
  }

  /** What First, then Next until the end, would hand out over these buckets. */
  function Flat(s: seq<seq<Obj>>): seq<Obj>
  {
    if s == [] then [] else s[0] + Flat(s[1..])
  }

  ghost predicate SameBags(s: seq<seq<Obj>>, t: seq<seq<Obj>>)
  {
    |s| == |t| && forall k :: 0 <= k < |s| ==> multiset(s[k]) == multiset(t[k])
  }

  /** Buckets from..to of s were sorted in place, the others kept as they are. */
  ghost predicate SortedBetween(dir: Direction, s: seq<seq<Obj>>, from: nat, t: seq<seq<Obj>>, to: nat)
  {
    && from <= to <= |s|
    && SameBags(s, t)
    && (forall k :: 0 <= k < from || to <= k < |s| ==> t[k] == s[k])
    && (forall k :: from <= k < to ==> Ordered(dir, t[k]))
  }

  /** Depth d suffices for n objects, and no bucket was sorted without need beyond depth d0. */
  ghost predicate DepthFor(s: seq<seq<Obj>>, d0: nat, n: nat, d: nat)
  {
    && d0 <= d <= |s|
    && Total(s[..d]) >= Min(n, Total(s))
    && (d > d0 ==> Total(s[..d - 1]) < Min(n, Total(s)))
  }

  /** One request for n sorted objects takes (s, d) to (t, e). */
  ghost predicate Extends(dir: Direction, s: seq<seq<Obj>>, d: nat, n: nat, t: seq<seq<Obj>>, e: nat)
  {
    SortedBetween(dir, s, d, t, e) && DepthFor(s, d, n, e)
  }

  /** Every object of an earlier bucket may go before every object of a later one. */
  ghost predicate Partitioned(dir: Direction, s: seq<seq<Obj>>)
  {
    forall i, j, x, y :: 0 <= i < j < |s| && x in s[i] && y in s[j] ==> Before(dir, x.heat, y.heat)
  }

  lemma TotalSnoc(s: seq<seq<Obj>>, k: nat)
    requires k < |s|
    ensures Total(s[..k + 1]) == Total(s[..k]) + |s[k]|
  {
    assert s[..k + 1][..k] == s[..k];
  }

  lemma {:induction false} TotalMonotone(s: seq<seq<Obj>>, i: nat, j: nat)
    requires i <= j <= |s|
    ensures Total(s[..i]) <= Total(s[..j])
    decreases j
  {
    if i < j {
      TotalMonotone(s, i, j - 1);
      TotalSnoc(s, j - 1);
    }
  }

  lemma {:induction false} TotalOfSameBags(s: seq<seq<Obj>>, t: seq<seq<Obj>>, k: nat)
    requires SameBags(s, t) && k <= |s|
    ensures Total(s[..k]) == Total(t[..k])
  {
    if k > 0 {
      TotalOfSameBags(s, t, k - 1);
      TotalSnoc(s, k - 1);
      TotalSnoc(t, k - 1);
      assert |multiset(s[k - 1])| == |multiset(t[k - 1])|;
    }
  }

  lemma {:induction false} FlatConcat(a: seq<seq<Obj>>, b: seq<seq<Obj>>)
    ensures Flat(a + b) == Flat(a) + Flat(b)
  {
    if a == [] {
      assert a + b == b;
    } else {
      FlatConcat(a[1..], b);
      assert (a + b)[1..] == a[1..] + b && (a + b)[0] == a[0];
      Associative(a[0], Flat(a[1..]), Flat(b));
    }
  }

  lemma {:induction false} FlatSize(s: seq<seq<Obj>>)
    ensures |Flat(s)| == Total(s)
  {
    if s != [] {
      var k := |s| - 1;
      FlatSize(s[..k]);
      FlatConcat(s[..k], s[k..]);
      assert s == s[..k] + s[k..];
      assert s[k..] == [s[k]] && s[k..][1..] == [];
    }
  }

  lemma {:induction false} FlatOfSameBags(s: seq<seq<Obj>>, t: seq<seq<Obj>>)
    requires SameBags(s, t)
    ensures multiset(Flat(s)) == multiset(Flat(t))
  {
    if s != [] {
      FlatOfSameBags(s[1..], t[1..]);
    }
  }

  /** Membership in the walk is membership in one of its buckets. */
  lemma {:induction false} FlatMember(s: seq<seq<Obj>>, x: Obj)
    ensures x in Flat(s) <==> exists k :: 0 <= k < |s| && x in s[k]
  {
    if s != [] {
      FlatMember(s[1..], x);
      if x in Flat(s[1..]) {
        var k :| 0 <= k < |s[1..]| && x in s[1..][k];
        assert x in s[k + 1];
      }
      if k :| 0 <= k < |s| && x in s[k] {
        assert k > 0 ==> x in s[1..][k - 1];
      }
    }
  }

  lemma OrderedConcat(dir: Direction, a: seq<Obj>, b: seq<Obj>)
    requires Ordered(dir, a) && Ordered(dir, b)
    requires forall x, y :: x in a && y in b ==> Before(dir, x.heat, y.heat)
    ensures Ordered(dir, a + b)
  {
    forall i, j | 0 <= i < j < |a + b| ensures Before(dir, (a + b)[i].heat, (a + b)[j].heat) {
      if i < |a| <= j {
        assert a[i] in a && b[j - |a|] in b;
      }
    }
  }

  /** Sorted buckets that respect the partition walk in one global order. */
  lemma {:induction false} WalkIsOrdered(dir: Direction, s: seq<seq<Obj>>)
    requires Partitioned(dir, s)
    requires forall k :: 0 <= k < |s| ==> Ordered(dir, s[k])
    ensures Ordered(dir, Flat(s))
  {
    if s != [] {
      WalkIsOrdered(dir, s[1..]);
      forall x, y | x in s[0] && y in Flat(s[1..]) ensures Before(dir, x.heat, y.heat) {
        FlatMember(s[1..], y);
        var k :| 0 <= k < |s[1..]| && y in s[1..][k];
        assert y in s[k + 1];
      }
      OrderedConcat(dir, s[0], Flat(s[1..]));
    }
  }

  /** No object of the sorted part may come after one that was left out. */
  lemma NothingLeftOutIsAhead(dir: Direction, s: seq<seq<Obj>>, d: nat, x: Obj, y: Obj)
    requires Partitioned(dir, s) && d <= |s|
    requires x in Flat(s[..d]) && y in Flat(s[d..])
    ensures Before(dir, x.heat, y.heat)
  {
    FlatMember(s[..d], x);
    FlatMember(s[d..], y);
    var i :| 0 <= i < d && x in s[..d][i];
    var j :| 0 <= j < |s| - d && y in s[d..][j];
    assert x in s[i] && y in s[d + j];
  }

  lemma PartitionedSameBags(dir: Direction, s: seq<seq<Obj>>, t: seq<seq<Obj>>)
    requires Partitioned(dir, s) && SameBags(s, t)
    ensures Partitioned(dir, t)
  {
    forall i, j, x, y | 0 <= i < j < |t| && x in t[i] && y in t[j] ensures Before(dir, x.heat, y.heat) {
      assert x in multiset(t[i]) && y in multiset(t[j]);
      assert x in s[i] && y in s[j];
    }
  }

  /** Every object of a may go before every object of b. */
  ghost predicate AllBefore(dir: Direction, a: seq<Obj>, b: seq<Obj>)
  {
    forall x, y :: x in a && y in b ==> Before(dir, x.heat, y.heat)
  }

  lemma AllBeforePermuted(dir: Direction, a: seq<Obj>, a': seq<Obj>, b: seq<Obj>)
    requires AllBefore(dir, a, b) && multiset(a') <= multiset(a)
    ensures AllBefore(dir, a', b)
  {
    forall x | x in a' ensures x in a {
      assert x in multiset(a');
      assert x in multiset(a);
    }
  }

  lemma AllBeforeJoin(dir: Direction, a: seq<Obj>, b: seq<Obj>, c: seq<Obj>)
    requires AllBefore(dir, a, b) && AllBefore(dir, a, c)
    ensures AllBefore(dir, a, b + c)
  {
  }

  lemma AllBeforeHeats(dir: Direction, a: seq<Obj>, b: seq<Obj>)
    requires AllBefore(dir, a, b)
    ensures forall x, y :: x in Heats(a) && y in multiset(Heats(b)) ==> Before(dir, x, y)
  {
    forall x, y | x in Heats(a) && y in multiset(Heats(b)) ensures Before(dir, x, y) {
      var i :| 0 <= i < |a| && Heats(a)[i] == x;
      assert y in Heats(b);
      var j :| 0 <= j < |b| && Heats(b)[j] == y;
      assert a[i] in a && b[j] in b;
    }
  }

  /** An ordered run before a remainder is the front of any full sort of both. */
  lemma RunIsPrefix(dir: Direction, run: seq<Obj>, rest: seq<Obj>, full: seq<Obj>)
    requires Ordered(dir, run) && Ordered(dir, full) && AllBefore(dir, run, rest)
    requires multiset(full) == multiset(run) + multiset(rest)
    ensures |run| <= |full| && Heats(run) == Heats(full)[..|run|]
  {
    assert multiset(full) == multiset(run + rest);
    HeatsPermute(full, run + rest);
    HeatsConcat(run, rest);
    AllBeforeHeats(dir, run, rest);
    PrefixOfFullSort(dir, Heats(run), multiset(Heats(rest)), Heats(full));
  }

  /**
    One request: the walk over the sorted buckets hands out the objects of those
    buckets exactly once, in order, and at least as many as asked for.
   */
  lemma LazyWalk(dir: Direction, s: seq<seq<Obj>>, n: nat, t: seq<seq<Obj>>, d: nat)
    requires Extends(dir, s, 0, n, t, d) && Partitioned(dir, s)
    ensures multiset(Flat(t[..d])) == multiset(Flat(s[..d]))
    ensures multiset(Flat(s)) == multiset(Flat(t[..d])) + multiset(Flat(t[d..]))
    ensures Ordered(dir, Flat(t[..d]))
    ensures AllBefore(dir, Flat(t[..d]), Flat(t[d..]))
    ensures |Flat(t[..d])| >= Min(n, |Flat(s)|)
  {
    hide Partitioned, Ordered, Total, Flat;
    PartitionedSameBags(dir, s, t);
    assert Ordered(dir, Flat(t[..d])) by {
      PartitionedPart(dir, t, d);
      WalkIsOrdered(dir, t[..d]);
    }
    FlatOfSameBags(s[..d], t[..d]);
    FlatOfSameBags(s, t);
    FlatSize(t[..d]);
    FlatSize(s);
    TotalOfSameBags(s, t, d);
    assert t == t[..d] + t[d..];
    FlatConcat(t[..d], t[d..]);
    forall x, y | x in Flat(t[..d]) && y in Flat(t[d..]) ensures Before(dir, x.heat, y.heat) {
      NothingLeftOutIsAhead(dir, t, d, x, y);
    }
  }

  lemma PartitionedPart(dir: Direction, s: seq<seq<Obj>>, d: nat)
    requires Partitioned(dir, s) && d <= |s|
    ensures Partitioned(dir, s[..d])
  {
  }

  /**
    The heats handed out are the front of any full sort of the whole population.
    `across` holds the objects on the other side of the boundary.
   */
  lemma LazyWalkIsPrefixOfFullSort(dir: Direction, s: seq<seq<Obj>>, n: nat, t: seq<seq<Obj>>, d: nat,
                                   across: seq<Obj>, full: seq<Obj>)
    requires Extends(dir, s, 0, n, t, d) && Partitioned(dir, s)
    requires AllBefore(dir, Flat(s), across)
    requires Ordered(dir, full) && multiset(full) == multiset(Flat(s)) + multiset(across)
    ensures |Flat(t[..d])| <= |full| && Heats(Flat(t[..d])) == Heats(full)[..|Flat(t[..d])|]
  {
    LazyWalk(dir, s, n, t, d);
    var run, rest := Flat(t[..d]), Flat(t[d..]);
    AllBeforePermuted(dir, Flat(s), run, across);
    AllBeforeJoin(dir, run, rest, across);
    assert multiset(rest + across) == multiset(rest) + multiset(across);
    RunIsPrefix(dir, run, rest + across, full);
  }

  lemma DepthForUnique(s: seq<seq<Obj>>, n: nat, d: nat, e: nat)
    requires DepthFor(s, 0, n, d) && DepthFor(s, 0, n, e)
    ensures d == e
  {
    if d < e {
      TotalMonotone(s, d, e - 1);
    } else if e < d {
      TotalMonotone(s, e, d - 1);
    }
  }

  lemma SortedBetweenTwice(dir: Direction, s: seq<seq<Obj>>, t: seq<seq<Obj>>, d: nat, u: seq<seq<Obj>>, e: nat)
    requires SortedBetween(dir, s, 0, t, d) && SortedBetween(dir, t, d, u, e)
    ensures SortedBetween(dir, s, 0, u, e)
    ensures SameBags(s, t) && d <= e <= |s|
  {
    forall k | 0 <= k < |s| ensures multiset(s[k]) == multiset(u[k]) {
      assert multiset(s[k]) == multiset(t[k]) == multiset(u[k]);
    }
  }

  /** Two requests in a row are one request for the larger of the two. */
  lemma ExtendTwice(dir: Direction, s: seq<seq<Obj>>, m: nat, t: seq<seq<Obj>>, d: nat,
                    n: nat, u: seq<seq<Obj>>, e: nat)
    requires Extends(dir, s, 0, m, t, d) && Extends(dir, t, d, n, u, e)
    ensures Extends(dir, s, 0, Max(m, n), u, e)
  {
    hide Total, Ordered;
    SortedBetweenTwice(dir, s, t, d, u, e);
    hide SortedBetween;
    assert Total(s) == Total(t) by {
      TotalOfSameBags(s, t, |s|);
      assert s[..|s|] == s && t[..|t|] == t;
    }
    TotalOfSameBags(s, t, e);
    TotalMonotone(s, d, e);
    if d < e {
      TotalOfSameBags(s, t, e - 1);
    }
  }

  function Largest(ns: seq<nat>): nat
  {
    if ns == [] then 0 else Max(Largest(ns[..|ns| - 1]), ns[|ns| - 1])
  }

  /** A history of one sort and any number of later extensions. */
  ghost predicate SortHistory(dir: Direction, s: seq<seq<Obj>>, ns: seq<nat>, ts: seq<seq<seq<Obj>>>, ds: seq<nat>)
  {
    && |ts| == |ds| == |ns| + 1
    && ts[0] == s && ds[0] == 0
    && (forall i :: 0 <= i <= |ns| ==> ds[i] <= |ts[i]|)
    && forall i :: 0 <= i < |ns| ==> Extends(dir, ts[i], ds[i], ns[i], ts[i + 1], ds[i + 1])
  }

  lemma {:induction false} HistoryIsOneRequest(dir: Direction, s: seq<seq<Obj>>, ns: seq<nat>,
                                               ts: seq<seq<seq<Obj>>>, ds: seq<nat>)
    requires SortHistory(dir, s, ns, ts, ds)
    ensures Extends(dir, s, 0, Largest(ns), ts[|ns|], ds[|ns|])
  {
    var k := |ns|;
    if k > 0 {
      assert SortHistory(dir, s, ns[..k - 1], ts[..k], ds[..k]);
      HistoryIsOneRequest(dir, s, ns[..k - 1], ts[..k], ds[..k]);
      ExtendTwice(dir, s, Largest(ns[..k - 1]), ts[k - 1], ds[k - 1], ns[k - 1], ts[k], ds[k]);
    }
  }

  /** Ordered rearrangements of one bucket have the same heats, position by position. */
  lemma OrderedHeatsUnique(dir: Direction, a: seq<Obj>, b: seq<Obj>)
    requires Ordered(dir, a) && Ordered(dir, b) && multiset(a) == multiset(b)
    ensures Heats(a) == Heats(b)
  {
    HeatsPermute(a, b);
    assert |multiset(a)| == |multiset(b)|;
    PrefixOfFullSort(dir, Heats(a), multiset{}, Heats(b));
    assert Heats(b)[..|a|] == Heats(b);
  }

  lemma {:induction false} FlatHeatsCongruent(s: seq<seq<Obj>>, t: seq<seq<Obj>>)
    requires |s| == |t| && forall k :: 0 <= k < |s| ==> Heats(s[k]) == Heats(t[k])
    ensures Heats(Flat(s)) == Heats(Flat(t))
  {
    if s != [] {
      FlatHeatsCongruent(s[1..], t[1..]);
      HeatsConcat(s[0], Flat(s[1..]));
      HeatsConcat(t[0], Flat(t[1..]));
    }
  }

  /**
    However the requests are split over a history, the depth, the number of sorted
    objects and the heats of the walk are those of one sort with the largest request.
   */
  lemma HistoryMatchesSingleSort(dir: Direction, s: seq<seq<Obj>>, ns: seq<nat>, ts: seq<seq<seq<Obj>>>,
                                 ds: seq<nat>, u: seq<seq<Obj>>, e: nat)
    requires SortHistory(dir, s, ns, ts, ds)
    requires Extends(dir, s, 0, Largest(ns), u, e)
    ensures ds[|ns|] == e
    ensures Total(ts[|ns|][..e]) == Total(u[..e])
    ensures Heats(Flat(ts[|ns|][..e])) == Heats(Flat(u[..e]))
  {
    HistoryIsOneRequest(dir, s, ns, ts, ds);
    var t := ts[|ns|];
    DepthForUnique(s, Largest(ns), ds[|ns|], e);
    TotalOfSameBags(s, t, e);
    TotalOfSameBags(s, u, e);
    forall k | 0 <= k < e ensures Heats(t[..e][k]) == Heats(u[..e][k]) {
      assert multiset(s[k]) == multiset(t[k]) && multiset(s[k]) == multiset(u[k]);
      OrderedHeatsUnique(dir, t[k], u[k]);
    }
    FlatHeatsCongruent(t[..e], u[..e]);
  }
}
