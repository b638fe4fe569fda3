/**
  One batch of collected object statistics: up to BATCH fragments of a fixed size, taken
  from the shared cursor where the previous batch left it.
 */
module CollectIO {
  import opened Common
  import opened ObjectCursor

  const BATCH: nat := 16

  datatype Status = Success | NoData

  datatype Flag = NextBatch | End | Unset

  datatype Response = Response(status: Status, flag: Flag, fragments: seq<seq<ObjKey>>)

  /** Full fragments of `per` objects, and what is left over in the last one. */
  function Chunks(s: seq<ObjKey>, per: nat): seq<seq<ObjKey>>
    requires per > 0
  {
    if s == [] then [] else if |s| <= per then [s] else [s[..per]] + Chunks(s[per..], per)
  }

  function Concat(frags: seq<seq<ObjKey>>): seq<ObjKey>
  {
    if frags == [] then [] else Concat(frags[..|frags| - 1]) + frags[|frags| - 1]
  }

  lemma ConcatSnoc(frags: seq<seq<ObjKey>>, f: seq<ObjKey>)
    ensures Concat(frags + [f]) == Concat(frags) + f
  {
    assert (frags + [f])[..|frags|] == frags;
  }

  lemma ConcatOne(f: seq<ObjKey>)
    ensures Concat([f]) == f
  {
    ConcatSnoc([], f);
    assert [] + [f] == [f];
    assert Concat([]) + f == f;
  }

  lemma {:induction false} ConcatJoin(a: seq<seq<ObjKey>>, b: seq<seq<ObjKey>>)
    ensures Concat(a + b) == Concat(a) + Concat(b)
  {
    if b == [] {
      assert a + b == a;
    } else {
      var n := |b| - 1;
      ConcatJoin(a, b[..n]);
      ConcatSnoc(a + b[..n], b[n]);
      assert a + b == (a + b[..n]) + [b[n]];
      Associative(Concat(a), Concat(b[..n]), b[n]);
    }
  }

  /** Nothing is lost or repeated at the fragment borders, and only the last fragment may be short. */
  lemma {:induction false} ChunksCoverExactly(s: seq<ObjKey>, per: nat)
    requires per > 0
    ensures var frags := Chunks(s, per);
            && Concat(frags) == s
            && (forall k :: 0 <= k < |frags| ==> 0 < |frags[k]| <= per)
            && (forall k :: 0 <= k < |frags| - 1 ==> |frags[k]| == per)
  {
    if s == [] {
    } else if |s| <= per {
      ConcatOne(s);
    } else {
      ChunksCoverExactly(s[per..], per);
      ConcatOne(s[..per]);
      ConcatJoin([s[..per]], Chunks(s[per..], per));
      assert s == s[..per] + s[per..];
    }
  }

  /** Fragments being filled: all full but the open last one. */
  ghost predicate Filling(frags: seq<seq<ObjKey>>, per: nat)
  {
    && 0 < |frags| <= BATCH
    && (forall k :: 0 <= k < |frags| - 1 ==> |frags[k]| == per)
    && |frags[|frags| - 1]| <= per
  }

  /** Filling one fragment after the other is the same as cutting the objects into chunks. */
  lemma {:induction false} FillingIsChunking(frags: seq<seq<ObjKey>>, per: nat)
    requires per > 0 && Filling(frags, per)
    ensures Chunks(Concat(frags), per) == Filled(frags)
  {
    var n := |frags| - 1;
    if n == 0 {
      ConcatOne(frags[0]);
      assert frags == [frags[0]];
    } else {
      var tail := frags[1..];
      assert frags == [frags[0]] + tail;
      FillingIsChunking(tail, per);
      ConcatOne(frags[0]);
      ConcatJoin([frags[0]], tail);
      ChunksFirst(frags[0], Concat(tail), per);
      assert Filled(frags) == [frags[0]] + Filled(tail);
    }
  }

  /** The fragments that are sent: an open last fragment without objects is dropped. */
  function Filled(frags: seq<seq<ObjKey>>): seq<seq<ObjKey>>
    requires frags != []
  {
    if frags[|frags| - 1] == [] then frags[..|frags| - 1] else frags
  }

  lemma {:induction false} FillingSize(frags: seq<seq<ObjKey>>, per: nat)
    requires Filling(frags, per)
    ensures |Concat(frags)| == (|frags| - 1) * per + |frags[|frags| - 1]|
  {
    var n := |frags| - 1;
    if n > 0 {
      var front := frags[..n];
      FillingSize(front, per);
      assert |front[n - 1]| == per;
      assert n * per == (n - 1) * per + per;
    }
  }

  lemma ChunksFirst(f: seq<ObjKey>, rest: seq<ObjKey>, per: nat)
    requires per > 0 && |f| == per
    ensures Chunks(f + rest, per) == [f] + Chunks(rest, per)
  {
    if rest == [] {
      assert f + rest == f;
    } else {
      assert (f + rest)[..per] == f && (f + rest)[per..] == rest;
    }
  }

  /** How many objects one batch takes from what the cursor has left. */
  function Taken(rest: seq<ObjKey>, per: nat): nat
  {
    Min(|rest|, BATCH * per)
  }

  /** The answer of one batch, as a function of what the cursor had left. */
  function Answer(rest: seq<ObjKey>, already: nat, toBe: nat, per: nat): Response
    requires per > 0
  {
    var n := Taken(rest, per);
    Response(if n > 0 then Success else NoData,
             if n > 0 && already + n < toBe then NextBatch else End,
             Chunks(rest[..n], per))
  }

  /** Nothing is read when all is collected, nothing was to be collected, or the module is off. */
  predicate Idle(already: nat, toBe: nat, disabled: bool)
  {
    toBe == 0 || already == toBe || disabled
  }

  /**
    What an answer holds and says: the next objects, in full fragments, and whether fewer than counted
    are collected.
   */
  lemma AnswerMeans(rest: seq<ObjKey>, already: nat, toBe: nat, per: nat)
    requires per > 0
    ensures var n, r := Taken(rest, per), Answer(rest, already, toBe, per);
            && n == (if |rest| <= 16 * per then |rest| else 16 * per)
            && Concat(r.fragments) == rest[..n] && |r.fragments| <= 16
            && (forall k :: 0 <= k < |r.fragments| ==> 0 < |r.fragments[k]| <= per)
            && (forall k :: 0 <= k < |r.fragments| - 1 ==> |r.fragments[k]| == per)
            && (r.status == Success <==> n > 0) && (r.status == NoData <==> n == 0)
            && (r.flag == NextBatch <==> n > 0 && already + n < toBe)
            && (r.flag == End <==> n == 0 || already + n >= toBe)
  {
    var n := Taken(rest, per);
    ChunksCoverExactly(rest[..n], per);
    ChunkCount(rest[..n], 16, per);
    hide Chunks, Concat;
  }

  lemma {:induction false} ChunkCount(s: seq<ObjKey>, m: nat, per: nat)
    requires per > 0 && |s| <= m * per
    ensures |Chunks(s, per)| <= m
  {
    if |s| > per {
      assert (m - 1) * per == m * per - per;
      ChunkCount(s[per..], m - 1, per);
    } else if s != [] && m == 0 {
      assert false;
    }
  }

  class Collector {
    const view: ConfigView
    const per: nat
    var toBe: nat
    var already: nat

    constructor (view: ConfigView, per: nat)
      ensures this.view == view && this.per == per && toBe == already == 0
    {
      this.view, this.per, toBe, already := view, per, 0, 0;
    }

    method Prepare()
      modifies this
      ensures toBe == Count(view.subPools) && already == 0
    {
      var count := view.GetOBJCnt();
      toBe, already := count, 0;
    }

    /** What this request will read from: everything on the first request, else what is left. */
    ghost function Source(involved: set<nat>, first: bool): seq<ObjKey>
      reads this, view
    {
      if first then view.All(involved) else view.Rest(involved)
    }

    method CollectIO(first: bool, involved: set<nat>, disabled: bool) returns (response: Response)
      requires per > 0
      modifies this`already, view
      ensures SameObjects(old(view.subPools), view.subPools)
      ensures Idle(old(already), toBe, disabled) ==>
                && response == Response(NoData, Unset, []) && already == old(already)
                && view.Rest(involved) == old(view.Rest(involved)) && view.subPools == old(view.subPools)
      ensures !Idle(old(already), toBe, disabled) ==>
                var source := old(Source(involved, first));
                && response == Answer(source, old(already), toBe, per)
                && already == old(already) + Taken(source, per)
                && view.Rest(involved) == source[Taken(source, per)..]
      ensures old(already) <= already
      ensures toBe == 0 || old(already) == toBe || disabled ==> response == Response(NoData, Unset, [])
      ensures !(toBe == 0 || old(already) == toBe || disabled) ==>
                var source, n := old(Source(involved, first)), already - old(already);
                && n == (if |source| <= 16 * per then |source| else 16 * per)
                && Concat(response.fragments) == source[..n] && view.Rest(involved) == source[n..]
                && (response.status == Success <==> n > 0)
                && (response.flag == NextBatch <==> n > 0 && already < toBe)
                && (response.flag == End <==> n == 0 || already >= toBe)
    {
      AnswerMeans(Source(involved, first), already, toBe, per);
      hide Chunks, Concat, PoolsAll, ViewRest, SameObjects;
      if toBe == 0 || already == toBe || disabled {
        SameItself(view.subPools);
        return Response(NoData, Unset, []);
      }
      response := ReadBatch(first, involved);
    }

    /** The batch of a request that reads: from the first object on, or from where the cursor is. */
    method ReadBatch(first: bool, involved: set<nat>) returns (response: Response)
      requires per > 0
      modifies this`already, view
      ensures SameObjects(old(view.subPools), view.subPools)
      ensures var source := old(Source(involved, first));
              && response == Answer(source, old(already), toBe, per)
              && already == old(already) + Taken(source, per)
              && view.Rest(involved) == source[Taken(source, per)..]
    {
      hide Chunks, Concat, PoolsAll, ViewRest, Filling, SameObjects;
      ghost var source, popped := Source(involved, first), [];
      var obj;
      if first {
        obj := view.GetFirstOBJView(involved);
      } else {
        obj := view.GetNextOBJView(involved);
      }
      ghost var before := view.subPools;
      var frags, objnum, full;
      frags, objnum, full, popped := FillBatch(obj, involved, source);
      SameThroughout(old(view.subPools), before, view.subPools);
      FillingIsChunking(frags, per);
      BatchSize(frags, per, source, popped, full);
      hide Taken;
      assert source[..|popped|] == popped && source[|popped|..] == view.Rest(involved);
      var filled := frags[0] != [];
      var last := |frags| - 1;
      response := Response(if filled then Success else NoData,
                           if filled && already < toBe then NextBatch else End,
                           if objnum != 0 then frags else frags[..last]);
    }

    /** The loop of one batch: it ends when the last fragment is full or the cursor is at its end. */
    method FillBatch(start: Option<ObjKey>, involved: set<nat>, ghost source: seq<ObjKey>)
      returns (frags: seq<seq<ObjKey>>, objnum: nat, full: bool, ghost popped: seq<ObjKey>)
      requires per > 0
      requires match start
               case None => source == [] && view.Rest(involved) == []
               case Some(o) => source == [o] + view.Rest(involved)
      modifies this`already, view
      ensures SameObjects(old(view.subPools), view.subPools)
      ensures Filling(frags, per) && Concat(frags) == popped && frags != [] && objnum == |frags[|frags| - 1]|
      ensures already == old(already) + |popped| && source == popped + view.Rest(involved)
      ensures full ==> |frags| == BATCH && objnum == per
      ensures !full ==> view.Rest(involved) == []
    {
      hide Concat, PoolsAll, ViewRest, SameObjects;
      var obj := start;
      frags, objnum, full, popped := [[]], 0, false, [];
      NothingFilled(per);
      SameItself(view.subPools);
      while obj.Some? && !full
        invariant SameObjects(old(view.subPools), view.subPools)
        invariant Filling(frags, per) && Concat(frags) == popped && already == old(already) + |popped|
        invariant objnum == |frags[|frags| - 1]|
        invariant full ==> objnum == per && |frags| == BATCH && source == popped + view.Rest(involved)
        invariant !full ==> objnum < per
        invariant !full && obj.Some? ==> source == popped + ([obj.value] + view.Rest(involved))
        invariant !full && obj.None? ==> source == popped && view.Rest(involved) == []
        decreases |source| - |popped|, !full
      {
        ghost var before := view.subPools;
        Associative(popped, [obj.value], view.Rest(involved));
        popped := popped + [obj.value];
        frags, objnum, full := Store(frags, objnum, obj.value);
        already := already + 1;
        if !full {
          obj := view.GetNextOBJView(involved);
          SameThroughout(old(view.subPools), before, view.subPools);
        }
      }
    }

    /** Adds one object to the open fragment and opens the next one when it is full. */
    method Store(frags: seq<seq<ObjKey>>, objnum: nat, obj: ObjKey)
      returns (next: seq<seq<ObjKey>>, nextnum: nat, full: bool)
      requires Filling(frags, per) && objnum == |frags[|frags| - 1]| < per
      ensures Filling(next, per) && Concat(next) == Concat(frags) + [obj]
      ensures nextnum == |next[|next| - 1]|
      ensures full ==> nextnum == per && |next| == BATCH
      ensures !full ==> nextnum < per
    {
      var n := |frags| - 1;
      FillOne(frags, per, obj);
      next, nextnum, full := frags[n := frags[n] + [obj]], objnum + 1, false;
      if nextnum < per {
      } else if |next| < BATCH {
        OpenNext(next, per);
        next, nextnum := next + [[]], 0;
      } else {
        full := true;
      }
    }
  }

  lemma NothingFilled(per: nat)
    ensures Filling([[]], per) && Concat([[]]) == []
  {
    ConcatOne([]);
  }

  lemma FillOne(frags: seq<seq<ObjKey>>, per: nat, x: ObjKey)
    requires Filling(frags, per) && |frags[|frags| - 1]| < per
    ensures var n := |frags| - 1;
            var next := frags[n := frags[n] + [x]];
            Filling(next, per) && Concat(next) == Concat(frags) + [x]
  {
    var n := |frags| - 1;
    var next := frags[n := frags[n] + [x]];
    assert next[..n] == frags[..n];
    Associative(Concat(frags[..n]), frags[n], [x]);
  }

  lemma OpenNext(frags: seq<seq<ObjKey>>, per: nat)
    requires Filling(frags, per) && |frags[|frags| - 1]| == per && |frags| < BATCH
    ensures Filling(frags + [[]], per) && Concat(frags + [[]]) == Concat(frags)
  {
    ConcatSnoc(frags, []);
  }

  /** The loop stops with a full batch or with the cursor at its end: it took what one batch takes. */
  lemma BatchSize(frags: seq<seq<ObjKey>>, per: nat, source: seq<ObjKey>, popped: seq<ObjKey>, full: bool)
    requires per > 0 && Filling(frags, per) && popped <= source && popped == Concat(frags)
    requires full ==> |frags| == BATCH && |frags[BATCH - 1]| == per
    requires !full ==> popped == source
    ensures |popped| == Taken(source, per)
    ensures frags[0] == [] <==> |popped| == 0
  {
    hide Concat;
    FillingSize(frags, per);
    if full {
      assert |popped| == BATCH * per;
    } else {
      assert (|frags| - 1) * per <= (BATCH - 1) * per;
      assert BATCH * per == (BATCH - 1) * per + per;
    }
    if |frags| > 1 {
      assert |frags[0]| == per && (|frags| - 1) * per >= per;
    }
  }
}
