/**
  Objects that were migrated but are still asked for under their old name: one map from the
  old name to the target disk, one from the new name to the source disk. IO for an old name
  is redirected; IO for a new name settles the object.
 */
module Unsettled {
  import opened Common
  import opened Migrations

  /** src maps old names to target disks, tgt new names to source disks. */
  datatype Maps = Maps(src: map<ObjKey, DiskKey>, tgt: map<ObjKey, DiskKey>)

  /** The same object on another disk. */
  function On(o: ObjKey, k: DiskKey): ObjKey
  {
    ObjKey(k.disk, o.obj)
  }

  /** An entry that exists already is left alone, in each map for itself. */
  function Mark(m: Maps, o: ObjKey, from: DiskKey, to: DiskKey): Maps
  {
    var left, joined := On(o, from), On(o, to);
    Maps(if left in m.src then m.src else m.src[left := to], if joined in m.tgt then m.tgt else m.tgt[joined := from])
  }

  function Redirected(m: Maps, o: ObjKey): Option<ObjKey>
  {
    if o in m.src then Some(On(o, m.src[o])) else None
  }

  function Settle(m: Maps, o: ObjKey): Maps
  {
    if o in m.tgt then Maps(m.src - {On(o, m.tgt[o])}, m.tgt - {o}) else m
  }

  /** The old name leads to a new one that leads back to it. */
  predicate BackFromNew(m: Maps, o: ObjKey)
  {
    o in m.src ==> On(o, m.src[o]) in m.tgt && m.tgt[On(o, m.src[o])].disk == o.storage
  }

  predicate BackFromOld(m: Maps, o: ObjKey)
  {
    o in m.tgt ==> On(o, m.tgt[o]) in m.src && m.src[On(o, m.tgt[o])].disk == o.storage
  }

  /** Each map undoes the other. */
  ghost predicate Inverse(m: Maps)
  {
    forall o :: BackFromNew(m, o) && BackFromOld(m, o)
  }

  /** A migration keeps the maps inverse exactly when its old and its new name are both recorded already or both not. */
  lemma MarkKeepsInverseIff(m: Maps, o: ObjKey, from: DiskKey, to: DiskKey)
    requires Inverse(m)
    ensures Inverse(Mark(m, o, from, to)) <==> (On(o, from) in m.src <==> On(o, to) in m.tgt)
  {
    var left, joined := On(o, from), On(o, to);
    var t := Mark(m, o, from, to);
    assert BackFromNew(m, left) && BackFromOld(m, joined);
    if left in m.src && joined in m.tgt {
      assert t == m;
    } else if left in m.src {
      assert !BackFromOld(t, joined);
    } else if joined in m.tgt {
      assert !BackFromNew(t, left);
    } else {
      forall x ensures BackFromNew(t, x) && BackFromOld(t, x) {
        MarkNewAt(m, o, from, to, x);
      }
    }
  }

  lemma MarkNewAt(m: Maps, o: ObjKey, from: DiskKey, to: DiskKey, x: ObjKey)
    requires BackFromNew(m, x) && BackFromOld(m, x) && On(o, from) !in m.src && On(o, to) !in m.tgt
    ensures BackFromNew(Mark(m, o, from, to), x) && BackFromOld(Mark(m, o, from, to), x)
  {
  }

  lemma SettleAt(m: Maps, o: ObjKey, x: ObjKey)
    requires BackFromOld(m, o) && BackFromNew(m, x) && BackFromOld(m, x)
    ensures BackFromNew(Settle(m, o), x) && BackFromOld(Settle(m, o), x)
    ensures x in m.src && On(x, m.src[x]) != o ==> Redirected(Settle(m, o), x) == Redirected(m, x)
  {
  }

  /** Settling removes the pair of both names and nothing else. */
  lemma SettleKeepsInverse(m: Maps, o: ObjKey)
    requires Inverse(m)
    ensures Inverse(Settle(m, o))
    ensures o in m.tgt ==> Redirected(Settle(m, o), On(o, m.tgt[o])) == None
    ensures forall x :: x in m.src && On(x, m.src[x]) != o ==> Redirected(Settle(m, o), x) == Redirected(m, x)
  {
    hide BackFromNew, BackFromOld;
    assert BackFromOld(m, o);
    forall x
      ensures BackFromNew(Settle(m, o), x) && BackFromOld(Settle(m, o), x)
      ensures x in m.src && On(x, m.src[x]) != o ==> Redirected(Settle(m, o), x) == Redirected(m, x)
    {
      assert BackFromNew(m, x) && BackFromOld(m, x);
      SettleAt(m, o, x);
    }
  }

  /** A fresh migration is redirected to its new name, and settling it leaves the maps as they were. */
  lemma SettleUndoesMark(m: Maps, o: ObjKey, from: DiskKey, to: DiskKey)
    requires On(o, from) !in m.src && On(o, to) !in m.tgt
    ensures Redirected(Mark(m, o, from, to), On(o, from)) == Some(On(o, to))
    ensures Settle(Mark(m, o, from, to), On(o, to)) == m
  {
    var t := Settle(Mark(m, o, from, to), On(o, to));
    assert t.src == m.src && t.tgt == m.tgt;
  }

  /** After a migration the old name leads to the new one exactly when it was not unsettled towards another disk. */
  lemma RedirectedIff(m: Maps, o: ObjKey, from: DiskKey, to: DiskKey)
    ensures Redirected(Mark(m, o, from, to), On(o, from)) == Some(On(o, to)) <==>
              (On(o, from) in m.src ==> m.src[On(o, from)].disk == to.disk)
  {
  }

  /**
    The name an object has after a migration is itself not redirected exactly when it had not left it
    unsettled before.
   */
  lemma CurrentNameIsFinalIff(m: Maps, o: ObjKey, from: DiskKey, to: DiskKey)
    requires from.disk != to.disk
    ensures Redirected(Mark(m, o, from, to), On(o, to)) == None <==> On(o, to) !in m.src
  {
  }

  /** An object that comes back before it settles and leaves for a third disk is redirected to where it went first. */
  lemma ThirdDiskIsMissed(o: ObjKey, a: DiskKey, b: DiskKey, c: DiskKey)
    requires a.disk != b.disk && b.disk != c.disk && a.disk != c.disk
    ensures var m := Mark(Mark(Mark(Maps(map[], map[]), o, a, b), o, b, a), o, a, c);
            Redirected(m, On(o, a)) == Some(On(o, b)) && !Inverse(m)
  {
    var m0 := Maps(map[], map[]);
    var m1 := Mark(m0, o, a, b);
    var m2 := Mark(m1, o, b, a);
    assert m1 == Maps(map[On(o, a) := b], map[On(o, b) := a]);
    assert m2 == Maps(map[On(o, a) := b, On(o, b) := a], map[On(o, b) := a, On(o, a) := b]);
    assert Inverse(m0);
    hide Inverse, Mark;
    MarkKeepsInverseIff(m0, o, a, b);
    MarkKeepsInverseIff(m1, o, b, a);
    MarkKeepsInverseIff(m2, o, a, c);
    RedirectedToFirst(m2, o, a, c);
  }

  lemma RedirectedToFirst(m: Maps, o: ObjKey, from: DiskKey, to: DiskKey)
    requires On(o, from) in m.src
    ensures Redirected(Mark(m, o, from, to), On(o, from)) == Redirected(m, On(o, from))
  {
  }

  class UnsettledOBJs {
    var src: map<ObjKey, DiskKey>
    var tgt: map<ObjKey, DiskKey>

    constructor ()
      ensures Abs() == Maps(map[], map[])
    {
      src, tgt := map[], map[];
    }

    ghost function Abs(): Maps
      reads this
    {
      Maps(src, tgt)
    }

    /** The new name is recorded unless the old one leads elsewhere already; settling at once gives back the maps. */
    method MarkOBJAsUnsettled(o: ObjKey, from: DiskKey, to: DiskKey)
      modifies this
      ensures Abs() == Mark(old(Abs()), o, from, to)
      ensures Inverse(old(Abs())) ==> (Inverse(Abs()) <==> (On(o, from) in old(src) <==> On(o, to) in old(tgt)))
      ensures Redirected(Abs(), On(o, from)) == Some(On(o, to)) <==>
                (On(o, from) in old(src) ==> old(src)[On(o, from)].disk == to.disk)
      ensures forall x :: x != On(o, from) ==> Redirected(Abs(), x) == Redirected(old(Abs()), x)
      ensures On(o, from) !in old(src) && On(o, to) !in old(tgt) ==> Settle(Abs(), On(o, to)) == old(Abs())
      ensures var left, joined := ObjKey(from.disk, o.obj), ObjKey(to.disk, o.obj);
              && src == (if left in old(src) then old(src) else old(src)[left := to])
              && tgt == if joined in old(tgt) then old(tgt) else old(tgt)[joined := from]
    {
      if Inverse(Abs()) {
        MarkKeepsInverseIff(Abs(), o, from, to);
      }
      RedirectedIff(Abs(), o, from, to);
      if On(o, from) !in src && On(o, to) !in tgt {
        SettleUndoesMark(Abs(), o, from, to);
      }
      hide Inverse, Settle;
      if On(o, from) !in src {
        src := src[On(o, from) := to];
      }
      if On(o, to) !in tgt {
        tgt := tgt[On(o, to) := from];
      }
    }

    method ShouldRedirect(o: ObjKey) returns (redirect: bool, target: ObjKey)
      ensures redirect <==> Redirected(Abs(), o).Some?
      ensures redirect ==> Redirected(Abs(), o) == Some(target)
      ensures redirect <==> o in src
      ensures redirect ==> target.obj == o.obj && target.storage == src[o].disk
    {
      redirect, target := o in src, o;
      if redirect {
        target := On(o, src[o]);
      }
    }

    method MarkOBJAsSettledIfNeccessary(o: ObjKey) returns (settled: bool)
      modifies this
      ensures settled <==> o in old(tgt)
      ensures Abs() == Settle(old(Abs()), o)
      ensures settled ==> Redirected(Abs(), On(o, old(tgt)[o])) == None
      ensures settled ==> src == old(src) - {ObjKey(old(tgt)[o].disk, o.obj)} && tgt == old(tgt) - {o}
      ensures !settled ==> src == old(src) && tgt == old(tgt)
      ensures Inverse(old(Abs())) ==> Inverse(Abs()) && o !in tgt
      ensures Inverse(old(Abs())) ==> forall x :: x in old(src) && On(x, old(src)[x]) != o ==>
                                                    Redirected(Abs(), x) == Redirected(old(Abs()), x)
    {
      if Inverse(Abs()) {
        SettleKeepsInverse(Abs(), o);
      }
      hide Inverse;
      settled := o in tgt;
      if settled {
        var left := On(o, tgt[o]);
        src, tgt := src - {left}, tgt - {o};
      }
    }
  }
}
