/**
  The disk profile with its loops and its stored cursor: tables of bandwidth and IOPS by
  IO size, one for each read ratio.
 */
module DiskProfile {
  import opened Common
  import opened Interpolation

  datatype Entry = Entry(iosize: nat, bw: nat, iops: nat)

  datatype Ret = Success | NoEnt | Failed

  function BW(t: seq<Entry>): (r: seq<Point>)
    ensures |r| == |t| && forall i :: 0 <= i < |t| ==> r[i] == Point(t[i].iosize, t[i].bw)
  {
    seq(|t|, i requires 0 <= i < |t| => Point(t[i].iosize, t[i].bw))
  }

  function IOPS(t: seq<Entry>): (r: seq<Point>)
    ensures |r| == |t| && forall i :: 0 <= i < |t| ==> r[i] == Point(t[i].iosize, t[i].iops)
  {
    seq(|t|, i requires 0 <= i < |t| => Point(t[i].iosize, t[i].iops))
  }

  /** Values read at the ends of a table, at an entry, and between two entries. */
  lemma AtFound(t: seq<Point>, x: nat, k: nat)
    requires 0 < k < |t| && t[|t| - 1].x < x < t[0].x
    requires t[k].x <= x && forall i :: 0 <= i < k ==> t[i].x > x
    ensures At(t, x) == if t[k].x == x then t[k].y else LinearInterpolation(t[k - 1], t[k], x)
  {
    BelowIs(t, x, k);
    hide LinearInterpolation;
  }

  lemma AtEnds(t: seq<Point>, x: nat)
    requires t != []
    ensures |t| == 1 || t[0].x <= x ==> At(t, x) == t[0].y
    ensures |t| > 1 && t[0].x > x && t[|t| - 1].x >= x ==> At(t, x) == t[|t| - 1].y
  {
  }

  class SubDiskProfile {
    const entries: seq<Entry>
    var it: nat

    constructor (entries: seq<Entry>)
      ensures this.entries == entries
    {
      this.entries, it := entries, 0;
    }

    method GetFirstEntry() returns (e: Option<Entry>)
      modifies `it
      ensures entries == [] ==> e == None
      ensures entries != [] ==> e == Some(entries[0]) && it == 1
    {
      e := None;
      if entries != [] {
        e, it := Some(entries[0]), 1;
      }
    }

    method GetNextEntry() returns (e: Option<Entry>)
      modifies `it
      ensures old(it) < |entries| ==> e == Some(entries[old(it)]) && it == old(it) + 1
      ensures old(it) >= |entries| ==> e == None && it == old(it)
    {
      e := None;
      if it < |entries| {
        e, it := Some(entries[it]), it + 1;
      }
    }

    /** Bandwidth and IOPS for an IO size; a search that starts always ends at an entry. */
    method CalculateDiskPerf(iosize: nat) returns (ret: Ret, bw: nat, ios: nat)
      modifies `it
      ensures ret == if entries == [] then NoEnt else Success
      ensures ret == Success ==> bw == At(BW(entries), iosize) && ios == At(IOPS(entries), iosize)
    {
      hide LinearInterpolation, At;
      ret, bw, ios := NoEnt, 0, 0;
      var e := GetFirstEntry();
      if e.None? {
        return;
      }
      AtEnds(BW(entries), iosize);
      AtEnds(IOPS(entries), iosize);
      var first, last := entries[0], entries[|entries| - 1];
      if |entries| == 1 || first.iosize <= iosize {
        return Success, first.bw, first.iops;
      }
      if last.iosize >= iosize {
        return Success, last.bw, last.iops;
      }
      var prev := first;
      while e.Some? && e.value.iosize > iosize
        invariant 1 <= it <= |entries|
        invariant e.Some? ==> e.value == entries[it - 1]
        invariant e.None? ==> it == |entries| && last.iosize > iosize
        invariant forall i :: 0 <= i < it - 1 ==> entries[i].iosize > iosize
        invariant it > 1 ==> prev == entries[it - 2]
        decreases |entries| - it, e.Some?
      {
        prev := e.value;
        e := GetNextEntry();
      }
      assert e.Some?;
      var k := it - 1;
      AtFound(BW(entries), iosize, k);
      AtFound(IOPS(entries), iosize, k);
      if e.value.iosize == iosize {
        return Success, e.value.bw, e.value.iops;
      }
      ret := Success;
      bw := LinearInterpolation(Point(prev.iosize, prev.bw), Point(e.value.iosize, e.value.bw), iosize);
      ios := LinearInterpolation(Point(prev.iosize, prev.iops), Point(e.value.iosize, e.value.iops), iosize);
    }
  }

  datatype RatioTable = RatioTable(ratio: nat, sub: SubDiskProfile)

  function BWTables(p: seq<RatioTable>): (r: seq<Table>)
    ensures |r| == |p| && forall i :: 0 <= i < |p| ==> r[i] == Table(p[i].ratio, BW(p[i].sub.entries))
  {
    seq(|p|, i requires 0 <= i < |p| => Table(p[i].ratio, BW(p[i].sub.entries)))
  }

  function IOPSTables(p: seq<RatioTable>): (r: seq<Table>)
    ensures |r| == |p| && forall i :: 0 <= i < |p| ==> r[i] == Table(p[i].ratio, IOPS(p[i].sub.entries))
  {
    seq(|p|, i requires 0 <= i < |p| => Table(p[i].ratio, IOPS(p[i].sub.entries)))
  }

  function Subs(p: seq<RatioTable>): set<SubDiskProfile>
  {
    set i | 0 <= i < |p| :: p[i].sub
  }

  /** The answer of a call as an outcome of one of its two values. */
  function AsOutcome(ret: Ret, y: nat): Outcome
  {
    match ret
    case Success => Value(y)
    case NoEnt => NoEntry
    case Failed => AssertFails
  }

  lemma {:induction false} LookupIs(p: seq<Table>, ratio: nat, x: nat, k: nat)
    requires k <= |p| && (forall i :: 0 <= i < k ==> p[i].ratio != ratio) && (k < |p| ==> p[k].ratio == ratio)
    ensures Lookup(p, ratio, x) == if k == |p| || p[k].points == [] then NoEntry else Value(At(p[k].points, x))
  {
    if k > 0 {
      LookupIs(p[1..], ratio, x, k - 1);
    }
  }

  /**
    A profile is met at every entry of its tables: at the read ratio of a table and the size of one of
    its entries, bandwidth and IOPS are those of the entry.
   */
  lemma ProfileEntry(p: seq<RatioTable>, i: nat, j: nat)
    requires WellFormed(BWTables(p)) && WellFormed(IOPSTables(p))
    requires i < |p| && (p[i].ratio < 95 || p[i].ratio == 100)
    requires j < |p[i].sub.entries| && Descending(BW(p[i].sub.entries))
    ensures var e := p[i].sub.entries[j];
            && RatioAt(BWTables(p), p[i].ratio, e.iosize) == Value(e.bw)
            && RatioAt(IOPSTables(p), p[i].ratio, e.iosize) == Value(e.iops)
  {
    var entries := p[i].sub.entries;
    RatioOfTable(BWTables(p), i, p[i].ratio, entries[j].iosize);
    RatioOfTable(IOPSTables(p), i, p[i].ratio, entries[j].iosize);
    hide RatioAt, At, WellFormed;
    AtEntry(BW(entries), j);
    AtEntry(IOPS(entries), j);
  }

  class DiskPerfProfile {
    const rndPerf: seq<RatioTable>
    const seqPerf: seq<RatioTable>

    constructor (rndPerf: seq<RatioTable>, seqPerf: seq<RatioTable>)
      ensures this.rndPerf == rndPerf && this.seqPerf == seqPerf
    {
      this.rndPerf, this.seqPerf := rndPerf, seqPerf;
    }

    method PerfOfRatio(p: seq<RatioTable>, ratio: nat, iosize: nat) returns (ret: Ret, bw: nat, ios: nat)
      modifies Subs(p)
      ensures AsOutcome(ret, bw) == Lookup(BWTables(p), ratio, iosize)
      ensures AsOutcome(ret, ios) == Lookup(IOPSTables(p), ratio, iosize)
    {
      hide Lookup, At;
      ret, bw, ios := NoEnt, 0, 0;
      var k := 0;
      while k < |p| && p[k].ratio != ratio
        invariant k <= |p| && forall i :: 0 <= i < k ==> p[i].ratio != ratio
      {
        k := k + 1;
      }
      LookupIs(BWTables(p), ratio, iosize, k);
      LookupIs(IOPSTables(p), ratio, iosize, k);
      if k < |p| {
        assert p[k].sub in Subs(p);
        ret, bw, ios := p[k].sub.CalculateDiskPerf(iosize);
      }
    }

    /** One of the two kinds of IO at its read ratio. */
    method PerfOfKind(p: seq<RatioTable>, rwratio: nat, iosize: nat) returns (ret: Ret, bw: nat, ios: nat)
      modifies Subs(p)
      ensures AsOutcome(ret, bw) == RatioAt(BWTables(p), rwratio, iosize)
      ensures AsOutcome(ret, ios) == RatioAt(IOPSTables(p), rwratio, iosize)
    {
      hide Lookup, At, Between, IsRWRatioFuzzyMatch;
      if IsRWRatioFuzzyMatch(0, rwratio) {
        ret, bw, ios := PerfOfRatio(p, 0, iosize);
        return;
      }
      if IsRWRatioFuzzyMatch(100, rwratio) {
        ret, bw, ios := PerfOfRatio(p, 100, iosize);
        return;
      }
      var prevratio, k := 0, 0;
      while k < |p| && p[k].ratio < rwratio
        invariant k <= |p| && forall i :: 0 <= i < k ==> p[i].ratio < rwratio
        invariant prevratio == if k == 0 then 0 else p[k - 1].ratio
      {
        prevratio, k := p[k].ratio, k + 1;
      }
      AtLeastIs(BWTables(p), rwratio, k);
      AtLeastIs(IOPSTables(p), rwratio, k);
      if k == |p| {
        return Failed, 0, 0;
      }
      var nextratio := p[k].ratio;
      if nextratio == rwratio {
        ret, bw, ios := PerfOfRatio(p, rwratio, iosize);
        return;
      }
      ret, bw, ios := PerfBetween(p, k, prevratio, nextratio, rwratio, iosize);
    }

    /** Both neighbours of a ratio, and the line between them. */
    method PerfBetween(p: seq<RatioTable>, ghost k: nat, prevratio: nat, nextratio: nat, rwratio: nat, iosize: nat)
      returns (ret: Ret, bw: nat, ios: nat)
      requires k < |p| && prevratio == (if k == 0 then 0 else p[k - 1].ratio) && nextratio == p[k].ratio
      modifies Subs(p)
      ensures AsOutcome(ret, bw) == Between(BWTables(p), k, rwratio, iosize)
      ensures AsOutcome(ret, ios) == Between(IOPSTables(p), k, rwratio, iosize)
    {
      hide Lookup, At, LinearInterpolation;
      var bw1, iops1, bw2, iops2;
      ret, bw1, iops1 := PerfOfRatio(p, prevratio, iosize);
      if ret != Success {
        return ret, 0, 0;
      }
      ret, bw2, iops2 := PerfOfRatio(p, nextratio, iosize);
      if ret != Success {
        return ret, 0, 0;
      }
      bw := LinearInterpolation(Point(prevratio, bw1), Point(nextratio, bw2), rwratio);
      ios := LinearInterpolation(Point(prevratio, iops1), Point(nextratio, iops2), rwratio);
    }

    method CalculateDiskPerf(rndseqratio: nat, rndrwratio: nat, rndiosize: nat, seqrwratio: nat, seqiosize: nat)
      returns (ret: Ret, bw: nat, ios: nat)
      requires rndseqratio <= 100
      modifies Subs(rndPerf) + Subs(seqPerf)
      ensures AsOutcome(ret, bw) ==
              Calculate(BWTables(rndPerf), BWTables(seqPerf), rndseqratio, rndrwratio, rndiosize, seqrwratio, seqiosize)
      ensures AsOutcome(ret, ios) ==
              Calculate(IOPSTables(rndPerf), IOPSTables(seqPerf), rndseqratio, rndrwratio, rndiosize, seqrwratio,
                seqiosize)
    {
      hide RatioAt, WeightedInterpolation;
      var rndbw, rndiops, seqbw, seqiops := 0, 0, 0, 0;
      if rndseqratio != 0 && rndPerf != [] {
        ret, rndbw, rndiops := PerfOfKind(rndPerf, rndrwratio, rndiosize);
        if ret != Success {
          return ret, 0, 0;
        }
      }
      if rndseqratio != 100 && seqPerf != [] {
        ret, seqbw, seqiops := PerfOfKind(seqPerf, seqrwratio, seqiosize);
        if ret != Success {
          return ret, 0, 0;
        }
      } else if rndseqratio != 100 && rndPerf != [] {
        ret, seqbw, seqiops := PerfOfKind(rndPerf, seqrwratio, seqiosize);
        if ret != Success {
          return ret, 0, 0;
        }
      }
      ret := Success;
      bw := WeightedInterpolation(rndseqratio, rndbw, 100 - rndseqratio, seqbw);
      ios := WeightedInterpolation(rndseqratio, rndiops, 100 - rndseqratio, seqiops);
    }
  }
}
