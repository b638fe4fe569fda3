/**
  What is counted about IO: moving averages of an object's counters, sums over the objects
  of a disk, and response times in milliseconds with a remembered remainder.
 */
module IoAccounting {
  import opened Arith
  import opened Common

  // Moving averages

  /** A previous average of zero counts as none. */
  function Ema(prev: nat, cur: nat, m1: nat, m2: nat, divisor: nat): nat
    requires divisor > 0
  {
    if prev != 0 then Quotient(Wrap(Wrap(prev * m1) + Wrap(cur * m2)), divisor) else cur
  }

  /** The value is the weighted mean, rounded down, exactly when the weighted sum fits its word. */
  lemma EmaExactIff(prev: nat, cur: nat, m1: nat, m2: nat, divisor: nat)
    requires 0 < divisor < U32 && prev > 0
    ensures Ema(prev, cur, m1, m2, divisor) == Quotient(prev * m1 + cur * m2, divisor) <==> prev * m1 + cur * m2 < U32
  {
    WrapOfSum(prev * m1, cur * m2);
    WordQuotient(prev * m1 + cur * m2, divisor);
    hide Quotient, Wrap;
  }

  lemma WeightedSumBetween(a: nat, b: nat, m1: nat, m2: nat, low: nat, high: nat)
    requires low <= a <= high && low <= b <= high
    ensures low * (m1 + m2) <= a * m1 + b * m2 <= high * (m1 + m2)
  {
    MulMonotone(low, a, m1);
    MulMonotone(low, b, m2);
    MulMonotone(a, high, m1);
    MulMonotone(b, high, m2);
  }

  /** With weights that sum to the divisor an average stays in the range of the samples. */
  lemma EmaBetween(prev: nat, cur: nat, m1: nat, m2: nat, divisor: nat, low: nat, high: nat)
    requires divisor > 0 && m1 + m2 == divisor && high * divisor < U32
    requires prev == 0 || low <= prev <= high
    requires low <= cur <= high
    ensures low <= Ema(prev, cur, m1, m2, divisor) <= high
  {
    if prev != 0 {
      var sum := prev * m1 + cur * m2;
      WeightedSumBetween(prev, cur, m1, m2, low, high);
      WrapOfSum(prev * m1, cur * m2);
      WrapBounds(sum);
      QuotientAtLeast(sum, divisor, low);
      QuotientAtMost(sum, divisor, high);
    }
  }

  /** Exactly when no average of samples up to a greatest one leaves their range: its multiple must fit a word. */
  lemma EmaBetweenIff(m1: nat, m2: nat, divisor: nat, high: nat)
    requires 0 < divisor < U32 && m1 + m2 == divisor && high > 0
    ensures (forall low, prev, cur :: StaysBetween(low, prev, cur, high, m1, m2, divisor)) <==> high * divisor < U32
  {
    hide Ema;
    if high * divisor < U32 {
      forall low: nat, prev: nat, cur: nat ensures StaysBetween(low, prev, cur, high, m1, m2, divisor) {
        if 0 < low <= prev <= high && low <= cur <= high {
          EmaBetween(prev, cur, m1, m2, divisor, low, high);
        }
      }
    } else {
      EmaTooSmall(m1, m2, divisor, high);
      assert !StaysBetween(high, high, high, high, m1, m2, divisor);
    }
  }

  /** A previous average and a sample between low and high have their average there. */
  predicate StaysBetween(low: nat, prev: nat, cur: nat, high: nat, m1: nat, m2: nat, divisor: nat)
    requires divisor > 0
  {
    0 < low <= prev <= high && low <= cur <= high ==> low <= Ema(prev, cur, m1, m2, divisor) <= high
  }

  /** Even constant samples are not met any more. */
  lemma EmaTooSmall(m1: nat, m2: nat, divisor: nat, v: nat)
    requires 0 < divisor < U32 && m1 + m2 == divisor && v > 0 && v * divisor >= U32
    ensures Ema(v, v, m1, m2, divisor) < v
  {
    assert v * m1 + v * m2 == v * divisor;
    WrapOfSum(v * m1, v * m2);
    WordQuotient(v * divisor, divisor);
    QuotientAtMost(v * divisor, divisor, v);
    hide Quotient, Wrap;
  }

  /** The average after a run of samples. */
  function EmaRun(samples: seq<nat>, m1: nat, m2: nat, divisor: nat): nat
    requires divisor > 0
  {
    if samples == [] then 0
    else Ema(EmaRun(samples[..|samples| - 1], m1, m2, divisor), samples[|samples| - 1], m1, m2, divisor)
  }

  /** Over every run the average stays between the least and the greatest sample; constant samples are met exactly. */
  lemma {:induction false} EmaRunBetween(samples: seq<nat>, m1: nat, m2: nat, divisor: nat, low: nat, high: nat)
    requires divisor > 0 && m1 + m2 == divisor && high * divisor < U32
    requires samples != [] && forall i :: 0 <= i < |samples| ==> low <= samples[i] <= high
    ensures low <= EmaRun(samples, m1, m2, divisor) <= high
  {
    var front := samples[..|samples| - 1];
    if front != [] {
      EmaRunBetween(front, m1, m2, divisor, low, high);
    }
    hide Ema;
    EmaBetween(EmaRun(front, m1, m2, divisor), samples[|samples| - 1], m1, m2, divisor, low, high);
  }

  // The counters of an object

  datatype Four = Four(rndRead: nat, seqRead: nat, rndWrite: nat, seqWrite: nat)

  datatype ChunkIOStat = ChunkIOStat(ios: Four, bw: Four, rndRT: nat, seqRT: nat)

  const ZERO: ChunkIOStat := ChunkIOStat(Four(0, 0, 0, 0), Four(0, 0, 0, 0), 0, 0)

  const RAW: nat := 0
  const TYPES: nat := 3

  /** All counters in a row. */
  function Fields(s: ChunkIOStat): (r: seq<nat>)
    ensures |r| == 10
  {
    [s.ios.rndRead, s.ios.rndWrite, s.rndRT, s.bw.rndRead, s.bw.rndWrite,
     s.ios.seqRead, s.ios.seqWrite, s.seqRT, s.bw.seqRead, s.bw.seqWrite]
  }

  /** Every counter is one of them: what has the same row is the same. */
  lemma FieldsAreAll(s: ChunkIOStat, t: ChunkIOStat)
    requires Fields(s) == Fields(t)
    ensures s == t
  {
    forall f | 0 <= f < 10 ensures Fields(s)[f] == Fields(t)[f] {
    }
    assert s.ios == t.ios && s.bw == t.bw;
  }

  class OBJIO {
    const stat: array<ChunkIOStat>

    ghost predicate Valid()
      reads this
    {
      stat.Length == TYPES
    }

    constructor ()
      ensures Valid() && fresh(stat) && forall t :: 0 <= t < TYPES ==> stat[t] == ZERO
    {
      stat := new ChunkIOStat[TYPES](_ => ZERO);
    }

    /** Each counter of the average is averaged with the same counter of the raw numbers, and nothing else changes. */
    method CalculateEMAIO(kind: nat, m1: nat, m2: nat, divisor: nat)
      requires Valid() && 0 < kind < TYPES && divisor > 0
      modifies stat
      ensures forall t :: 0 <= t < TYPES && t != kind ==> stat[t] == old(stat[t])
      ensures forall f :: 0 <= f < 10 ==>
                Fields(stat[kind])[f] == Ema(Fields(old(stat[kind]))[f], Fields(stat[RAW])[f], m1, m2, divisor)
    {
      hide Ema;
      var raw, ema := stat[RAW], stat[kind];
      ema := ema.(ios := ema.ios.(rndRead := Ema(ema.ios.rndRead, raw.ios.rndRead, m1, m2, divisor)));
      ema := ema.(ios := ema.ios.(rndWrite := Ema(ema.ios.rndWrite, raw.ios.rndWrite, m1, m2, divisor)));
      ema := ema.(rndRT := Ema(ema.rndRT, raw.rndRT, m1, m2, divisor));
      ema := ema.(bw := ema.bw.(rndRead := Ema(ema.bw.rndRead, raw.bw.rndRead, m1, m2, divisor)));
      ema := ema.(bw := ema.bw.(rndWrite := Ema(ema.bw.rndWrite, raw.bw.rndWrite, m1, m2, divisor)));
      ema := ema.(ios := ema.ios.(seqRead := Ema(ema.ios.seqRead, raw.ios.seqRead, m1, m2, divisor)));
      ema := ema.(ios := ema.ios.(seqWrite := Ema(ema.ios.seqWrite, raw.ios.seqWrite, m1, m2, divisor)));
      ema := ema.(seqRT := Ema(ema.seqRT, raw.seqRT, m1, m2, divisor));
      ema := ema.(bw := ema.bw.(seqRead := Ema(ema.bw.seqRead, raw.bw.seqRead, m1, m2, divisor)));
      ema := ema.(bw := ema.bw.(seqWrite := Ema(ema.bw.seqWrite, raw.bw.seqWrite, m1, m2, divisor)));
      stat[kind] := ema;
    }
  }

  // Sums over the objects of a disk

  datatype DiskIOStat = DiskIOStat(rndRead: nat, seqRead: nat, rndWrite: nat, seqWrite: nat,
                                   read: nat, write: nat, rnd: nat, seqs: nat)

  function Plus(a: Four, b: Four): Four
  {
    Four(a.rndRead + b.rndRead, a.seqRead + b.seqRead, a.rndWrite + b.rndWrite, a.seqWrite + b.seqWrite)
  }

  function Less(a: nat, b: nat): nat { if a > b then a - b else 0 }

  function Added(s: DiskIOStat, o: Four): DiskIOStat
  {
    DiskIOStat(Wrap(s.rndRead + o.rndRead), Wrap(s.seqRead + o.seqRead),
               Wrap(s.rndWrite + o.rndWrite), Wrap(s.seqWrite + o.seqWrite),
               Wrap(s.read + o.rndRead + o.seqRead), Wrap(s.write + o.rndWrite + o.seqWrite),
               Wrap(s.rnd + o.rndRead + o.rndWrite), Wrap(s.seqs + o.seqRead + o.seqWrite))
  }

  /** A counter never falls below zero. */
  function Removed(s: DiskIOStat, o: Four): DiskIOStat
  {
    DiskIOStat(Less(s.rndRead, o.rndRead), Less(s.seqRead, o.seqRead),
               Less(s.rndWrite, o.rndWrite), Less(s.seqWrite, o.seqWrite),
               Less(s.read, Wrap(o.rndRead + o.seqRead)), Less(s.write, Wrap(o.rndWrite + o.seqWrite)),
               Less(s.rnd, Wrap(o.rndRead + o.rndWrite)), Less(s.seqs, Wrap(o.seqRead + o.seqWrite)))
  }

  /** The eight counters that belong to four sums. */
  function Exact(v: Four): DiskIOStat
  {
    DiskIOStat(v.rndRead, v.seqRead, v.rndWrite, v.seqWrite,
               v.rndRead + v.seqRead, v.rndWrite + v.seqWrite, v.rndRead + v.rndWrite, v.seqRead + v.seqWrite)
  }

  predicate Fits(v: Four)
  {
    && v.rndRead + v.seqRead < U32 && v.rndWrite + v.seqWrite < U32
    && v.rndRead + v.rndWrite < U32 && v.seqRead + v.seqWrite < U32
  }

  function WrapAll(s: DiskIOStat): DiskIOStat
  {
    DiskIOStat(Wrap(s.rndRead), Wrap(s.seqRead), Wrap(s.rndWrite), Wrap(s.seqWrite),
               Wrap(s.read), Wrap(s.write), Wrap(s.rnd), Wrap(s.seqs))
  }

  lemma AddedWraps(v: Four, o: Four)
    ensures Added(Exact(v), o) == WrapAll(Exact(Plus(v, o)))
  {
    hide Wrap;
  }

  predicate InWords(s: DiskIOStat)
  {
    && s.rndRead < U32 && s.seqRead < U32 && s.rndWrite < U32 && s.seqWrite < U32
    && s.read < U32 && s.write < U32 && s.rnd < U32 && s.seqs < U32
  }

  lemma WrapAllIff(s: DiskIOStat)
    ensures WrapAll(s) == s <==> InWords(s)
  {
    WrapIff(s.rndRead);
    WrapIff(s.seqRead);
    WrapIff(s.rndWrite);
    WrapIff(s.seqWrite);
    WrapIff(s.read);
    WrapIff(s.write);
    WrapIff(s.rnd);
    WrapIff(s.seqs);
    hide Wrap;
  }

  /** Adding an object keeps the counters exact exactly when the new sums fit their words. */
  lemma AddExactIff(v: Four, o: Four)
    ensures Added(Exact(v), o) == Exact(Plus(v, o)) <==> Fits(Plus(v, o))
  {
    AddedWraps(v, o);
    WrapAllIff(Exact(Plus(v, o)));
    hide Added, WrapAll;
  }

  /** Removing an object that was counted gives back exactly what was there before it. */
  lemma RemoveExact(v: Four, o: Four)
    requires Fits(Plus(v, o))
    ensures Removed(Exact(Plus(v, o)), o) == Exact(v)
  {
    WrapIff(o.rndRead + o.seqRead);
    WrapIff(o.rndWrite + o.seqWrite);
    WrapIff(o.rndRead + o.rndWrite);
    WrapIff(o.seqRead + o.seqWrite);
    hide Wrap;
  }

  /** Removing what was not counted leaves no counter below zero: it takes away what there is. */
  lemma RemovedFloors(s: DiskIOStat, o: Four)
    ensures var r := Removed(s, o);
            && r.rndRead + o.rndRead == Max(s.rndRead, o.rndRead) && r.seqRead + o.seqRead == Max(s.seqRead, o.seqRead)
            && r.rndWrite + o.rndWrite == Max(s.rndWrite, o.rndWrite)
            && r.seqWrite + o.seqWrite == Max(s.seqWrite, o.seqWrite)
            && r.read + Wrap(o.rndRead + o.seqRead) == Max(s.read, Wrap(o.rndRead + o.seqRead))
            && r.write + Wrap(o.rndWrite + o.seqWrite) == Max(s.write, Wrap(o.rndWrite + o.seqWrite))
            && r.rnd + Wrap(o.rndRead + o.rndWrite) == Max(s.rnd, Wrap(o.rndRead + o.rndWrite))
            && r.seqs + Wrap(o.seqRead + o.seqWrite) == Max(s.seqs, Wrap(o.seqRead + o.seqWrite))
  {
  }

  /** The sums over all objects. */
  function Sums(objs: seq<Four>): Four
  {
    if objs == [] then Four(0, 0, 0, 0) else Plus(Sums(objs[..|objs| - 1]), objs[|objs| - 1])
  }

  lemma SumsSnoc(objs: seq<Four>, o: Four)
    ensures Sums(objs + [o]) == Plus(Sums(objs), o)
  {
    assert (objs + [o])[..|objs|] == objs;
  }

  /** What one more object adds to which counter: reads and writes, random and sequential, and each kind by itself. */
  lemma ObjectCounts(objs: seq<Four>, o: Four)
    ensures Sums([]) == Four(0, 0, 0, 0) && Exact(Four(0, 0, 0, 0)) == DiskIOStat(0, 0, 0, 0, 0, 0, 0, 0)
    ensures var s, t := Exact(Sums(objs)), Exact(Sums(objs + [o]));
            && t.rndRead == s.rndRead + o.rndRead && t.seqRead == s.seqRead + o.seqRead
            && t.rndWrite == s.rndWrite + o.rndWrite && t.seqWrite == s.seqWrite + o.seqWrite
            && t.read == s.read + (o.rndRead + o.seqRead) && t.write == s.write + (o.rndWrite + o.seqWrite)
            && t.rnd == s.rnd + (o.rndRead + o.rndWrite) && t.seqs == s.seqs + (o.seqRead + o.seqWrite)
  {
    SumsSnoc(objs, o);
    assert Sums([]) == Four(0, 0, 0, 0);
    hide Sums;
  }

  lemma {:induction false} SumsJoin(a: seq<Four>, b: seq<Four>)
    ensures Sums(a + b) == Plus(Sums(a), Sums(b))
  {
    if b == [] {
      assert a + b == a;
    } else {
      var n := |b| - 1;
      SumsJoin(a, b[..n]);
      SumsSnoc(a + b[..n], b[n]);
      assert a + b == (a + b[..n]) + [b[n]];
    }
  }

  lemma SumsAround(a: seq<Four>, x: Four, b: seq<Four>)
    ensures Sums((a + [x]) + b) == Plus(Sums(a + b), x)
  {
    hide Sums;
    SumsJoin(a + [x], b);
    SumsSnoc(a, x);
    SumsJoin(a, b);
    PlusCommutes(Sums(a), x, Sums(b));
  }

  /** Wherever an object stands among the others, the sums are those of the others and its own. */
  lemma SumsWithout(objs: seq<Four>, i: nat)
    requires i < |objs|
    ensures Sums(objs) == Plus(Sums(objs[..i] + objs[i + 1..]), objs[i])
  {
    hide Sums, Plus;
    SumsAround(objs[..i], objs[i], objs[i + 1..]);
    assert objs == (objs[..i] + [objs[i]]) + objs[i + 1..];
  }

  lemma PlusCommutes(a: Four, x: Four, b: Four)
    ensures Plus(Plus(a, x), b) == Plus(Plus(a, b), x)
  {
  }

  datatype Op = AddOBJ(o: Four) | RemoveOBJ(i: nat)

  /** A disk's counters and the objects counted. */
  datatype Disk = Disk(stat: DiskIOStat, objs: seq<Four>)

  predicate Possible(d: Disk, op: Op)
  {
    op.RemoveOBJ? ==> op.i < |d.objs|
  }

  function Next(d: Disk, op: Op): Disk
    requires Possible(d, op)
  {
    match op
    case AddOBJ(o) => Disk(Added(d.stat, o), d.objs + [o])
    case RemoveOBJ(i) => Disk(Removed(d.stat, d.objs[i]), d.objs[..i] + d.objs[i + 1..])
  }

  ghost predicate Run(disks: seq<Disk>, ops: seq<Op>)
  {
    && |disks| == |ops| + 1 && disks[0] == Disk(Exact(Four(0, 0, 0, 0)), [])
    && forall i :: 0 <= i < |ops| ==> Possible(disks[i], ops[i]) && disks[i + 1] == Next(disks[i], ops[i])
  }

  lemma StepExact(d: Disk, op: Op)
    requires d.stat == Exact(Sums(d.objs)) && Fits(Sums(d.objs)) && Possible(d, op)
    requires Fits(Sums(Next(d, op).objs))
    ensures Next(d, op).stat == Exact(Sums(Next(d, op).objs))
  {
    hide Added, Removed, Exact, Fits, Sums, Plus;
    match op
    case AddOBJ(o) =>
      SumsSnoc(d.objs, o);
      AddExactIff(Sums(d.objs), o);
    case RemoveOBJ(i) =>
      SumsWithout(d.objs, i);
      RemoveExact(Sums(d.objs[..i] + d.objs[i + 1..]), d.objs[i]);
  }

  /** Over every run whose sums fit their words, each counter is the sum over the objects added and not removed. */
  lemma {:induction false} RunExact(disks: seq<Disk>, ops: seq<Op>, i: nat)
    requires Run(disks, ops) && i < |disks| && forall k :: 0 <= k <= i ==> Fits(Sums(disks[k].objs))
    ensures disks[i].stat == Exact(Sums(disks[i].objs))
  {
    if i > 0 {
      RunExact(disks, ops, i - 1);
      hide Next, Exact, Sums, Fits, Possible;
      assert disks[i - 1 + 1] == Next(disks[i - 1], ops[i - 1]) && Possible(disks[i - 1], ops[i - 1]);
      StepExact(disks[i - 1], ops[i - 1]);
    }
  }

  lemma StepInWords(d: Disk, op: Op)
    requires InWords(d.stat) && Possible(d, op)
    ensures InWords(Next(d, op).stat)
  {
  }

  lemma {:induction false} RunInWords(disks: seq<Disk>, ops: seq<Op>, i: nat)
    requires Run(disks, ops) && i < |disks|
    ensures InWords(disks[i].stat)
  {
    if i > 0 {
      RunInWords(disks, ops, i - 1);
      assert disks[i - 1 + 1] == Next(disks[i - 1], ops[i - 1]) && Possible(disks[i - 1], ops[i - 1]);
      hide Next, InWords, Possible;
      StepInWords(disks[i - 1], ops[i - 1]);
    }
  }

  /** Over every run the counters are exact all the time if and only if the sums fit their words all the time. */
  lemma RunExactIff(disks: seq<Disk>, ops: seq<Op>)
    requires Run(disks, ops)
    ensures (forall i :: 0 <= i < |disks| ==> disks[i].stat == Exact(Sums(disks[i].objs))) <==>
            (forall i :: 0 <= i < |disks| ==> Fits(Sums(disks[i].objs)))
  {
    hide Run, Sums;
    if forall i :: 0 <= i < |disks| ==> Fits(Sums(disks[i].objs)) {
      forall i | 0 <= i < |disks| ensures disks[i].stat == Exact(Sums(disks[i].objs)) {
        RunExact(disks, ops, i);
      }
    }
    forall i | 0 <= i < |disks| && disks[i].stat == Exact(Sums(disks[i].objs)) ensures Fits(Sums(disks[i].objs)) {
      RunInWords(disks, ops, i);
    }
  }

  /** The counters are exactly the sums over these objects. */
  ghost predicate Counts(s: DiskIOStat, objs: seq<Four>)
  {
    s == Exact(Sums(objs)) && Fits(Sums(objs))
  }

  lemma AddedCounts(s: DiskIOStat, o: Four)
    ensures forall objs :: Counts(s, objs) ==> (Counts(Added(s, o), objs + [o]) <==> Fits(Sums(objs + [o])))
  {
    forall objs | Counts(s, objs) ensures Counts(Added(s, o), objs + [o]) <==> Fits(Sums(objs + [o])) {
      SumsSnoc(objs, o);
      AddExactIff(Sums(objs), o);
    }
    hide Added, Exact, Fits, Sums;
  }

  lemma RemovedCounts(s: DiskIOStat, o: Four)
    ensures forall a, b :: Counts(s, a + [o] + b) ==> Counts(Removed(s, o), a + b)
  {
    forall a, b | Counts(s, a + [o] + b) ensures Counts(Removed(s, o), a + b) {
      var objs := a + [o] + b;
      SumsWithout(objs, |a|);
      assert objs[..|a|] + objs[|a| + 1..] == a + b;
      RemoveExact(Sums(a + b), o);
    }
    hide Removed, Exact, Sums;
  }

  class DiskIO {
    const statIOs: array<DiskIOStat>
    const statBW: array<DiskIOStat>

    ghost predicate Valid()
      reads this
    {
      statIOs.Length == TYPES && statBW.Length == TYPES && statIOs != statBW
    }

    constructor ()
      ensures Valid() && fresh(statIOs) && fresh(statBW)
      ensures forall t :: 0 <= t < TYPES ==> statIOs[t] == statBW[t] == Exact(Four(0, 0, 0, 0))
    {
      statIOs := new DiskIOStat[TYPES](_ => Exact(Four(0, 0, 0, 0)));
      statBW := new DiskIOStat[TYPES](_ => Exact(Four(0, 0, 0, 0)));
    }

    method UpdateStatIOs(kind: nat, obj: OBJIO, plus: bool)
      requires Valid() && obj.Valid()
      modifies statIOs
      ensures kind < TYPES && plus ==> var o := obj.stat[kind].ios;
                forall objs :: Counts(old(statIOs[kind]), objs) ==>
                                 (Counts(statIOs[kind], objs + [o]) <==> Fits(Sums(objs + [o])))
      ensures kind < TYPES && !plus ==> var o := obj.stat[kind].ios;
                forall a, b :: Counts(old(statIOs[kind]), a + [o] + b) ==> Counts(statIOs[kind], a + b)
      ensures kind < TYPES ==> statIOs[kind] == if plus then Added(old(statIOs[kind]), obj.stat[kind].ios)
                                                else Removed(old(statIOs[kind]), obj.stat[kind].ios)
      ensures forall t :: 0 <= t < TYPES && t != kind ==> statIOs[t] == old(statIOs[t])
    {
      if kind < TYPES {
        hide Added, Removed, Counts, Sums, Fits;
        AddedCounts(statIOs[kind], obj.stat[kind].ios);
        RemovedCounts(statIOs[kind], obj.stat[kind].ios);
        var updated := Update(statIOs[kind], obj.stat[kind].ios, plus);
        statIOs[kind] := updated;
      }
    }

    method UpdateStatBW(kind: nat, obj: OBJIO, plus: bool)
      requires Valid() && obj.Valid()
      modifies statBW
      ensures kind < TYPES && plus ==> var o := obj.stat[kind].bw;
                forall objs :: Counts(old(statBW[kind]), objs) ==>
                                 (Counts(statBW[kind], objs + [o]) <==> Fits(Sums(objs + [o])))
      ensures kind < TYPES && !plus ==> var o := obj.stat[kind].bw;
                forall a, b :: Counts(old(statBW[kind]), a + [o] + b) ==> Counts(statBW[kind], a + b)
      ensures kind < TYPES ==> statBW[kind] == if plus then Added(old(statBW[kind]), obj.stat[kind].bw)
                                               else Removed(old(statBW[kind]), obj.stat[kind].bw)
      ensures forall t :: 0 <= t < TYPES && t != kind ==> statBW[t] == old(statBW[t])
    {
      if kind < TYPES {
        hide Added, Removed, Counts, Sums, Fits;
        AddedCounts(statBW[kind], obj.stat[kind].bw);
        RemovedCounts(statBW[kind], obj.stat[kind].bw);
        var updated := Update(statBW[kind], obj.stat[kind].bw, plus);
        statBW[kind] := updated;
      }
    }

    /** The sums of two counters are built up by two additions, each in its word. */
    static method Update(s: DiskIOStat, o: Four, plus: bool) returns (r: DiskIOStat)
      ensures r == if plus then Added(s, o) else Removed(s, o)
    {
      if plus {
        WrapTwice(s.read, o.rndRead, o.seqRead);
        WrapTwice(s.write, o.rndWrite, o.seqWrite);
        WrapTwice(s.rnd, o.rndRead, o.rndWrite);
        WrapTwice(s.seqs, o.seqRead, o.seqWrite);
        hide Wrap;
        var read, write := Wrap(s.read + o.rndRead), Wrap(s.write + o.rndWrite);
        var rnd, seqs := Wrap(s.rnd + o.rndRead), Wrap(s.seqs + o.seqRead);
        read, write := Wrap(read + o.seqRead), Wrap(write + o.seqWrite);
        rnd, seqs := Wrap(rnd + o.rndWrite), Wrap(seqs + o.seqWrite);
        r := DiskIOStat(Wrap(s.rndRead + o.rndRead), Wrap(s.seqRead + o.seqRead),
                        Wrap(s.rndWrite + o.rndWrite), Wrap(s.seqWrite + o.seqWrite), read, write, rnd, seqs);
      } else {
        hide Wrap;
        var readTotal, writeTotal := Wrap(o.rndRead + o.seqRead), Wrap(o.rndWrite + o.seqWrite);
        var rndTotal, seqTotal := Wrap(o.rndRead + o.rndWrite), Wrap(o.seqRead + o.seqWrite);
        r := s;
        r := r.(rndRead := if s.rndRead > o.rndRead then s.rndRead - o.rndRead else 0);
        r := r.(seqRead := if s.seqRead > o.seqRead then s.seqRead - o.seqRead else 0);
        r := r.(rndWrite := if s.rndWrite > o.rndWrite then s.rndWrite - o.rndWrite else 0);
        r := r.(seqWrite := if s.seqWrite > o.seqWrite then s.seqWrite - o.seqWrite else 0);
        r := r.(read := if s.read > readTotal then s.read - readTotal else 0);
        r := r.(write := if s.write > writeTotal then s.write - writeTotal else 0);
        r := r.(rnd := if s.rnd > rndTotal then s.rnd - rndTotal else 0);
        r := r.(seqs := if s.seqs > seqTotal then s.seqs - seqTotal else 0);
      }
    }
  }

  // Response times

  datatype Model = RndRead | RndWrite | SeqRead | SeqWrite

  /** One completed IO: how it accessed the object, and its response time. */
  datatype Sample = Sample(model: Model, usec: nat)

  /** The two counters of milliseconds, and the microseconds that do not make a millisecond yet. */
  datatype Times = Times(remaining: nat, rnd: nat, seqs: nat)
  {
    predicate InWords() { remaining < 1000 && rnd < U32 && seqs < U32 }

    function Accounted(): nat { 1000 * (rnd + seqs) + remaining }

    function Counter(model: Model): nat { if model.RndRead? || model.RndWrite? then rnd else seqs }
  }

  function Fed(t: Times, s: Sample): Times
  {
    var total := Wrap(t.remaining + s.usec);
    if s.model.RndRead? || s.model.RndWrite? then Times(total % 1000, Wrap(t.rnd + total / 1000), t.seqs)
    else Times(total % 1000, t.rnd, Wrap(t.seqs + total / 1000))
  }

  /** Neither the microseconds at hand nor the counter of milliseconds leave their words. */
  predicate SampleFits(t: Times, s: Sample)
  {
    t.remaining + s.usec < U32 && t.Counter(s.model) + (t.remaining + s.usec) / 1000 < U32
  }

  /** The counters after the samples since a reset. */
  function After(samples: seq<Sample>): Times
  {
    if samples == [] then Times(0, 0, 0) else Fed(After(samples[..|samples| - 1]), samples[|samples| - 1])
  }

  predicate AllFit(samples: seq<Sample>)
  {
    samples == [] || (var front := samples[..|samples| - 1];
                      AllFit(front) && SampleFits(After(front), samples[|samples| - 1]))
  }

  function TotalUsec(samples: seq<Sample>): nat
  {
    if samples == [] then 0 else TotalUsec(samples[..|samples| - 1]) + samples[|samples| - 1].usec
  }

  /** Cutting a time into milliseconds and a remainder loses nothing exactly when both words hold their parts. */
  lemma SplitTime(total: nat, counter: nat)
    requires counter < U32
    ensures var kept := 1000 * Wrap(counter + Wrap(total) / 1000) + Wrap(total) % 1000;
            && kept <= 1000 * counter + total
            && (kept == 1000 * counter + total <==> total < U32 && counter + total / 1000 < U32)
  {
    WrapBounds(total);
    WrapBounds(counter + Wrap(total) / 1000);
    hide Wrap;
  }

  /** A sample never adds more than its microseconds, and all of them exactly when its sums fit their words. */
  lemma FedExactIff(t: Times, s: Sample)
    requires t.InWords()
    ensures Fed(t, s).InWords() && Fed(t, s).Accounted() <= t.Accounted() + s.usec
    ensures Fed(t, s).Accounted() == t.Accounted() + s.usec <==> SampleFits(t, s)
  {
    SplitTime(t.remaining + s.usec, t.Counter(s.model));
    WrapBounds(t.Counter(s.model) + Wrap(t.remaining + s.usec) / 1000);
    hide Wrap;
  }

  /**
    Over every run of samples since a reset: 1000 times the milliseconds counted and the remainder
    are never more than the microseconds fed, and equal to them exactly when every sample fitted.
   */
  lemma {:induction false} AccountedExactIff(samples: seq<Sample>)
    ensures After(samples).InWords() && After(samples).Accounted() <= TotalUsec(samples)
    ensures After(samples).Accounted() == TotalUsec(samples) <==> AllFit(samples)
  {
    if samples != [] {
      var front := samples[..|samples| - 1];
      AccountedExactIff(front);
      FedExactIff(After(front), samples[|samples| - 1]);
      hide Fed, SampleFits;
    }
  }

  /** No sample of 2^32 - 1000 microseconds or more, and a total below 2^32 milliseconds: then nothing is lost. */
  lemma {:induction false} ShortTimesFit(samples: seq<Sample>)
    requires forall i :: 0 <= i < |samples| ==> samples[i].usec <= U32 - 1000
    requires TotalUsec(samples) < 1000 * U32
    ensures AllFit(samples)
  {
    if samples != [] {
      var front := samples[..|samples| - 1];
      ShortTimesFit(front);
      AccountedExactIff(front);
      ShortTimeFits(After(front), samples[|samples| - 1]);
      hide Fed, SampleFits;
    }
  }

  lemma ShortTimeFits(t: Times, s: Sample)
    requires t.InWords() && s.usec <= U32 - 1000 && t.Accounted() + s.usec < 1000 * U32
    ensures SampleFits(t, s)
  {
  }

  lemma AfterSnoc(samples: seq<Sample>, s: Sample)
    ensures After(samples + [s]) == Fed(After(samples), s)
  {
    assert (samples + [s])[..|samples|] == samples;
  }

  class OBJView {
    var remainingRT: nat
    var stat: ChunkIOStat
    /** What has been fed since the last reset. */
    ghost var samples: seq<Sample>

    ghost function Time(): Times
      reads this
    {
      Times(remainingRT, stat.rndRT, stat.seqRT)
    }

    ghost predicate Valid()
      reads this
    {
      Time().InWords() && Time() == After(samples)
    }

    constructor ()
      ensures Valid() && samples == [] && remainingRT == 0 && stat == ZERO
    {
      remainingRT, stat, samples := 0, ZERO, [];
    }

    /**
      Every microsecond fed since the reset is accounted for exactly when every sample so far
      fitted its words. IOs and bandwidth go to the counters of the model.
     */
    method Update(model: Model, ios: nat, bw: nat, rtusec: nat)
      requires Valid()
      modifies this
      ensures Valid() && samples == old(samples) + [Sample(model, rtusec)]
      ensures Time().Accounted() == TotalUsec(samples) <==> AllFit(samples)
      ensures Time().Accounted() == old(Time().Accounted()) + rtusec <==>
                old(remainingRT) + rtusec < U32
                && old(Time().Counter(model)) + (old(remainingRT) + rtusec) / 1000 < U32
      ensures stat.ios == match model
                case RndRead => old(stat.ios).(rndRead := Wrap(old(stat.ios.rndRead) + ios))
                case RndWrite => old(stat.ios).(rndWrite := Wrap(old(stat.ios.rndWrite) + ios))
                case SeqRead => old(stat.ios).(seqRead := Wrap(old(stat.ios.seqRead) + ios))
                case SeqWrite => old(stat.ios).(seqWrite := Wrap(old(stat.ios.seqWrite) + ios))
      ensures stat.bw == match model
                case RndRead => old(stat.bw).(rndRead := Wrap(old(stat.bw.rndRead) + bw))
                case RndWrite => old(stat.bw).(rndWrite := Wrap(old(stat.bw.rndWrite) + bw))
                case SeqRead => old(stat.bw).(seqRead := Wrap(old(stat.bw.seqRead) + bw))
                case SeqWrite => old(stat.bw).(seqWrite := Wrap(old(stat.bw.seqWrite) + bw))
      ensures model.RndRead? || model.RndWrite? ==> stat.seqRT == old(stat.seqRT)
      ensures model.SeqRead? || model.SeqWrite? ==> stat.rndRT == old(stat.rndRT)
    {
      FedExactIff(Time(), Sample(model, rtusec));
      AfterSnoc(samples, Sample(model, rtusec));
      AccountedExactIff(samples + [Sample(model, rtusec)]);
      samples := samples + [Sample(model, rtusec)];
      hide Wrap, After, AllFit, TotalUsec;
      Count(model, ios, bw, rtusec);
    }

    method Count(model: Model, ios: nat, bw: nat, rtusec: nat)
      modifies `remainingRT, `stat
      ensures Time() == Fed(old(Time()), Sample(model, rtusec))
      ensures stat.ios == match model
                case RndRead => old(stat.ios).(rndRead := Wrap(old(stat.ios.rndRead) + ios))
                case RndWrite => old(stat.ios).(rndWrite := Wrap(old(stat.ios.rndWrite) + ios))
                case SeqRead => old(stat.ios).(seqRead := Wrap(old(stat.ios.seqRead) + ios))
                case SeqWrite => old(stat.ios).(seqWrite := Wrap(old(stat.ios.seqWrite) + ios))
      ensures stat.bw == match model
                case RndRead => old(stat.bw).(rndRead := Wrap(old(stat.bw.rndRead) + bw))
                case RndWrite => old(stat.bw).(rndWrite := Wrap(old(stat.bw.rndWrite) + bw))
                case SeqRead => old(stat.bw).(seqRead := Wrap(old(stat.bw.seqRead) + bw))
                case SeqWrite => old(stat.bw).(seqWrite := Wrap(old(stat.bw.seqWrite) + bw))
    {
      var totalusec := Wrap(remainingRT + rtusec);
      var rtmsec := totalusec / 1000;
      remainingRT := totalusec % 1000;
      hide Wrap;
      match model
      case RndRead =>
        stat := stat.(ios := stat.ios.(rndRead := Wrap(stat.ios.rndRead + ios)),
                      bw := stat.bw.(rndRead := Wrap(stat.bw.rndRead + bw)), rndRT := Wrap(stat.rndRT + rtmsec));
      case RndWrite =>
        stat := stat.(ios := stat.ios.(rndWrite := Wrap(stat.ios.rndWrite + ios)),
                      bw := stat.bw.(rndWrite := Wrap(stat.bw.rndWrite + bw)), rndRT := Wrap(stat.rndRT + rtmsec));
      case SeqRead =>
        stat := stat.(ios := stat.ios.(seqRead := Wrap(stat.ios.seqRead + ios)),
                      bw := stat.bw.(seqRead := Wrap(stat.bw.seqRead + bw)), seqRT := Wrap(stat.seqRT + rtmsec));
      case SeqWrite =>
        stat := stat.(ios := stat.ios.(seqWrite := Wrap(stat.ios.seqWrite + ios)),
                      bw := stat.bw.(seqWrite := Wrap(stat.bw.seqWrite + bw)), seqRT := Wrap(stat.seqRT + rtmsec));
    }

    method Reset()
      modifies this
      ensures Valid() && samples == [] && stat == ZERO && remainingRT == 0
    {
      remainingRT, stat, samples := 0, ZERO, [];
    }
  }
}
