/**
  The daily time schedule: a list of ranges kept sorted and strictly separated, the
  seven-case insertion that keeps it so, and the test whether a second is scheduled.
 */
module TimeSchedule {

  const DAY_END: nat := 86401

  /** Seconds from start up to, but not including, end. */
  datatype RawRange = TimeRange(start: nat, end: nat)

  type TimeRange = r: RawRange | r.start < r.end <= DAY_END witness RawRange.TimeRange(0, DAY_END)

  datatype Status = Success | Invalid | NoData

  const FULL_DAY: TimeRange := RawRange.TimeRange(0, DAY_END)

  predicate InRange(r: RawRange, t: nat) { r.start <= t < r.end }

  predicate Covers(list: seq<TimeRange>, t: nat)
  {
    exists i :: 0 <= i < |list| && InRange(list[i], t)
  }

  ghost predicate Separated(list: seq<TimeRange>)
  {
    forall i, j :: 0 <= i < j < |list| ==> list[i].end < list[j].start
  }

  ghost predicate SortedByStart(list: seq<TimeRange>)
  {
    forall i, j :: 0 <= i < j < |list| ==> list[i].start <= list[j].start
  }

  /** The order the source sorts by; its comparator also answers true on equal ranges. */
  predicate AtMost(a: RawRange, b: RawRange)
  {
    if a.start == b.start then a.end <= b.end else a.start < b.start
  }

  ghost predicate Ordered(list: seq<TimeRange>)
  {
    forall i, j :: 0 <= i < j < |list| ==> AtMost(list[i], list[j])
  }

  method Insert(list: seq<TimeRange>, x: TimeRange) returns (out: seq<TimeRange>)
    requires Ordered(list)
    ensures Ordered(out)
    ensures multiset(out) == multiset(list) + multiset{x}
  {
    var k := 0;
    while k < |list| && AtMost(list[k], x)
      invariant 0 <= k <= |list|
      invariant forall i :: 0 <= i < k ==> AtMost(list[i], x)
    {
      k := k + 1;
    }
    out := list[..k] + [x] + list[k..];
    assert list == list[..k] + list[k..];
  }

  /** Some sorted permutation. */
  method Sort(list: seq<TimeRange>) returns (out: seq<TimeRange>)
    ensures Ordered(out)
    ensures multiset(out) == multiset(list)
  {
    out := [];
    for i := 0 to |list|
      invariant Ordered(out)
      invariant multiset(out) == multiset(list[..i])
    {
      out := Insert(out, list[i]);
      assert list[..i + 1] == list[..i] + [list[i]];
    }
    assert list[..|list|] == list;
  }

  lemma CoverOfPermutation(a: seq<TimeRange>, b: seq<TimeRange>, t: nat)
    requires multiset(a) == multiset(b) && Covers(a, t)
    ensures Covers(b, t)
  {
    var i :| 0 <= i < |a| && InRange(a[i], t);
    assert a[i] in multiset(b);
    var j :| 0 <= j < |b| && b[j] == a[i];
    assert InRange(b[j], t);
  }

  /** The two ranges share exactly one endpoint and the new one is the smaller. */
  predicate SharesOneEnd(r: RawRange, n: RawRange)
  {
    || (n.start == r.start && n.end < r.end)
    || (n.start > r.start && n.end == r.end)
  }

  /** What the adjusting pass makes of one range of the list. */
  function Adjusted(r: TimeRange, n: TimeRange): (a: TimeRange)
  {
    if n.start < r.start && r.start <= n.end && n.end < r.end then RawRange.TimeRange(n.start, r.end)
    else if n.start <= r.start && n.end >= r.end then n
    else if n.start > r.start && n.start <= r.end && n.end > r.end then RawRange.TimeRange(r.start, n.end)
    else r
  }

  predicate Apart(r: RawRange, n: RawRange)
  {
    n.end < r.start || n.start > r.end
  }

  /** The pass stops at a range that equals the new one or strictly contains it. */
  predicate Stops(r: RawRange, n: RawRange)
  {
    r == n || (n.start > r.start && n.end < r.end)
  }

  /** The state of the adjusting pass after k ranges: the first k were adjusted, none of them stopped it. */
  ghost predicate Passed(list: seq<TimeRange>, n: TimeRange, k: nat, out: seq<TimeRange>, shouldAdd: bool,
                         status: Status)
  {
    && k <= |list| == |out|
    && (forall j :: 0 <= j < k ==> !Stops(list[j], n) && out[j] == Adjusted(list[j], n))
    && (forall j :: k <= j < |list| ==> out[j] == list[j])
    && (shouldAdd <==> exists j :: 0 <= j < k && Apart(list[j], n))
    && (status == Invalid <==> exists j :: 0 <= j < k && SharesOneEnd(list[j], n))
    && status != NoData
  }

  lemma PassOne(list: seq<TimeRange>, n: TimeRange, k: nat, out: seq<TimeRange>, shouldAdd: bool, status: Status)
    requires Passed(list, n, k, out, shouldAdd, status) && k < |list| && !Stops(list[k], n)
    ensures Passed(list, n, k + 1, out[k := Adjusted(list[k], n)], shouldAdd || Apart(list[k], n),
                   if SharesOneEnd(list[k], n) then Invalid else status)
  {
  }

  /** The pass ended, at the end of the list or at a range that stops it. */
  ghost predicate Ended(list: seq<TimeRange>, n: TimeRange, k: nat)
  {
    k <= |list| && (k < |list| ==> Stops(list[k], n))
  }

  lemma EndedBeforeOverlap(list: seq<TimeRange>, n: TimeRange, k: nat, j: nat)
    requires Separated(list) && Ended(list, n, k) && k < |list| && j < |list| && j != k
    ensures Apart(list[j], n)
  {
  }

  lemma AdjustedCover(r: TimeRange, n: TimeRange, t: nat)
    ensures InRange(r, t) ==> InRange(Adjusted(r, n), t)
    ensures InRange(Adjusted(r, n), t) ==> InRange(r, t) || InRange(n, t)
    ensures !Apart(r, n) && !Stops(r, n) && InRange(n, t) ==> InRange(Adjusted(r, n), t)
  {
  }

  /** After the pass, with the new range appended when it lies apart from some range, exactly the union is covered. */
  lemma PassCover(list: seq<TimeRange>, n: TimeRange, k: nat, out: seq<TimeRange>, shouldAdd: bool, status: Status,
                  t: nat)
    requires Separated(list) && list != []
    requires Passed(list, n, k, out, shouldAdd, status) && Ended(list, n, k)
    ensures Covers(if shouldAdd then out + [n] else out, t) <==> Covers(list, t) || InRange(n, t)
  {
    var all := if shouldAdd then out + [n] else out;
    if i :| 0 <= i < |list| && InRange(list[i], t) {
      AdjustedCover(list[i], n, t);
      assert InRange(all[i], t);
    }
    if InRange(n, t) {
      if shouldAdd {
        assert InRange(all[|out|], t);
      } else if k < |list| {
        assert InRange(all[k], t);
      } else {
        AdjustedCover(list[0], n, t);
        assert InRange(all[0], t);
      }
    }
    if i :| 0 <= i < |all| && InRange(all[i], t) {
      if i < |out| {
        AdjustedCover(list[i], n, t);
      }
    }
  }

  /** Without an append the adjusted list is still in start order, so the merge may rely on it. */
  lemma PassKeepsOrder(list: seq<TimeRange>, n: TimeRange, k: nat, out: seq<TimeRange>, status: Status)
    requires Separated(list) && Passed(list, n, k, out, false, status) && Ended(list, n, k)
    ensures SortedByStart(out)
  {
    if k < |list| {
      forall j | 0 <= j < k ensures Apart(list[j], n) {
        EndedBeforeOverlap(list, n, k, j);
      }
      assert out == list;
    } else {
      forall i, j | 0 <= i < j < |out| ensures out[i].start <= out[j].start {
        assert !Apart(list[i], n) && !Apart(list[j], n);
        assert list[i].end < list[j].start;
      }
    }
  }

  /** The pass reports an invalid range exactly when some range of the list shares one end with it. */
  lemma InvalidExactly(list: seq<TimeRange>, n: TimeRange, k: nat, out: seq<TimeRange>, shouldAdd: bool, status: Status)
    requires Separated(list) && Passed(list, n, k, out, shouldAdd, status) && Ended(list, n, k)
    ensures status == Invalid <==>
            exists i :: 0 <= i < |list| && ((n.start == list[i].start && n.end < list[i].end) ||
                                            (n.start > list[i].start && n.end == list[i].end))
  {
    if k < |list| {
      forall j | 0 <= j < |list| && j != k ensures !SharesOneEnd(list[j], n) {
        EndedBeforeOverlap(list, n, k, j);
      }
    }
  }

  /** There is only one sorted permutation. */
  lemma {:induction false} SortedUnique(a: seq<TimeRange>, b: seq<TimeRange>)
    requires Ordered(a) && Ordered(b) && multiset(a) == multiset(b)
    ensures a == b
  {
    if a == [] {
      assert |multiset(b)| == 0;
    } else {
      SameFirst(a, b);
      assert a == [a[0]] + a[1..] && b == [b[0]] + b[1..];
      assert multiset(a[1..]) == multiset(a) - multiset{a[0]};
      assert multiset(b[1..]) == multiset(b) - multiset{b[0]};
      SortedUnique(a[1..], b[1..]);
    }
  }

  lemma SameFirst(a: seq<TimeRange>, b: seq<TimeRange>)
    requires Ordered(a) && Ordered(b) && multiset(a) == multiset(b) && a != []
    ensures b != [] && a[0] == b[0]
  {
    assert a[0] in multiset(b);
    var i :| 0 <= i < |b| && b[i] == a[0];
    assert b[0] in multiset(a);
    var j :| 0 <= j < |a| && a[j] == b[0];
    assert AtMost(a[0], b[0]) && AtMost(b[0], a[0]);
  }

  /** Merges neighbours that touch or overlap. */
  method Merge(list: seq<TimeRange>) returns (out: seq<TimeRange>)
    requires list != [] && SortedByStart(list)
    ensures Separated(out) && out != []
    ensures forall t: nat :: Covers(out, t) <==> Covers(list, t)
  {
    var temp: seq<TimeRange> := [];
    var prev := list[0];
    assert temp + [prev] == list[..1];
    for i := 1 to |list|
      invariant Separated(temp) && forall j :: 0 <= j < |temp| ==> temp[j].end < prev.start
      invariant forall j :: i <= j < |list| ==> prev.start <= list[j].start
      invariant forall t: nat :: Covers(temp + [prev], t) <==> Covers(list[..i], t)
    {
      ghost var before := temp + [prev];
      var next := list[i];
      if prev.end < next.start {
        temp := temp + [prev];
        prev := next;
        MergeAppend(before, list, i);
      } else {
        var joined: TimeRange := RawRange.TimeRange(prev.start, if next.end > prev.end then next.end else prev.end);
        MergeJoin(temp, prev, next, joined, list, i);
        prev := joined;
      }
    }
    out := temp + [prev];
    assert list[..|list|] == list;
  }

  lemma CoversSnoc(list: seq<TimeRange>, x: TimeRange, t: nat)
    ensures Covers(list + [x], t) <==> Covers(list, t) || InRange(x, t)
  {
    if i :| 0 <= i < |list| && InRange(list[i], t) {
      assert (list + [x])[i] == list[i];
    }
    if InRange(x, t) {
      assert (list + [x])[|list|] == x;
    }
  }

  lemma MergeAppend(before: seq<TimeRange>, list: seq<TimeRange>, i: nat)
    requires i < |list| && forall t: nat :: Covers(before, t) <==> Covers(list[..i], t)
    ensures forall t: nat :: Covers(before + [list[i]], t) <==> Covers(list[..i + 1], t)
  {
    forall t: nat ensures Covers(before + [list[i]], t) <==> Covers(list[..i + 1], t) {
      CoversSnoc(before, list[i], t);
      CoversSnoc(list[..i], list[i], t);
      assert list[..i + 1] == list[..i] + [list[i]];
    }
  }

  lemma MergeJoin(temp: seq<TimeRange>, prev: TimeRange, next: TimeRange, joined: TimeRange, list: seq<TimeRange>,
                  i: nat)
    requires i < |list| && list[i] == next
    requires prev.start <= next.start <= prev.end
    requires joined.start == prev.start && joined.end == if next.end > prev.end then next.end else prev.end
    requires forall t: nat :: Covers(temp + [prev], t) <==> Covers(list[..i], t)
    ensures forall t: nat :: Covers(temp + [joined], t) <==> Covers(list[..i + 1], t)
  {
    forall t: nat ensures Covers(temp + [joined], t) <==> Covers(list[..i + 1], t) {
      CoversSnoc(temp, prev, t);
      CoversSnoc(temp, joined, t);
      CoversSnoc(list[..i], next, t);
      assert list[..i + 1] == list[..i] + [next];
      assert InRange(joined, t) <==> InRange(prev, t) || InRange(next, t);
    }
  }

  class TimeScheduleConfig {
    var ranges: seq<TimeRange>
    var weekDays: bv8

    ghost predicate Valid()
      reads this
    {
      Separated(ranges)
    }

    constructor (weekDays: bv8)
      ensures Valid() && ranges == [RawRange.TimeRange(0, 86401)] && this.weekDays == weekDays
    {
      ranges, this.weekDays := [FULL_DAY], weekDays;
    }

    method Reset()
      modifies this`ranges
      ensures Valid() && ranges == [FULL_DAY]
    {
      ranges := [FULL_DAY];
    }

    /** The adjusting pass over the list. */
    method Adjust(n: TimeRange) returns (shouldAdd: bool, status: Status, ghost k: nat)
      requires Valid()
      modifies this`ranges
      ensures Passed(old(ranges), n, k, ranges, shouldAdd, status) && Ended(old(ranges), n, k)
    {
      hide Passed;
      ghost var list := ranges;
      shouldAdd, status := false, Success;
      var i := 0;
      PassNone(list, n);
      while i < |ranges|
        invariant 0 <= i <= |ranges| == |list|
        invariant forall j :: i <= j < |list| ==> ranges[j] == list[j]
        invariant Passed(list, n, i, ranges, shouldAdd, status)
      {
        var range := ranges[i];
        if n.start == range.start && n.end == range.end {
          break;
        } else if n.start > range.start && n.end < range.end {
          break;
        }
        PassOne(list, n, i, ranges, shouldAdd, status);
        ghost var before := ranges;
        if n.end < range.start {
          shouldAdd := true;
        } else if n.start < range.start && range.start <= n.end && n.end < range.end {
          ranges := ranges[i := RawRange.TimeRange(n.start, range.end)];
        } else if n.start <= range.start && n.end >= range.end {
          ranges := ranges[i := RawRange.TimeRange(n.start, n.end)];
        } else if n.start > range.start && n.start <= range.end && n.end > range.end {
          ranges := ranges[i := RawRange.TimeRange(range.start, n.end)];
        } else if n.start > range.end {
          shouldAdd := true;
        } else {
          status := Invalid;
        }
        assert ranges == before[i := Adjusted(range, n)];
        i := i + 1;
      }
      k := i;
    }

    /**
      Adds one range. The full-day default gives way only to a new schedule; otherwise the
      list afterwards covers exactly the old cover and the new range, also when the new
      range shares one end with a larger one and the call answers Invalid.
     */
    method AddTimeRange(n: TimeRange, newSchedule: bool) returns (status: Status)
      requires Valid()
      modifies this`ranges
      ensures Valid() && ranges != []
      ensures old(ranges) == [] ==> ranges == [n] && status == Success
      ensures old(ranges) != [] && old(ranges)[0] == FULL_DAY ==>
                ranges == (if newSchedule then [n] else old(ranges)) && status == Success
      ensures old(ranges) != [] && old(ranges)[0] != FULL_DAY ==>
                && (forall t: nat :: Covers(ranges, t) <==> Covers(old(ranges), t) || InRange(n, t))
                && (status == Invalid <==> exists i :: 0 <= i < |old(ranges)| && SharesOneEnd(old(ranges)[i], n))
                && status != NoData
    {
      hide Passed, Ended;
      if ranges == [] {
        ranges := [n];
        return Success;
      }
      var first := ranges[0];
      if first.start == 0 && first.end == DAY_END {
        assert |ranges| > 1 ==> ranges[0].end < ranges[1].start;
        assert |ranges| == 1;
        if newSchedule {
          ranges := [n];
        }
        return Success;
      }
      ghost var list := ranges;
      var shouldAdd, result, k := Adjust(n);
      InvalidExactly(list, n, k, ranges, shouldAdd, result);
      ghost var adjusted := ranges;
      if shouldAdd {
        var sorted := Sort(ranges + [n]);
        ranges := sorted;
        SizeKept(adjusted + [n], ranges);
      } else {
        PassKeepsOrder(list, n, k, ranges, result);
      }
      PassedSize(list, n, k, adjusted, shouldAdd, result);
      ghost var gathered := ranges;
      var temp := Merge(ranges);
      ranges := temp;
      var sorted := Sort(ranges);
      SortedUnique(sorted, temp);
      ranges := sorted;
      forall t: nat ensures Covers(ranges, t) <==> Covers(list, t) || InRange(n, t) {
        PassCover(list, n, k, adjusted, shouldAdd, result, t);
        SamePermutedCover(if shouldAdd then adjusted + [n] else adjusted, gathered, t);
      }
      status := result;
    }

    /**
      Replaces the schedule by the given ranges. It stops after the first range that shares
      one end with a larger one; `used` is how many ranges went in, the refused one included.
     */
    method AddTimeRanges(input: seq<TimeRange>) returns (status: Status, ghost used: nat)
      requires Valid()
      modifies this`ranges
      ensures Valid() && used <= |input|
      ensures input == [] <==> status == NoData
      ensures input == [] ==> ranges == old(ranges) && used == 0
      ensures input != [] ==> used > 0 && IsNormal(ranges, input[..used])
      ensures status == Success ==> used == |input|
      ensures forall k :: 1 <= k < used ==> (Refused(input, k) <==> status == Invalid && k == used - 1)
      ensures status == Invalid ==> used > 1
    {
      hide IsNormal, Refused, Covers;
      used := 0;
      if input == [] {
        return NoData, 0;
      }
      Reset();
      var _ := AddTimeRange(input[0], true);
      used := 1;
      status := Success;
      NormalOne(input);
      for index := 1 to |input|
        invariant Valid() && ranges != [] && used == index && status == Success
        invariant IsNormal(ranges, input[..index])
        invariant forall k :: 1 <= k < index ==> !Refused(input, k)
      {
        ghost var before := ranges;
        status := AddTimeRange(input[index], false);
        NormalAddOne(before, ranges, input, index, status);
        used := index + 1;
        if status != Success {
          break;
        }
      }
      assert input[..|input|] == input;
    }

    /** Whether the second of the day, on weekday wday counted from Sunday, lies in the schedule. */
    method TimeIsScheduled(wday: nat, seconds: nat) returns (scheduled: bool)
      requires wday < 7
      ensures scheduled <==>
                && ((0x80 as bv8) >> wday) & weekDays != 0
                && exists i :: 0 <= i < |ranges| && ranges[i].start <= seconds < ranges[i].end
    {
      if ((0x80 as bv8) >> wday) & weekDays == 0 {
        return false;
      }
      var i := 0;
      while i < |ranges|
        invariant 0 <= i <= |ranges|
        invariant forall j :: 0 <= j < i ==> !InRange(ranges[j], seconds)
      {
        if ranges[i].start <= seconds && ranges[i].end > seconds {
          assert InRange(ranges[i], seconds);
          return true;
        }
        i := i + 1;
      }
      scheduled := false;
    }

    method CheckTimeScheduleConfigEqual(timeRanges: seq<TimeRange>, weekDays: bv8) returns (equal: bool)
      ensures equal <==> this.weekDays == weekDays && ranges == timeRanges
    {
      if this.weekDays == weekDays && |ranges| == |timeRanges| {
        for index := 0 to |timeRanges|
          invariant forall j :: 0 <= j < index ==> timeRanges[j] == ranges[j]
        {
          if timeRanges[index] != ranges[index] {
            return false;
          }
        }
        return true;
      }
      equal := false;
    }
  }

  lemma PassNone(list: seq<TimeRange>, n: TimeRange)
    ensures Passed(list, n, 0, list, false, Success)
  {
  }

  lemma PassedSize(list: seq<TimeRange>, n: TimeRange, k: nat, out: seq<TimeRange>, shouldAdd: bool, status: Status)
    requires Passed(list, n, k, out, shouldAdd, status)
    ensures |out| == |list| && status != NoData
  {
  }

  lemma SizeKept(a: seq<TimeRange>, b: seq<TimeRange>)
    requires multiset(a) == multiset(b)
    ensures |a| == |b|
  {
    assert |multiset(a)| == |multiset(b)|;
  }

  lemma SamePermutedCover(a: seq<TimeRange>, b: seq<TimeRange>, t: nat)
    requires multiset(a) == multiset(b)
    ensures Covers(a, t) <==> Covers(b, t)
  {
    if Covers(a, t) {
      CoverOfPermutation(a, b, t);
    }
    if Covers(b, t) {
      CoverOfPermutation(b, a, t);
    }
  }

  /** The one list that stands for the seconds the inputs cover. */
  ghost predicate IsNormal(list: seq<TimeRange>, input: seq<TimeRange>)
  {
    Separated(list) && forall t: nat :: Covers(list, t) <==> Covers(input, t)
  }

  /** Input k is refused: it shares one end with a larger range of the list the earlier inputs made. */
  ghost predicate Refused(input: seq<TimeRange>, k: nat)
    requires k < |input|
  {
    exists list :: RefusedBy(list, input, k)
  }

  ghost predicate RefusedBy(list: seq<TimeRange>, input: seq<TimeRange>, k: nat)
    requires k < |input|
  {
    && IsNormal(list, input[..k])
    && list != [] && list[0] != FULL_DAY
    && exists i :: 0 <= i < |list| && SharesOneEnd(list[i], input[k])
  }

  /** Equal cover means equal lists: the sorted, strictly separated form is canonical. */
  lemma {:induction false} NormalFormIsCanonical(a: seq<TimeRange>, b: seq<TimeRange>)
    requires Separated(a) && Separated(b)
    requires forall t: nat :: Covers(a, t) <==> Covers(b, t)
    ensures a == b
  {
    if a == [] {
      if b != [] {
        assert InRange(b[0], b[0].start);
        assert Covers(b, b[0].start);
      }
    } else {
      assert InRange(a[0], a[0].start);
      assert Covers(a, a[0].start);
      SameHead(a, b);
      forall t: nat ensures Covers(a[1..], t) <==> Covers(b[1..], t) {
        TailCover(a, t);
        TailCover(b, t);
      }
      NormalFormIsCanonical(a[1..], b[1..]);
      assert a == [a[0]] + a[1..] && b == [b[0]] + b[1..];
    }
  }

  lemma TailCover(a: seq<TimeRange>, t: nat)
    requires Separated(a) && a != []
    ensures Covers(a[1..], t) <==> Covers(a, t) && t > a[0].end
    ensures t <= a[0].end ==> (Covers(a, t) <==> a[0].start <= t < a[0].end)
  {
    if i :| 0 <= i < |a| && InRange(a[i], t) {
      if i > 0 {
        assert InRange(a[1..][i - 1], t);
        assert a[0].end < a[i].start;
      }
    }
    if i :| 0 <= i < |a[1..]| && InRange(a[1..][i], t) {
      assert InRange(a[i + 1], t);
      assert a[0].end < a[i + 1].start;
    }
    if a[0].start <= t < a[0].end {
      assert InRange(a[0], t);
    }
  }

  lemma SameHead(a: seq<TimeRange>, b: seq<TimeRange>)
    requires Separated(a) && Separated(b) && a != [] && b != []
    requires forall t: nat :: Covers(a, t) <==> Covers(b, t)
    ensures a[0] == b[0]
  {
    hide Covers;
    TailCover(a, a[0].start);
    TailCover(b, a[0].start);
    TailCover(a, b[0].start);
    TailCover(b, b[0].start);
    TailCover(a, a[0].end);
    TailCover(b, a[0].end);
    TailCover(a, b[0].end);
    TailCover(b, b[0].end);
  }

  lemma NormalOne(input: seq<TimeRange>)
    requires input != []
    ensures IsNormal([input[0]], input[..1])
  {
    assert input[..1] == [input[0]];
  }

  lemma FullDayCovers(list: seq<TimeRange>, n: TimeRange, t: nat)
    requires Separated(list) && list != [] && list[0] == FULL_DAY
    ensures InRange(n, t) ==> Covers(list, t)
  {
    if InRange(n, t) {
      assert InRange(list[0], t);
    }
  }

  lemma NormalAddOne(before: seq<TimeRange>, after: seq<TimeRange>, input: seq<TimeRange>, k: nat, status: Status)
    requires k < |input| && Separated(after) && before != [] && IsNormal(before, input[..k])
    requires before[0] == FULL_DAY ==> after == before && status == Success
    requires before[0] != FULL_DAY ==>
               && (forall t: nat :: Covers(after, t) <==> Covers(before, t) || InRange(input[k], t))
               && (status == Invalid <==> exists i :: 0 <= i < |before| && SharesOneEnd(before[i], input[k]))
    ensures IsNormal(after, input[..k + 1])
    ensures Refused(input, k) <==> status == Invalid
  {
    forall t: nat ensures Covers(after, t) <==> Covers(input[..k + 1], t) {
      assert input[..k + 1] == input[..k] + [input[k]];
      CoversSnoc(input[..k], input[k], t);
      if before[0] == FULL_DAY {
        FullDayCovers(before, input[k], t);
      }
    }
    if list :| RefusedBy(list, input, k) {
      NormalFormIsCanonical(list, before);
    }
    if status == Invalid {
      assert RefusedBy(before, input, k);
    }
  }

  /** Inputs that all go in give the same schedule in whatever order, and however they overlap. */
  lemma ScheduleIndependentOfOrder(a: seq<TimeRange>, b: seq<TimeRange>, listA: seq<TimeRange>, listB: seq<TimeRange>)
    requires IsNormal(listA, a) && IsNormal(listB, b)
    requires multiset(a) == multiset(b)
    ensures listA == listB
  {
    forall t: nat ensures Covers(listA, t) <==> Covers(listB, t) {
      SamePermutedCover(a, b, t);
    }
    NormalFormIsCanonical(listA, listB);
  }

  /** Comparing normalised lists decides whether they cover the same seconds. */
  lemma EqualityDecidesCoverage(a: seq<TimeRange>, b: seq<TimeRange>)
    requires Separated(a) && Separated(b)
    ensures a == b <==> forall t: nat :: Covers(a, t) <==> Covers(b, t)
  {
    if forall t: nat :: Covers(a, t) <==> Covers(b, t) {
      NormalFormIsCanonical(a, b);
    }
  }

  /**
    Order does matter once an input is refused: after 00:00:10-20, the range 10-15 is
    refused and a later 30-40 is never added; with the first two exchanged all go in.
   */
  lemma RefusalDependsOnOrder(x: TimeRange, y: TimeRange)
    requires x == RawRange.TimeRange(10, 20) && y == RawRange.TimeRange(10, 15)
    ensures Refused([x, y], 1) && !Refused([y, x], 1)
  {
    assert [x, y][..1] == [x] && [y, x][..1] == [y];
    assert IsNormal([x], [x]) && IsNormal([y], [y]);
    assert SharesOneEnd([x][0], y);
    assert RefusedBy([x], [x, y], 1);
    if list :| RefusedBy(list, [y, x], 1) {
      NormalFormIsCanonical(list, [y]);
    }
  }
}
