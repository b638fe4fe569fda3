/**
  Disk performance from a profile: piecewise linear in the IO size, linear between two
  read ratios, and a weighted harmonic mean of the random and the sequential part, all in
  truncating 32-bit arithmetic.
 */
module Interpolation {
  import opened Common
  import opened Arith

  datatype Point = Point(x: nat, y: nat)

  const RWRATIO_DIFF: nat := 5

  function LinearInterpolation(a: Point, b: Point, x: nat): nat
  {
    if a.x > x && x > b.x then
      if b.y < a.y then Wrap(Quotient(Wrap((a.y - b.y) * (x - b.x)), a.x - b.x) + b.y)
      else (b.y - Quotient(Wrap((b.y - a.y) * (x - b.x)), a.x - b.x)) % U32
    else if b.x > x && x > a.x then
      if a.y < b.y then Wrap(Quotient(Wrap((b.y - a.y) * (x - a.x)), b.x - a.x) + a.y)
      else (a.y - Quotient(Wrap((a.y - b.y) * (x - a.x)), b.x - a.x)) % U32
    else 0
  }

  function Distance(a: nat, b: nat): nat { if a <= b then b - a else a - b }

  /** No product strictly between the two points leaves 32 bits. */
  predicate Fits(a: Point, b: Point)
  {
    Distance(a.y, b.y) * (Distance(a.x, b.x) - 1) < U32
  }

  lemma LinearSymmetric(a: Point, b: Point, x: nat)
    ensures LinearInterpolation(a, b, x) == LinearInterpolation(b, a, x)
  {
    hide Quotient, Wrap;
  }

  /** The rise over d of a segment of height h and width w, rounded down. */
  function Rise(h: nat, w: nat, d: nat): nat
    requires w > 0
  {
    Quotient(h * d, w)
  }

  lemma RiseAtMost(h: nat, w: nat, d: nat)
    requires d < w
    ensures h * d <= h * w && Rise(h, w, d) <= h
  {
    MulMonotone(d, w, h);
    if h > 0 {
      assert h * d < h * w;
    }
    QuotientAtMost(h * d, w, h);
  }

  lemma RiseTimes(h: nat, w: nat, d: nat)
    requires w > 0
    ensures w * Rise(h, w, d) <= h * d < w * Rise(h, w, d) + w
  {
    hide Quotient;
  }

  lemma RiseMonotone(h: nat, w: nat, d: nat, d': nat)
    requires d <= d' && w > 0
    ensures Rise(h, w, d) <= Rise(h, w, d')
  {
    MulMonotone(d, d', h);
    QuotientMonotone(h * d, h * d', w);
  }

  /** The rise as computed: of the product as a 32-bit word. */
  function WordRise(h: nat, w: nat, d: nat): nat
    requires w > 0
  {
    Quotient(Wrap(h * d), w)
  }

  /** A product that does not fit only makes the rise too small, by one step at least. */
  lemma WordRiseIs(h: nat, w: nat, d: nat)
    requires 0 < w < U32
    ensures WordRise(h, w, d) <= Rise(h, w, d)
    ensures WordRise(h, w, d) == Rise(h, w, d) <==> h * d < U32
  {
    WordQuotient(h * d, w);
    hide Quotient, Wrap;
  }

  /**
    Strictly between two points the value is the one of the line, rounded towards the lower end of the
    segment, if the product fits.
   */
  lemma LinearValue(lo: Point, hi: Point, x: nat)
    requires lo.x < x < hi.x < U32 && lo.y < U32 && hi.y < U32
    ensures var q := WordRise(Distance(lo.y, hi.y), hi.x - lo.x, x - lo.x);
            && q <= Distance(lo.y, hi.y)
            && LinearInterpolation(lo, hi, x) == if lo.y < hi.y then lo.y + q else lo.y - q
  {
    var h, w, d := Distance(lo.y, hi.y), hi.x - lo.x, x - lo.x;
    RiseAtMost(h, w, d);
    WordRiseIs(h, w, d);
    hide Rise;
    LinearByWord(lo, hi, x);
    hide WordRise, LinearInterpolation;
    WrapBounds(if lo.y < hi.y then WordRise(h, w, d) + lo.y else lo.y - WordRise(h, w, d));
  }

  lemma LinearByWord(lo: Point, hi: Point, x: nat)
    requires lo.x < x < hi.x
    ensures var q := WordRise(Distance(lo.y, hi.y), hi.x - lo.x, x - lo.x);
            LinearInterpolation(lo, hi, x) == if lo.y < hi.y then Wrap(q + lo.y) else (lo.y - q) % U32
  {
    hide Quotient, Wrap;
  }

  /** What the line through the two points gives, rounded towards the lower end. */
  function OnLine(lo: Point, hi: Point, x: nat): int
    requires lo.x < x < hi.x
  {
    var q := Rise(Distance(lo.y, hi.y), hi.x - lo.x, x - lo.x);
    if lo.y < hi.y then lo.y + q else lo.y - q
  }

  /** The value lies on the line exactly when the product fits its word. */
  lemma LinearOnLineIff(lo: Point, hi: Point, x: nat)
    requires lo.x < x < hi.x < U32 && lo.y < U32 && hi.y < U32
    ensures LinearInterpolation(lo, hi, x) == OnLine(lo, hi, x) <==> Distance(lo.y, hi.y) * (x - lo.x) < U32
  {
    LinearValue(lo, hi, x);
    WordRiseIs(Distance(lo.y, hi.y), hi.x - lo.x, x - lo.x);
    hide Rise, WordRise, LinearInterpolation;
  }

  /** In any case it stays between the values of the two points. */
  lemma LinearBetween(a: Point, b: Point, x: nat, low: nat, high: nat)
    requires (a.x < x < b.x < U32 || b.x < x < a.x < U32) && a.y < U32 && b.y < U32
    requires low <= a.y <= high && low <= b.y <= high
    ensures low <= LinearInterpolation(a, b, x) <= high
  {
    hide WordRise, LinearInterpolation;
    if a.x < b.x {
      LinearValue(a, b, x);
    } else {
      LinearSymmetric(a, b, x);
      LinearValue(b, a, x);
    }
  }

  /** At most, read upwards or downwards. */
  predicate Le(up: bool, a: nat, b: nat) { if up then a <= b else b <= a }

  /** On one segment the value follows the direction of the segment as far as the products fit. */
  lemma LinearMonotone(lo: Point, hi: Point, x: nat, x': nat, up: bool)
    requires lo.x < x <= x' < hi.x < U32 && lo.y < U32 && hi.y < U32 && Le(up, lo.y, hi.y)
    requires Distance(lo.y, hi.y) * (x' - lo.x) < U32
    ensures Le(up, LinearInterpolation(lo, hi, x), LinearInterpolation(lo, hi, x'))
  {
    hide Rise, LinearInterpolation;
    var h, w := Distance(lo.y, hi.y), hi.x - lo.x;
    MulMonotone(x - lo.x, x' - lo.x, h);
    LinearOnLineIff(lo, hi, x);
    LinearOnLineIff(lo, hi, x');
    RiseMonotone(h, w, x - lo.x, x' - lo.x);
    RiseAtMost(h, w, x - lo.x);
    RiseAtMost(h, w, x' - lo.x);
  }

  lemma PartFits(h: nat, w: nat, d: nat)
    requires d < w && h * (w - 1) < U32
    ensures h * d < U32
  {
    MulMonotone(d, w - 1, h);
  }

  /** Where the products leave their word first. */
  lemma FirstOverflow(h: nat, w: nat) returns (d: nat)
    requires w > 0 && h < U32 <= h * (w - 1)
    ensures 1 < d < w && h * (d - 1) < U32 <= h * d
  {
    d := w - 1;
    while h * (d - 1) >= U32
      invariant 0 < d < w && h * d >= U32
    {
      d := d - 1;
    }
  }

  /** There the rise is smaller than one step before, if height and width together fit a word. */
  lemma FallsAtOverflow(h: nat, w: nat, d: nat)
    requires 0 < w && 0 < d && h * (d - 1) < U32 <= h * d && h < U32 && h + w <= U32
    ensures WordRise(h, w, d) < WordRise(h, w, d - 1)
  {
    var p, r := h * d - U32, h * (d - 1);
    assert h * d == r + h;
    assert Wrap(h * d) == p && Wrap(r) == r;
    var q := Quotient(p, w);
    hide Quotient, Wrap;
    assert (q + 1) * w == w * q + w <= r;
    QuotientAtLeast(r, w, q + 1);
  }

  /**
    Exactly when the value follows the direction of a whole segment: no product strictly between
    its ends may leave 32 bits. Height and width together are to fit a word, so that the fall at
    the first product that does not fit is at least one step.
   */
  lemma SegmentMonotoneIff(lo: Point, hi: Point, up: bool)
    requires lo.x < hi.x < U32 && lo.y < U32 && hi.y < U32 && Le(up, lo.y, hi.y)
    requires Distance(lo.y, hi.y) + (hi.x - lo.x) <= U32
    ensures (forall x, x' :: lo.x < x <= x' < hi.x ==>
                               Le(up, LinearInterpolation(lo, hi, x), LinearInterpolation(lo, hi, x'))) <==>
            Fits(lo, hi)
  {
    var h, w := Distance(lo.y, hi.y), hi.x - lo.x;
    if Fits(lo, hi) {
      forall x, x' | lo.x < x <= x' < hi.x
        ensures Le(up, LinearInterpolation(lo, hi, x), LinearInterpolation(lo, hi, x'))
      {
        PartFits(h, w, x' - lo.x);
        LinearMonotone(lo, hi, x, x', up);
      }
    } else {
      var x := FallingPair(lo, hi, up);
    }
  }

  lemma FallingPair(lo: Point, hi: Point, up: bool) returns (x: nat)
    requires lo.x < hi.x < U32 && lo.y < U32 && hi.y < U32 && Le(up, lo.y, hi.y)
    requires Distance(lo.y, hi.y) + (hi.x - lo.x) <= U32 && !Fits(lo, hi)
    ensures lo.x < x && x + 1 < hi.x
    ensures !Le(up, LinearInterpolation(lo, hi, x), LinearInterpolation(lo, hi, x + 1))
  {
    var h, w := Distance(lo.y, hi.y), hi.x - lo.x;
    var d := FirstOverflow(h, w);
    FallsAtOverflow(h, w, d);
    x := lo.x + (d - 1);
    LinearValue(lo, hi, x);
    LinearValue(lo, hi, x + 1);
    hide WordRise, LinearInterpolation;
  }

  /** Where the products do not fit the value can fall on a rising segment. */
  lemma LinearCanFall()
    ensures LinearInterpolation(Point(0, 0), Point(65537, 65537), 65535) == 65535
    ensures LinearInterpolation(Point(0, 0), Point(65537, 65537), 65536) == 0
  {
  }

  /** A height and a width that do not fit a word together: this segment is flat by chance, with products that wrap. */
  lemma SteepFlatByChance(x: nat)
    requires 0 < x < 641
    ensures !Fits(Point(0, 0), Point(641, U32 - 1))
    ensures LinearInterpolation(Point(0, 0), Point(641, U32 - 1), x) == 6700416
  {
    assert (U32 - 1) * x == (x - 1) * U32 + (U32 - x);
    assert Wrap((U32 - 1) * x) == U32 - x;
    QuotientAtLeast(U32 - x, 641, 6700416);
    QuotientAtMost(U32 - x, 641, 6700416);
    LinearByWord(Point(0, 0), Point(641, U32 - 1), x);
    hide LinearInterpolation, Quotient;
  }

  // One table: IO sizes in descending order

  /** Sizes and values are 32-bit words. */
  predicate Words(t: seq<Point>)
  {
    forall i :: 0 <= i < |t| ==> t[i].x < U32 && t[i].y < U32
  }

  predicate TableFits(t: seq<Point>)
  {
    forall i :: 0 <= i < |t| - 1 ==> Fits(t[i + 1], t[i])
  }

  /** The first entry of at most this size. */
  function Below(t: seq<Point>, x: nat): (k: nat)
    ensures k <= |t| && (k < |t| ==> t[k].x <= x)
    ensures forall i :: 0 <= i < k ==> t[i].x > x
  {
    if t == [] || t[0].x <= x then 0 else 1 + Below(t[1..], x)
  }

  lemma {:induction false} BelowIs(t: seq<Point>, x: nat, k: nat)
    requires k < |t| && t[k].x <= x && forall i :: 0 <= i < k ==> t[i].x > x
    ensures Below(t, x) == k
  {
    if k > 0 {
      BelowIs(t[1..], x, k - 1);
    }
  }

  function At(t: seq<Point>, x: nat): nat
    requires t != []
  {
    var n := |t| - 1;
    if n == 0 || t[0].x <= x then t[0].y
    else if t[n].x >= x then t[n].y
    else
      var k := Below(t, x);
      if t[k].x == x then t[k].y else LinearInterpolation(t[k - 1], t[k], x)
  }

  lemma AtInside(t: seq<Point>, x: nat, low: nat, high: nat)
    requires |t| > 1 && Words(t) && t[0].x > x > t[|t| - 1].x
    requires var k := Below(t, x); low <= t[k].y <= high && low <= t[k - 1].y <= high
    ensures low <= At(t, x) <= high
  {
    hide LinearInterpolation;
    var k := Below(t, x);
    if t[k].x != x {
      LinearSymmetric(t[k], t[k - 1], x);
      LinearBetween(t[k], t[k - 1], x, low, high);
    }
  }

  /** A value read from a table never leaves the range of the table. */
  lemma AtBetween(t: seq<Point>, x: nat, low: nat, high: nat)
    requires t != [] && Words(t) && forall i :: 0 <= i < |t| ==> low <= t[i].y <= high
    ensures low <= At(t, x) <= high
  {
    if |t| > 1 && t[0].x > x > t[|t| - 1].x {
      hide At;
      AtInside(t, x, low, high);
    }
  }

  /** Values grow with the size, or fall with it. */
  predicate Monotone(t: seq<Point>, up: bool)
  {
    forall i, j :: 0 <= i < j < |t| ==> Le(up, t[j].y, t[i].y)
  }

  /** Above the smallest size a value lies between the entries around the size. */
  lemma AtAround(t: seq<Point>, x: nat, up: bool)
    requires t != [] && Words(t) && Monotone(t, up) && x > t[|t| - 1].x
    ensures var k := Below(t, x);
            && k < |t| && Le(up, t[k].y, At(t, x)) && (k > 0 ==> Le(up, At(t, x), t[k - 1].y))
  {
    hide LinearInterpolation;
    var k := Below(t, x);
    if k > 0 && t[k].x != x {
      LinearSymmetric(t[k], t[k - 1], x);
      LinearBetween(t[k], t[k - 1], x, if up then t[k].y else t[k - 1].y, if up then t[k - 1].y else t[k].y);
    }
  }

  lemma BelowMonotone(t: seq<Point>, x: nat, x': nat)
    requires x <= x'
    ensures Below(t, x') <= Below(t, x)
  {
  }

  /** Two sizes between the same entries. */
  lemma AtSameSegment(t: seq<Point>, x: nat, x': nat, up: bool)
    requires Words(t) && TableFits(t) && Monotone(t, up) && |t| > 0 && t[|t| - 1].x < x <= x'
    requires Below(t, x) == Below(t, x')
    ensures Le(up, At(t, x), At(t, x'))
  {
    hide LinearInterpolation;
    var k := Below(t, x);
    if k > 0 {
      AtAround(t, x', up);
      if t[k].x < x {
        assert Fits(t[k - 1 + 1], t[k - 1]);
        assert Le(up, t[k].y, t[k - 1].y);
        PartFits(Distance(t[k].y, t[k - 1].y), t[k - 1].x - t[k].x, x' - t[k].x);
        LinearMonotone(t[k], t[k - 1], x, x', up);
        LinearSymmetric(t[k], t[k - 1], x);
        LinearSymmetric(t[k], t[k - 1], x');
      }
    }
  }

  /** Two sizes above the smallest entry, with an entry between them. */
  lemma AtAcross(t: seq<Point>, x: nat, x': nat, up: bool)
    requires t != [] && Words(t) && Monotone(t, up) && t[|t| - 1].x < x <= x' && Below(t, x') < Below(t, x)
    ensures Le(up, At(t, x), At(t, x'))
  {
    hide At;
    var k, k' := Below(t, x), Below(t, x');
    AtAround(t, x, up);
    AtAround(t, x', up);
    assert k' < k - 1 ==> Le(up, t[k - 1].y, t[k'].y);
  }

  lemma AtFromBottom(t: seq<Point>, x: nat, up: bool)
    requires t != [] && Words(t) && Monotone(t, up) && t[|t| - 1].x < x
    ensures Le(up, t[|t| - 1].y, At(t, x))
  {
    hide At;
    var k := Below(t, x);
    AtAround(t, x, up);
    assert k < |t| - 1 ==> Le(up, t[|t| - 1].y, t[k].y);
  }

  /** Over all segments and beyond both ends, a value follows the direction of a monotone table. */
  lemma AtMonotone(t: seq<Point>, x: nat, x': nat, up: bool)
    requires t != [] && Words(t) && TableFits(t) && Monotone(t, up) && x <= x'
    ensures Le(up, At(t, x), At(t, x'))
  {
    var n := |t| - 1;
    if x > t[n].x {
      hide At;
      BelowMonotone(t, x, x');
      if Below(t, x) == Below(t, x') {
        AtSameSegment(t, x, x', up);
      } else {
        AtAcross(t, x, x', up);
      }
    } else if x' > t[n].x && n > 0 && t[0].x > x {
      AtFromBottom(t, x', up);
      BelowBottom(t, x);
    }
  }

  predicate Descending(t: seq<Point>)
  {
    forall i, j :: 0 <= i < j < |t| ==> t[i].x > t[j].x
  }

  /** Height and width of each segment fit a word together. */
  predicate Moderate(t: seq<Point>)
  {
    forall i :: 0 <= i < |t| - 1 ==> Distance(t[i].y, t[i + 1].y) + Distance(t[i].x, t[i + 1].x) <= U32
  }

  /** Exactly when a value read from a monotone table follows its direction over all sizes. */
  lemma AtMonotoneIff(t: seq<Point>, up: bool)
    requires t != [] && Words(t) && Descending(t) && Monotone(t, up) && Moderate(t)
    ensures (forall x, x' :: x <= x' ==> Le(up, At(t, x), At(t, x'))) <==> TableFits(t)
  {
    hide At, Words, Descending, Monotone, Moderate;
    if TableFits(t) {
      hide TableFits;
      forall x: nat, x': nat | x <= x' ensures Le(up, At(t, x), At(t, x')) {
        AtMonotone(t, x, x', up);
      }
    } else {
      hide TableFits;
      var x := FallingSizes(t, up);
      assert !Le(up, At(t, x), At(t, x + 1));
    }
  }

  lemma FallingSizes(t: seq<Point>, up: bool) returns (x: nat)
    requires t != [] && Words(t) && Descending(t) && Monotone(t, up) && Moderate(t) && !TableFits(t)
    ensures !Le(up, At(t, x), At(t, x + 1))
  {
    hide At, LinearInterpolation;
    var i :| 0 <= i < |t| - 1 && !Fits(t[i + 1], t[i]);
    assert Le(up, t[i + 1].y, t[i].y) && t[i].x > t[i + 1].x;
    assert Distance(t[i].y, t[i + 1].y) + Distance(t[i].x, t[i + 1].x) <= U32;
    x := FallingPair(t[i + 1], t[i], up);
    hide Words, Monotone, Moderate, TableFits, Fits;
    AtOnSegment(t, i, x);
    AtOnSegment(t, i, x + 1);
  }

  lemma AtOnSegment(t: seq<Point>, i: nat, x: nat)
    requires i + 1 < |t| && Descending(t) && t[i + 1].x < x < t[i].x
    ensures At(t, x) == LinearInterpolation(t[i + 1], t[i], x)
  {
    BelowIs(t, x, i + 1);
    LinearSymmetric(t[i], t[i + 1], x);
    assert t[0].x >= t[i].x && t[|t| - 1].x <= t[i + 1].x;
    hide LinearInterpolation;
  }

  lemma BelowBottom(t: seq<Point>, x: nat)
    requires t != [] && x <= t[|t| - 1].x && t[0].x > x
    ensures At(t, x) == t[|t| - 1].y
  {
  }

  /** A table of strictly descending sizes is met exactly at each of its entries. */
  lemma AtEntry(t: seq<Point>, i: nat)
    requires i < |t| && Descending(t)
    ensures At(t, t[i].x) == t[i].y
  {
    BelowIs(t, t[i].x, i);
    hide LinearInterpolation;
  }

  /**
    Between two neighbouring entries the value read, times the width, is within one width of the
    weighted sum of both: below it on a rising segment and above it on a falling one.
   */
  lemma AtNearLine(t: seq<Point>, i: nat, x: nat)
    requires Words(t) && Descending(t) && i + 1 < |t| && t[i + 1].x < x < t[i].x && Fits(t[i + 1], t[i])
    ensures var lo, hi, v := t[i + 1], t[i], At(t, x);
            var w, sum := hi.x - lo.x, lo.y * (hi.x - x) + hi.y * (x - lo.x);
            && (lo.y < hi.y ==> w * v <= sum < w * v + w)
            && (lo.y >= hi.y ==> w * v - w < sum <= w * v)
  {
    AtOnSegment(t, i, x);
    hide At, Descending, LinearInterpolation, Fits;
    LinearTimesWidth(t[i + 1], t[i], x);
  }

  // A profile: tables by read ratio, in ascending order

  datatype Table = Table(ratio: nat, points: seq<Point>)

  datatype Outcome = AssertFails | NoEntry | Value(y: nat)

  predicate IsRWRatioFuzzyMatch(ratio1: nat, ratio2: nat)
  {
    Wrap(ratio1 * (100 - RWRATIO_DIFF)) <= Wrap(ratio2 * 100) <= Wrap(ratio1 * (100 + RWRATIO_DIFF))
  }

  /** The value of the table of exactly this ratio. */
  function Lookup(p: seq<Table>, ratio: nat, x: nat): Outcome
  {
    if p == [] then NoEntry
    else if p[0].ratio == ratio then if p[0].points == [] then NoEntry else Value(At(p[0].points, x))
    else Lookup(p[1..], ratio, x)
  }

  /** The first table of at least this ratio. */
  function AtLeast(p: seq<Table>, q: nat): (k: nat)
    ensures k <= |p| && (k < |p| ==> p[k].ratio >= q)
    ensures forall i :: 0 <= i < k ==> p[i].ratio < q
  {
    if p == [] || p[0].ratio >= q then 0 else 1 + AtLeast(p[1..], q)
  }

  function Between(p: seq<Table>, k: nat, q: nat, x: nat): Outcome
    requires k < |p|
  {
    var prev, next := if k == 0 then 0 else p[k - 1].ratio, p[k].ratio;
    var first, second := Lookup(p, prev, x), Lookup(p, next, x);
    if !first.Value? then first
    else if !second.Value? then second
    else Value(LinearInterpolation(Point(prev, first.y), Point(next, second.y), q))
  }

  /** The performance at a read ratio: of a table that matches, or between its neighbours. */
  function RatioAt(p: seq<Table>, q: nat, x: nat): Outcome
  {
    if IsRWRatioFuzzyMatch(0, q) then Lookup(p, 0, x)
    else if IsRWRatioFuzzyMatch(100, q) then Lookup(p, 100, x)
    else
      var k := AtLeast(p, q);
      if k == |p| then AssertFails
      else if p[k].ratio == q then Lookup(p, q, x)
      else Between(p, k, q, x)
  }

  /** What parsing a profile makes sure of. */
  predicate WellFormed(p: seq<Table>)
  {
    && (forall i :: 0 <= i < |p| ==> p[i].points != [] && Words(p[i].points) && p[i].ratio < U32)
    && (forall i, j :: 0 <= i < j < |p| ==> p[i].ratio < p[j].ratio)
    && (exists i :: 0 <= i < |p| && p[i].ratio == 0) && (exists i :: 0 <= i < |p| && p[i].ratio == 100)
  }

  predicate ValuesIn(p: seq<Table>, low: nat, high: nat)
  {
    forall i, j :: 0 <= i < |p| && 0 <= j < |p[i].points| ==> low <= p[i].points[j].y <= high
  }

  lemma LookupFinds(p: seq<Table>, ratio: nat, x: nat, i: nat)
    requires i < |p| && p[i].ratio == ratio && p[i].points != []
    requires forall j, k :: 0 <= j < k < |p| ==> p[j].ratio < p[k].ratio
    ensures Lookup(p, ratio, x) == Value(At(p[i].points, x))
  {
    if p[0].ratio != ratio {
      LookupFinds(p[1..], ratio, x, i - 1);
    }
  }

  lemma LookupBetween(p: seq<Table>, x: nat, i: nat, low: nat, high: nat)
    requires WellFormed(p) && i < |p| && ValuesIn(p, low, high)
    ensures Lookup(p, p[i].ratio, x).Value? && low <= Lookup(p, p[i].ratio, x).y <= high
  {
    LookupFinds(p, p[i].ratio, x, i);
    hide Lookup, At;
    AtBetween(p[i].points, x, low, high);
  }

  /** The end tables match up to five hundredths off: from ratio 0 only itself, from ratio 100 the ratios 95 to 105. */
  lemma FuzzyAtEnds(q: nat)
    requires 100 * q < U32
    ensures IsRWRatioFuzzyMatch(0, q) <==> q == 0
    ensures IsRWRatioFuzzyMatch(100, q) <==> 95 <= q <= 105
  {
  }

  /** No assertion can fail for a ratio up to 100, and the value stays in the range of the tables. */
  lemma RatioBetween(p: seq<Table>, q: nat, x: nat, low: nat, high: nat)
    requires WellFormed(p) && q <= 100 && ValuesIn(p, low, high) && high < U32
    ensures RatioAt(p, q, x).Value? && low <= RatioAt(p, q, x).y <= high
  {
    hide Lookup, LinearInterpolation;
    FuzzyAtEnds(q);
    hide IsRWRatioFuzzyMatch;
    var zero :| 0 <= zero < |p| && p[zero].ratio == 0;
    var full :| 0 <= full < |p| && p[full].ratio == 100;
    LookupBetween(p, x, zero, low, high);
    LookupBetween(p, x, full, low, high);
    if 0 < q < 95 {
      var k := AtLeast(p, q);
      assert k <= full && k > zero;
      LookupBetween(p, x, k, low, high);
      LookupBetween(p, x, k - 1, low, high);
      var y1, y2 := Lookup(p, p[k - 1].ratio, x).y, Lookup(p, p[k].ratio, x).y;
      if p[k].ratio != q {
        LinearBetween(Point(p[k - 1].ratio, y1), Point(p[k].ratio, y2), q, low, high);
      }
    }
  }

  /** The assertion behind the search fails exactly for ratios above all tables that match neither end. */
  lemma AssertionFailsIff(p: seq<Table>, q: nat, x: nat)
    ensures RatioAt(p, q, x) == AssertFails <==>
              !IsRWRatioFuzzyMatch(0, q) && !IsRWRatioFuzzyMatch(100, q) && forall i :: 0 <= i < |p| ==> p[i].ratio < q
  {
    hide IsRWRatioFuzzyMatch, LinearInterpolation;
    LookupNeverFails(p, q, x);
    LookupNeverFails(p, 0, x);
    LookupNeverFails(p, 100, x);
    var k := AtLeast(p, q);
    if k < |p| {
      LookupNeverFails(p, p[k].ratio, x);
      if k > 0 {
        LookupNeverFails(p, p[k - 1].ratio, x);
      }
    }
    hide Lookup;
  }

  lemma {:induction false} LookupNeverFails(p: seq<Table>, ratio: nat, x: nat)
    ensures Lookup(p, ratio, x) != AssertFails
  {
    if p != [] {
      LookupNeverFails(p[1..], ratio, x);
    }
  }

  /**
    The value between two ratios, times the width: within one width of the weighted sum, below it on a
    rising segment and above it on a falling one.
   */
  lemma LinearTimesWidth(lo: Point, hi: Point, q: nat)
    requires lo.x < q < hi.x < U32 && lo.y < U32 && hi.y < U32 && Fits(lo, hi)
    ensures var v := LinearInterpolation(lo, hi, q);
            var w, sum := hi.x - lo.x, lo.y * (hi.x - q) + hi.y * (q - lo.x);
            && (lo.y < hi.y ==> w * v <= sum < w * v + w && lo.y <= v)
            && (lo.y >= hi.y ==> w * v - w < sum <= w * v && v <= lo.y)
  {
    var h, w, d := Distance(lo.y, hi.y), hi.x - lo.x, q - lo.x;
    PartFits(h, w, d);
    LinearOnLineIff(lo, hi, q);
    RiseTimes(h, w, d);
    RiseAtMost(h, w, d);
    var rise := Rise(h, w, d);
    hide Rise, LinearInterpolation;
    SumByRise(lo.y, hi.y, w, d);
    assert w - d == hi.x - q;
    Distribute(w, lo.y, rise);
  }

  lemma Distribute(w: int, a: int, b: int)
    ensures w * (a + b) == w * a + w * b
    ensures w * (a - b) == w * a - w * b
  {
  }

  lemma SumByRise(y1: nat, y2: nat, w: nat, d: nat)
    requires d < w
    ensures y1 <= y2 ==> y1 * (w - d) + y2 * d == w * y1 + (y2 - y1) * d
    ensures y1 >= y2 ==> y1 * (w - d) + y2 * d == w * y1 - (y1 - y2) * d
  {
    assert y1 * (w - d) == w * y1 - y1 * d;
    assert (y2 - y1) * d == y2 * d - y1 * d && (y1 - y2) * d == y1 * d - y2 * d;
  }

  lemma NotAbove(w: nat, v: int, v': int)
    requires w > 0 && w * v < w * v' + w
    ensures v <= v'
  {
    assert w * (v' + 1) == w * v' + w;
    if v >= v' + 1 {
      MulOrder(w, v' + 1, v);
    }
  }

  lemma MulOrder(w: nat, a: int, b: int)
    requires a <= b
    ensures w * a <= w * b
  {
  }

  /**
    Raising the values at both ratios never lowers the value between them, in spite of the two
    directions of rounding.
   */
  lemma EndsMonotone(lo: Point, hi: Point, lo': Point, hi': Point, q: nat)
    requires lo.x == lo'.x < q < hi.x == hi'.x < U32 && lo.y <= lo'.y < U32 && hi.y <= hi'.y < U32
    requires Fits(lo, hi) && Fits(lo', hi')
    ensures LinearInterpolation(lo, hi, q) <= LinearInterpolation(lo', hi', q)
  {
    LinearTimesWidth(lo, hi, q);
    LinearTimesWidth(lo', hi', q);
    var w := hi.x - lo.x;
    MulMonotone(lo.y, lo'.y, hi.x - q);
    MulMonotone(hi.y, hi'.y, q - lo.x);
    hide LinearInterpolation, Fits;
    if lo.y < hi.y || lo'.y >= hi'.y {
      NotAbove(w, LinearInterpolation(lo, hi, q), LinearInterpolation(lo', hi', q));
    }
  }

  /** All tables go the same way in the IO size, and their products fit. */
  predicate AllMonotone(p: seq<Table>, up: bool)
  {
    forall i :: 0 <= i < |p| ==> Monotone(p[i].points, up) && TableFits(p[i].points)
  }

  lemma LookupMonotone(p: seq<Table>, i: nat, x: nat, x': nat, up: bool)
    requires WellFormed(p) && AllMonotone(p, up) && i < |p| && x <= x'
    ensures Lookup(p, p[i].ratio, x).Value? && Lookup(p, p[i].ratio, x').Value?
    ensures Le(up, Lookup(p, p[i].ratio, x).y, Lookup(p, p[i].ratio, x').y)
  {
    LookupFinds(p, p[i].ratio, x, i);
    LookupFinds(p, p[i].ratio, x', i);
    hide Lookup, At, Monotone, TableFits;
    AtMonotone(p[i].points, x, x', up);
  }

  lemma RatioFits(lo: Point, hi: Point, high: nat)
    requires lo.x <= hi.x && hi.x - lo.x <= 100 && lo.y <= high && hi.y <= high && 100 * high < U32
    ensures Fits(lo, hi)
  {
    var h, w := Distance(lo.y, hi.y), hi.x - lo.x;
    MulMonotone(h, high, w);
    MulMonotone(w, 100, high);
    if w > 0 {
      MulMonotone(w - 1, w, h);
    }
  }

  /**
    At every read ratio, interpolated ones included, the value follows the direction the tables have
    in the IO size.
   */
  lemma RatioMonotone(p: seq<Table>, q: nat, x: nat, x': nat, high: nat, up: bool)
    requires WellFormed(p) && AllMonotone(p, up) && ValuesIn(p, 0, high) && 100 * high < U32 && q <= 100 && x <= x'
    ensures RatioAt(p, q, x).Value? && RatioAt(p, q, x').Value?
    ensures Le(up, RatioAt(p, q, x).y, RatioAt(p, q, x').y)
  {
    hide Lookup, LinearInterpolation, Fits, AllMonotone;
    FuzzyAtEnds(q);
    hide IsRWRatioFuzzyMatch;
    var zero :| 0 <= zero < |p| && p[zero].ratio == 0;
    var full :| 0 <= full < |p| && p[full].ratio == 100;
    LookupMonotone(p, zero, x, x', up);
    LookupMonotone(p, full, x, x', up);
    if 0 < q < 95 {
      var k := AtLeast(p, q);
      assert k <= full && k > zero;
      LookupMonotone(p, k, x, x', up);
      LookupMonotone(p, k - 1, x, x', up);
      if p[k].ratio != q {
        BetweenMonotone(p, k, q, x, x', high, up);
      }
    }
  }

  lemma BetweenMonotone(p: seq<Table>, k: nat, q: nat, x: nat, x': nat, high: nat, up: bool)
    requires WellFormed(p) && AllMonotone(p, up) && ValuesIn(p, 0, high) && 100 * high < U32 && x <= x'
    requires 0 < k < |p| && p[k - 1].ratio < q < p[k].ratio <= 100
    ensures Between(p, k, q, x).Value? && Between(p, k, q, x').Value?
    ensures Le(up, Between(p, k, q, x).y, Between(p, k, q, x').y)
  {
    hide Lookup, LinearInterpolation, Fits;
    LookupMonotone(p, k, x, x', up);
    LookupMonotone(p, k - 1, x, x', up);
    LookupBetween(p, x, k, 0, high);
    LookupBetween(p, x, k - 1, 0, high);
    LookupBetween(p, x', k, 0, high);
    LookupBetween(p, x', k - 1, 0, high);
    var r1, r2 := p[k - 1].ratio, p[k].ratio;
    var lo, hi := Point(r1, Lookup(p, r1, x).y), Point(r2, Lookup(p, r2, x).y);
    var lo', hi' := Point(r1, Lookup(p, r1, x').y), Point(r2, Lookup(p, r2, x').y);
    hide WellFormed, AllMonotone, ValuesIn;
    RatioFits(lo, hi, high);
    RatioFits(lo', hi', high);
    if up {
      EndsMonotone(lo, hi, lo', hi', q);
    } else {
      EndsMonotone(lo', hi', lo, hi, q);
    }
  }

  /**
    At the read ratio of a table the value is read from that table; every ratio from 95 on is read
    from the table of ratio 100.
   */
  lemma RatioOfTable(p: seq<Table>, i: nat, q: nat, x: nat)
    requires WellFormed(p) && i < |p| && q <= 100 && p[i].ratio == if q < 95 then q else 100
    ensures RatioAt(p, q, x) == Value(At(p[i].points, x))
  {
    FuzzyAtEnds(q);
    LookupFinds(p, p[i].ratio, x, i);
    hide IsRWRatioFuzzyMatch, Lookup, At, Between;
    if 0 < q < 95 {
      AtLeastIs(p, q, i);
    }
  }

  lemma {:induction false} AtLeastIs(p: seq<Table>, q: nat, k: nat)
    requires k <= |p| && (forall i :: 0 <= i < k ==> p[i].ratio < q) && (k < |p| ==> p[k].ratio >= q)
    ensures AtLeast(p, q) == k
  {
    if k > 0 {
      AtLeastIs(p[1..], q, k - 1);
    }
  }

  /**
    Strictly between the read ratios of two neighbouring tables, the value times the distance of the
    ratios is within that distance of both tables' values, each weighted by how near its ratio is.
   */
  lemma RatioNearLine(p: seq<Table>, k: nat, q: nat, x: nat)
    requires WellFormed(p) && 0 < k < |p| && p[k - 1].ratio < q < p[k].ratio && q < 95
    requires Distance(At(p[k - 1].points, x), At(p[k].points, x)) * (p[k].ratio - p[k - 1].ratio - 1) < U32
    ensures RatioAt(p, q, x).Value?
    ensures var r1, r2, y1, y2 := p[k - 1].ratio, p[k].ratio, At(p[k - 1].points, x), At(p[k].points, x);
            var w, v, sum := r2 - r1, RatioAt(p, q, x).y, y1 * (r2 - q) + y2 * (q - r1);
            && (y1 < y2 ==> w * v <= sum < w * v + w)
            && (y1 >= y2 ==> w * v - w < sum <= w * v)
  {
    RatioOnLine(p, k, q, x);
    AtIsWord(p[k].points, x);
    AtIsWord(p[k - 1].points, x);
    hide RatioAt, At, LinearInterpolation;
    LinearTimesWidth(Point(p[k - 1].ratio, At(p[k - 1].points, x)), Point(p[k].ratio, At(p[k].points, x)), q);
    hide WellFormed, Fits;
  }

  lemma RatioOnLine(p: seq<Table>, k: nat, q: nat, x: nat)
    requires WellFormed(p) && 0 < k < |p| && p[k - 1].ratio < q < p[k].ratio && q < 95
    ensures var lo, hi := Point(p[k - 1].ratio, At(p[k - 1].points, x)), Point(p[k].ratio, At(p[k].points, x));
            RatioAt(p, q, x) == Value(LinearInterpolation(lo, hi, q))
  {
    FuzzyAtEnds(q);
    LookupFinds(p, p[k].ratio, x, k);
    LookupFinds(p, p[k - 1].ratio, x, k - 1);
    AtLeastIs(p, q, k);
    hide IsRWRatioFuzzyMatch, Lookup, At, AtLeast, LinearInterpolation;
  }

  lemma AtIsWord(t: seq<Point>, x: nat)
    requires t != [] && Words(t)
    ensures At(t, x) < U32
  {
    AtBetween(t, x, 0, U32 - 1);
  }

  // Random and sequential together

  function WeightedInterpolation(weight1: nat, value1: nat, weight2: nat, value2: nat): nat
  {
    var weight := Wrap(weight1 + weight2);
    var ratio1 := if weight == 0 then 0 else Quotient(Wrap(100 * weight1), weight);
    var ratio2 := (100 - ratio1) % U32;
    if ratio1 == 0 || value1 == 0 then value2
    else if ratio2 == 0 || value2 == 0 then value1
    else
      var sum := Wrap(Wrap(ratio1 * value2) + Wrap(ratio2 * value1));
      if sum != 0 then Wrap(Quotient(Wrap(value1 * value2), sum) * 100) else 0
  }

  lemma PercentIsItself(w: nat)
    requires w <= 100
    ensures Quotient(Wrap(100 * w), 100) == w
  {
  }

  /** The denominator of the weighted harmonic mean, in percent. */
  function Denominator(w: nat, v1: nat, v2: nat): nat
    requires w <= 100
  {
    var rest: nat := 100 - w;
    w * v2 + rest * v1
  }

  /** The denominator is at least a hundred times the smaller value. */
  lemma DenominatorBounds(w: nat, v1: nat, v2: nat)
    requires w <= 100
    ensures v1 <= v2 ==> Denominator(w, v1, v2) >= 100 * v1
    ensures v2 <= v1 ==> Denominator(w, v1, v2) >= 100 * v2
  {
    if v1 <= v2 {
      MulMonotone(v1, v2, w);
      assert w * v1 + (100 - w) * v1 == 100 * v1;
    } else {
      MulMonotone(v2, v1, 100 - w);
      assert w * v2 + (100 - w) * v2 == 100 * v2;
    }
  }

  /** The mean of positive values, cut to a multiple of 100, never exceeds the greater value. */
  lemma MeanAtMost(w: nat, v1: nat, v2: nat)
    requires w <= 100 && v1 > 0 && v2 > 0
    ensures Denominator(w, v1, v2) > 0
    ensures Rise(v1, Denominator(w, v1, v2), v2) * 100 <= Max(v1, v2)
  {
    DenominatorBounds(w, v1, v2);
    hide Denominator;
    var d := Denominator(w, v1, v2);
    var q := Rise(v1, d, v2);
    hide Rise;
    assert d * q <= v1 * v2 by { RiseTimes(v1, d, v2); }
    if v1 <= v2 {
      AtMostByMin(q, d, v1, v2);
    } else {
      AtMostByMin(q, d, v2, v1);
    }
  }

  lemma AtMostByMin(q: nat, d: nat, small: nat, great: nat)
    requires small > 0 && d >= 100 * small && d * q <= great * small
    ensures q * 100 <= great
  {
    MulMonotone(100 * small, d, q);
    assert (q * 100) * small == (100 * small) * q;
    if q * 100 > great {
      StrictMul(great, q * 100, small);
    }
  }

  lemma StrictMul(a: nat, b: nat, c: nat)
    requires a < b && c > 0
    ensures a * c < b * c
  {
  }

  lemma WeightedUnfolds(w: nat, v1: nat, v2: nat)
    requires w <= 100
    ensures var sum := Wrap(Wrap(w * v2) + Wrap((100 - w) * v1));
            WeightedInterpolation(w, v1, 100 - w, v2) ==
              if w == 0 || v1 == 0 then v2
              else if w == 100 || v2 == 0 then v1
              else if sum != 0 then Wrap(Quotient(Wrap(v1 * v2), sum) * 100) else 0
  {
    PercentIsItself(w);
    WrapBounds(100);
    hide Quotient, Wrap;
    assert Wrap(w + (100 - w)) == 100;
    assert (100 - w) % U32 == 100 - w;
  }

  lemma SumFits(w: nat, v1: nat, v2: nat)
    requires w <= 100 && Denominator(w, v1, v2) < U32
    ensures Wrap(Wrap(w * v2) + Wrap((100 - w) * v1)) == Denominator(w, v1, v2)
  {
    var a, b := w * v2, (100 - w) * v1;
    assert a >= 0 && b >= 0 && Denominator(w, v1, v2) == a + b;
    WrapBounds(a);
    WrapBounds(b);
    WrapBounds(a + b);
    hide Wrap;
  }

  /**
    With weights that sum to 100 and a denominator that fits, the value in words is computed from the
    very denominator.
   */
  lemma WeightedByWord(w: nat, v1: nat, v2: nat)
    requires w <= 100 && Denominator(w, v1, v2) < U32
    ensures w == 0 || v1 == 0 ==> WeightedInterpolation(w, v1, 100 - w, v2) == v2
    ensures w > 0 && v1 > 0 && (w == 100 || v2 == 0) ==> WeightedInterpolation(w, v1, 100 - w, v2) == v1
    ensures 0 < w < 100 && v1 > 0 && v2 > 0 ==>
              && Denominator(w, v1, v2) > 0
              && WeightedInterpolation(w, v1, 100 - w, v2) == Wrap(WordRise(v1, Denominator(w, v1, v2), v2) * 100)
  {
    WeightedUnfolds(w, v1, v2);
    SumFits(w, v1, v2);
    DenominatorBounds(w, v1, v2);
    hide WeightedInterpolation, Denominator, Quotient, Wrap;
  }

  /** It never exceeds the greater of the two values. */
  lemma WeightedAtMost(w: nat, v1: nat, v2: nat)
    requires w <= 100 && v1 < U32 && v2 < U32 && Denominator(w, v1, v2) < U32
    ensures WeightedInterpolation(w, v1, 100 - w, v2) <= Max(v1, v2)
  {
    WeightedByWord(w, v1, v2);
    hide WeightedInterpolation, Denominator;
    if 0 < w < 100 && v1 > 0 && v2 > 0 {
      MeanAtMost(w, v1, v2);
      WordRiseIs(v1, Denominator(w, v1, v2), v2);
      hide WordRise, Rise;
      WrapBounds(WordRise(v1, Denominator(w, v1, v2), v2) * 100);
    }
  }

  /** A denominator that wraps to zero gives zero. */
  lemma WeightedOfNoDenominator(w: nat, v1: nat, v2: nat)
    requires 0 < w < 100 && 0 < v1 < U32 && 0 < v2 < U32 && Wrap(Denominator(w, v1, v2)) == 0
    ensures WeightedInterpolation(w, v1, 100 - w, v2) == 0
  {
    WeightedUnfolds(w, v1, v2);
    DenominatorWord(w, v1, v2);
    hide WeightedInterpolation, Denominator, Quotient, Wrap;
  }

  lemma DenominatorWord(w: nat, v1: nat, v2: nat)
    requires w <= 100
    ensures Wrap(Wrap(w * v2) + Wrap((100 - w) * v1)) == Wrap(Denominator(w, v1, v2))
  {
    var a, b := w * v2, (100 - w) * v1;
    assert a >= 0 && b >= 0 && Denominator(w, v1, v2) == a + b;
    hide Denominator;
    WrapOfSum(a, b);
  }

  /**
    Exactly when the value does not exceed the greater one, whatever wraps: the product as a word
    must stay below the next hundred of the greater value, times the denominator as a word. The
    quotient itself is to fit its word when it is taken times 100.
   */
  lemma WeightedAtMostIff(w: nat, v1: nat, v2: nat)
    requires 0 < w < 100 && 0 < v1 < U32 && 0 < v2 < U32
    ensures var p, d, m := Wrap(v1 * v2), Wrap(Denominator(w, v1, v2)), Max(v1, v2);
            d > 0 && 100 * p < U32 * d ==>
              (WeightedInterpolation(w, v1, 100 - w, v2) <= m <==> p < (m / 100 + 1) * d)
  {
    WeightedUnfolds(w, v1, v2);
    DenominatorWord(w, v1, v2);
    hide WeightedInterpolation, Denominator, Max, Quotient, Wrap;
    var p, d := Wrap(v1 * v2), Wrap(Denominator(w, v1, v2));
    if d > 0 && 100 * p < U32 * d {
      HundredTimesIff(p, d, Max(v1, v2));
    }
  }

  lemma HundredTimesIff(p: nat, d: nat, m: nat)
    requires d > 0 && 100 * p < U32 * d
    ensures Wrap(Quotient(p, d) * 100) <= m <==> p < (m / 100 + 1) * d
  {
    var q := Quotient(p, d);
    hide Quotient;
    HundredTimesFits(p, d, q);
    WrapBounds(q * 100);
    hide Wrap;
    FitsTimesIff(p, d, q, m / 100 + 1);
    HundredsBelow(q, m);
  }

  lemma HundredTimesFits(p: nat, d: nat, q: nat)
    requires d > 0 && 100 * p < U32 * d && d * q <= p
    ensures q * 100 < U32
  {
    assert (q * 100) * d == 100 * (d * q);
  }

  lemma HundredsBelow(q: nat, m: nat)
    ensures q * 100 <= m <==> q < m / 100 + 1
  {
  }

  /** Where the quotient times 100 wraps too, the value can stay below the greater one by chance. */
  lemma WeightedWrapsByChance()
    ensures var p, d := Wrap(2 * (U32 - 1)), Wrap(Denominator(50, 2, U32 - 1));
            d == 50 && 100 * p >= U32 * d && p >= ((U32 - 1) / 100 + 1) * d
    ensures WeightedInterpolation(50, 2, 50, U32 - 1) <= U32 - 1
  {
    WeightedUnfolds(50, 2, U32 - 1);
    DenominatorWord(50, 2, U32 - 1);
    WordsByChance();
    hide WeightedInterpolation, Denominator, Quotient, Wrap;
  }

  lemma WordsByChance()
    ensures Wrap(2 * (U32 - 1)) == U32 - 2 && Wrap(Denominator(50, 2, U32 - 1)) == 50
    ensures Quotient(U32 - 2, 50) == 85899345 && Wrap(85899345 * 100) < U32
  {
  }

  /**
    Between two positive values it is below the exact weighted harmonic mean by less than 100,
    exactly when the product of the values fits its word.
   */
  lemma WeightedNearMeanIff(w: nat, v1: nat, v2: nat)
    requires 0 < w < 100 && 0 < v1 < U32 && 0 < v2 < U32 && Denominator(w, v1, v2) < U32
    ensures var d, r := Denominator(w, v1, v2), WeightedInterpolation(w, v1, 100 - w, v2);
            (d * r <= 100 * (v1 * v2) < d * (r + 100)) <==> v1 * v2 < U32
  {
    WeightedByWord(w, v1, v2);
    MeanAtMost(w, v1, v2);
    var d, r := Denominator(w, v1, v2), WeightedInterpolation(w, v1, 100 - w, v2);
    hide WeightedInterpolation, Denominator;
    WordRiseIs(v1, d, v2);
    var q, word := Rise(v1, d, v2), WordRise(v1, d, v2);
    RiseTimes(v1, d, v2);
    hide Rise, WordRise;
    WrapBounds(word * 100);
    NearIff(d, v1 * v2, q, word);
  }

  lemma NearIff(d: nat, product: nat, q: nat, word: nat)
    requires d > 0 && d * q <= product < d * q + d && word <= q
    ensures d * (word * 100) <= 100 * product < d * (word * 100 + 100) <==> word == q
  {
    var m := d * word;
    assert d * (word * 100) == 100 * m && d * (word * 100 + 100) == 100 * m + 100 * d;
    if word < q {
      MulMonotone(word + 1, q, d);
      assert (word + 1) * d == m + d && q * d == d * q;
    }
  }

  /** Equal values are not kept: they come back cut to a multiple of 100. */
  lemma WeightedOfEqual(w: nat, v: nat)
    requires 0 < w < 100 && 0 < v && 100 * v < U32
    ensures WeightedInterpolation(w, v, 100 - w, v) == v / 100 * 100 <==> v * v < U32
  {
    assert Denominator(w, v, v) == 100 * v;
    WeightedByWord(w, v, v);
    hide WeightedInterpolation, Denominator;
    EqualWord(v);
    hide WordRise, Wrap;
  }

  lemma EqualWord(v: nat)
    requires 0 < v && 100 * v < U32
    ensures Wrap(WordRise(v, 100 * v, v) * 100) == v / 100 * 100 <==> v * v < U32
  {
    WordRiseIs(v, 100 * v, v);
    var q, q' := Rise(v, 100 * v, v), WordRise(v, 100 * v, v);
    RiseTimes(v, 100 * v, v);
    hide Rise, WordRise;
    EqualQuotient(v, q);
    WrapBounds(q' * 100);
    hide Wrap;
  }

  lemma EqualQuotient(v: nat, q: nat)
    requires v > 0 && (100 * v) * q <= v * v < (100 * v) * q + 100 * v
    ensures q == v / 100 && q * 100 <= v
  {
    assert (100 * v) * q == (100 * q) * v && (100 * v) * q + 100 * v == (100 * q + 100) * v;
    if 100 * q > v {
      StrictMul(v, 100 * q, v);
    }
    if v >= 100 * q + 100 {
      MulMonotone(100 * q + 100, v, v);
    }
  }

  /** With a denominator and a product that fit, the mean of positive values is the exact quotient, times 100. */
  lemma WeightedExact(w: nat, v1: nat, v2: nat)
    requires 0 < w < 100 && 0 < v1 < U32 && 0 < v2 < U32 && Denominator(w, v1, v2) < U32 && v1 * v2 < U32
    ensures Denominator(w, v1, v2) > 0
    ensures WeightedInterpolation(w, v1, 100 - w, v2) == Rise(v1, Denominator(w, v1, v2), v2) * 100
  {
    WeightedByWord(w, v1, v2);
    MeanAtMost(w, v1, v2);
    hide WeightedInterpolation, Denominator;
    WordRiseIs(v1, Denominator(w, v1, v2), v2);
    hide Rise, WordRise;
    WrapBounds(WordRise(v1, Denominator(w, v1, v2), v2) * 100);
  }

  /** A quotient of the mean, times the other weight, is no more than the other value. */
  lemma QuotientTimesRest(q: nat, rest: nat, v1: nat, v2: nat, d: nat)
    requires v1 > 0 && d * q <= v1 * v2 && rest * v1 <= d
    ensures q * rest <= v2
  {
    MulMonotone(rest * v1, d, q);
    assert (rest * v1) * q == (q * rest) * v1 && v2 * v1 == v1 * v2;
    if q * rest > v2 {
      StrictMul(v2, q * rest, v1);
    }
  }

  lemma RaisedProduct(q: nat, rest: nat, v1: nat, v1': nat, v2: nat, d: nat, d': nat)
    requires v1 <= v1' && d * q <= v1 * v2 && q * rest <= v2 && d' == d + rest * (v1' - v1)
    ensures q * d' <= v1' * v2
  {
    var rise: nat := v1' - v1;
    MulMonotone(q * rest, v2, rise);
    assert q * d' == d * q + (q * rest) * rise;
    assert v1' * v2 == v1 * v2 + v2 * rise;
  }

  lemma DenominatorRaised(w: nat, v1: nat, v1': nat, v2: nat)
    requires w <= 100 && v1 <= v1'
    ensures Denominator(w, v1', v2) == Denominator(w, v1, v2) + (100 - w) * (v1' - v1)
    ensures (100 - w) * v1 <= Denominator(w, v1, v2) <= Denominator(w, v1', v2)
  {
    var rest: nat := 100 - w;
    var rise: nat := v1' - v1;
    assert rest * v1' == rest * v1 + rest * rise && rest * rise >= 0;
    assert w * v2 >= 0;
  }

  /** Among positive values the mean never falls when the first of them is raised. */
  lemma WeightedMonotone(w: nat, v1: nat, v1': nat, v2: nat)
    requires 0 < w < 100 && 0 < v1 <= v1' < U32 && 0 < v2 < U32
    requires Denominator(w, v1', v2) < U32 && v1' * v2 < U32
    ensures WeightedInterpolation(w, v1, 100 - w, v2) <= WeightedInterpolation(w, v1', 100 - w, v2)
  {
    DenominatorRaised(w, v1, v1', v2);
    MulMonotone(v1, v1', v2);
    WeightedExact(w, v1, v2);
    WeightedExact(w, v1', v2);
    hide WeightedInterpolation, Denominator;
    var d, d' := Denominator(w, v1, v2), Denominator(w, v1', v2);
    var q := Rise(v1, d, v2);
    RiseTimes(v1, d, v2);
    QuotientTimesRest(q, 100 - w, v1, v2, d);
    RaisedProduct(q, 100 - w, v1, v1', v2, d, d');
    QuotientAtLeast(v1' * v2, d', q);
  }

  lemma WeightedAtLeastHundred(w: nat, v1: nat, v2: nat)
    requires 0 < w < 100 && 0 < v1 < U32 && 0 < v2 < U32 && Denominator(w, v1, v2) <= v1 * v2 < U32
    ensures WeightedInterpolation(w, v1, 100 - w, v2) >= 100
  {
    WeightedExact(w, v1, v2);
    hide WeightedInterpolation, Denominator, Quotient;
    QuotientAtLeast(v1 * v2, Denominator(w, v1, v2), 1);
  }

  lemma WeightedOfLittleWord(w: nat, v1: nat, v2: nat)
    requires 0 < w < 100 && 0 < v1 && 0 < v2 && Denominator(w, v1, v2) < U32
    requires U32 <= v1 * v2 < U32 + Denominator(w, v1, v2)
    ensures WeightedInterpolation(w, v1, 100 - w, v2) == 0
  {
    WeightedByWord(w, v1, v2);
    hide WeightedInterpolation, Denominator, Quotient;
    WrapOnce(v1 * v2);
    QuotientAtMost(v1 * v2 - U32, Denominator(w, v1, v2), 0);
    WrapBounds(0);
    hide Wrap;
  }

  lemma WrapOnce(x: nat)
    requires U32 <= x < 2 * U32
    ensures Wrap(x) == x - U32
  {
  }

  /** The first product that does not fit its word gives zero, after at least a hundred. */
  lemma WeightedFalls(w: nat, v1: nat, v2: nat)
    requires 0 < w < 100 && 0 < v1 < U32 - 1 && 0 < v2 < U32
    requires v1 * v2 < U32 <= v1 * v2 + v2 && Denominator(w, v1 + 1, v2) + v2 <= U32
    ensures WeightedInterpolation(w, v1, 100 - w, v2) >= 100
    ensures WeightedInterpolation(w, v1 + 1, 100 - w, v2) == 0
  {
    DenominatorRaised(w, v1, v1 + 1, v2);
    AtLeastPart(w, v1 + 1, v2);
    hide WeightedInterpolation, Denominator;
    assert (v1 + 1) * v2 == v1 * v2 + v2;
    WeightedAtLeastHundred(w, v1, v2);
    WeightedOfLittleWord(w, v1 + 1, v2);
  }

  lemma AtLeastPart(w: nat, v1: nat, v2: nat)
    requires 0 < w <= 100
    ensures Denominator(w, v1, v2) >= v2
  {
    MulMonotone(1, w, v2);
  }

  /**
    Exactly when the mean never falls while the first value rises up to a greatest one: their
    product must fit its word. The denominator is to leave room for the other value once more, so
    that the fall at the first product that does not fit is not hidden.
   */
  lemma WeightedMonotoneIff(w: nat, top: nat, v2: nat)
    requires 0 < w < 100 && 0 < top < U32 && 0 < v2 < U32 && Denominator(w, top, v2) + v2 <= U32
    ensures (forall v1, v1' :: 0 < v1 <= v1' <= top ==> NoFall(w, v1, v1', v2)) <==> top * v2 < U32
  {
    hide WeightedInterpolation;
    if top * v2 < U32 {
      forall v1: nat, v1': nat | 0 < v1 <= v1' <= top ensures NoFall(w, v1, v1', v2) {
        DenominatorRaised(w, v1', top, v2);
        MulMonotone(v1', top, v2);
        WeightedMonotone(w, v1, v1', v2);
      }
    } else {
      assert v2 * top == top * v2;
      var d := FirstOverflow(v2, top + 1);
      DenominatorRaised(w, d, top, v2);
      assert (d - 1) * v2 == v2 * (d - 1) && (d - 1) * v2 + v2 == v2 * d;
      WeightedFalls(w, d - 1, v2);
      assert !NoFall(w, d - 1, d, v2);
    }
  }

  /** The mean is not lower for the second of two first values. */
  predicate NoFall(w: nat, v1: nat, v1': nat, v2: nat)
    requires w <= 100
  {
    WeightedInterpolation(w, v1, 100 - w, v2) <= WeightedInterpolation(w, v1', 100 - w, v2)
  }

  lemma DenominatorSymmetric(w: nat, v1: nat, v2: nat)
    requires w <= 100
    ensures Denominator(w, v1, v2) == Denominator(100 - w, v2, v1)
  {
  }

  /** The mean does not depend on which part is named first. */
  lemma WeightedSymmetric(w: nat, v1: nat, v2: nat)
    requires 0 < w < 100 && 0 < v1 < U32 && 0 < v2 < U32 && Denominator(w, v1, v2) < U32 && v1 * v2 < U32
    ensures WeightedInterpolation(w, v1, 100 - w, v2) == WeightedInterpolation(100 - w, v2, 100 - (100 - w), v1)
  {
    assert v1 * v2 == v2 * v1;
    DenominatorSymmetric(w, v1, v2);
    WeightedExact(w, v1, v2);
    WeightedExact(100 - w, v2, v1);
    hide WeightedInterpolation, Denominator, Quotient;
  }

  /** Raising both parts never lowers the mix, as long as no part rises from zero. */
  lemma MixMonotone(w: nat, v1: nat, v1': nat, v2: nat, v2': nat)
    requires w <= 100 && v1 <= v1' && v2 <= v2' && (v1 == 0 ==> v1' == 0) && (v2 == 0 ==> v2' == 0)
    requires v1' < U32 && v2' < U32 && Denominator(w, v1', v2') < U32 && v1' * v2' < U32
    ensures WeightedInterpolation(w, v1, 100 - w, v2) <= WeightedInterpolation(w, v1', 100 - w, v2')
  {
    DenominatorRaised(w, v1, v1', v2');
    DenominatorSymmetric(w, v1, v2);
    DenominatorSymmetric(w, v1, v2');
    DenominatorRaised(100 - w, v2, v2', v1);
    if 0 < w < 100 && v1 > 0 && v2 > 0 {
      MulMonotone(v1, v1', v2');
      assert v1 * v2 <= v1 * v2' by { MulMonotone(v2, v2', v1); }
      assert v2' * v1 == v1 * v2';
      hide WeightedInterpolation, Denominator;
      WeightedMonotone(w, v1, v1', v2');
      WeightedSymmetric(w, v1, v2);
      WeightedSymmetric(w, v1, v2');
      WeightedMonotone(100 - w, v2, v2', v1);
    } else {
      hide Denominator;
      WeightedByWord(w, v1, v2);
      WeightedByWord(w, v1', v2');
      hide WeightedInterpolation;
    }
  }

  /** From zero a part can only lower the mix, unless it rises high enough: a zero is left out of the mean. */
  lemma ZeroPartDrops()
    ensures WeightedInterpolation(50, 0, 50, 1000) == 1000
    ensures WeightedInterpolation(50, 1, 50, 1000) == 0
  {
    WeightedByWord(50, 0, 1000);
    WeightedExact(50, 1, 1000);
    hide WeightedInterpolation;
    RiseTimes(1, 50050, 1000);
    hide Rise;
  }

  /** The whole hundreds it takes to reach a value. */
  function Hundreds(v: nat): nat { (v + 99) / 100 }

  /**
    Exactly when raising a part from zero does not lower the mix: the product must reach the
    denominator once for each hundred of the other part.
   */
  lemma ZeroPartKeptIff(w: nat, v1: nat, v2: nat)
    requires 0 < w < 100 && 0 < v1 < U32 && 0 < v2 < U32 && Denominator(w, v1, v2) < U32 && v1 * v2 < U32
    ensures WeightedInterpolation(w, 0, 100 - w, v2) <= WeightedInterpolation(w, v1, 100 - w, v2) <==>
              Hundreds(v2) * Denominator(w, v1, v2) <= v1 * v2
  {
    DenominatorRaised(w, 0, v1, v2);
    WeightedByWord(w, 0, v2);
    WeightedExact(w, v1, v2);
    hide WeightedInterpolation, Denominator;
    var d, c := Denominator(w, v1, v2), Hundreds(v2);
    var q := Rise(v1, d, v2);
    RiseTimes(v1, d, v2);
    hide Rise;
    FitsTimesIff(v1 * v2, d, q, c);
    HundredsIff(v2, q);
  }

  lemma FitsTimesIff(n: nat, d: nat, q: nat, c: nat)
    requires d > 0 && d * q <= n < d * q + d
    ensures c * d <= n <==> c <= q
  {
    if c <= q {
      MulMonotone(c, q, d);
    } else {
      MulMonotone(q + 1, c, d);
      assert (q + 1) * d == d * q + d;
    }
  }

  lemma HundredsIff(v: nat, q: nat)
    ensures v <= q * 100 <==> Hundreds(v) <= q
  {
  }

  /** For a part in whole hundreds that means that the other part rises at least to it. */
  lemma ZeroPartKeptByWholeHundreds(w: nat, v1: nat, c: nat)
    requires 0 < w < 100 && 0 < v1 < U32 && 0 < c && 100 * c < U32
    requires Denominator(w, v1, 100 * c) < U32 && v1 * (100 * c) < U32
    ensures WeightedInterpolation(w, 0, 100 - w, 100 * c) <= WeightedInterpolation(w, v1, 100 - w, 100 * c) <==>
            v1 >= 100 * c
  {
    ZeroPartKeptIff(w, v1, 100 * c);
    hide WeightedInterpolation;
    var v2, rest: nat := 100 * c, 100 - w;
    assert Hundreds(v2) == c;
    HundredsOfDenominator(c, w, rest, v1, v2);
    assert Denominator(w, v1, v2) == w * v2 + rest * v1;
    hide Denominator;
    if v1 >= v2 {
      MulMonotone(v2, v1, c * w);
    } else {
      StrictMul(v1, v2, c * w);
    }
  }

  lemma HundredsOfDenominator(c: nat, w: nat, rest: nat, v1: nat, v2: nat)
    requires w + rest == 100 && v2 == 100 * c && c > 0 && w > 0
    ensures c * (w * v2 + rest * v1) == v2 * (c * w) + (c * rest) * v1
    ensures v1 * v2 == v1 * (c * w) + (c * rest) * v1
    ensures c * w > 0
  {
    Distribute(c, w * v2, rest * v1);
    Regroup(c, w, v2);
    Regroup(c, rest, v1);
    Distribute(c, w, rest);
    Distribute(v1, c * w, c * rest);
    StrictMul(0, c, w);
  }

  lemma Regroup(a: int, b: int, c: int)
    ensures a * (b * c) == (a * b) * c == c * (a * b)
  {
  }

  /** A denominator that does not fit can lift the value above both. */
  lemma WeightedCanExceed()
    ensures WeightedInterpolation(50, 85899345, 50, 1) == 2147483600
  {
    WeightedUnfolds(50, 85899345, 1);
    hide WeightedInterpolation, Quotient;
    assert Wrap(Wrap(50 * 1) + Wrap(50 * 85899345)) == 4;
    assert Wrap(85899345 * 1) == 85899345;
    assert Quotient(85899345, 4) == 21474836;
  }

  function RandomPart(rnd: seq<Table>, rndseqratio: nat, q: nat, x: nat): Outcome
  {
    if rndseqratio != 0 && rnd != [] then RatioAt(rnd, q, x) else Value(0)
  }

  /** Without sequential tables the random ones stand in. */
  function SequentialPart(rnd: seq<Table>, seqs: seq<Table>, rndseqratio: nat, q: nat, x: nat): Outcome
  {
    if rndseqratio != 100 && seqs != [] then RatioAt(seqs, q, x)
    else if rndseqratio != 100 && rnd != [] then RatioAt(rnd, q, x)
    else Value(0)
  }

  /** The performance for a mix of random and sequential IO. */
  function Calculate(rnd: seq<Table>, seqs: seq<Table>, rndseqratio: nat,
                     rndrwratio: nat, rndiosize: nat, seqrwratio: nat, seqiosize: nat): Outcome
    requires rndseqratio <= 100
  {
    var first := RandomPart(rnd, rndseqratio, rndrwratio, rndiosize);
    var second := SequentialPart(rnd, seqs, rndseqratio, seqrwratio, seqiosize);
    if !first.Value? then first
    else if !second.Value? then second
    else Value(WeightedInterpolation(rndseqratio, first.y, 100 - rndseqratio, second.y))
  }

  /**
    Where the two parts come from: the random one from the random tables at the random read ratio and
    size, the sequential one from the sequential tables, or else the random ones, at the sequential
    read ratio and size. All random and all sequential IO have the value of their part alone, and so
    has a mix in which the other part is zero.
   */
  lemma PartsOf(rnd: seq<Table>, seqs: seq<Table>, rndseqratio: nat,
                rndrwratio: nat, rndiosize: nat, seqrwratio: nat, seqiosize: nat)
    requires rndseqratio <= 100
    ensures var r := Calculate(rnd, seqs, rndseqratio, rndrwratio, rndiosize, seqrwratio, seqiosize);
            var random := if rnd != [] then RatioAt(rnd, rndrwratio, rndiosize) else Value(0);
            var other := if seqs != [] then seqs else rnd;
            var sequential := if other != [] then RatioAt(other, seqrwratio, seqiosize) else Value(0);
            && (rndseqratio == 100 ==> r == random)
            && (rndseqratio == 0 ==> r == sequential)
            && (0 < rndseqratio < 100 ==>
               && (!random.Value? ==> r == random)
               && (random.Value? && !sequential.Value? ==> r == sequential)
               && (random == Value(0) && sequential.Value? ==> r == sequential)
               && (random.Value? && sequential == Value(0) ==> r == random))
  {
    var first := RandomPart(rnd, rndseqratio, rndrwratio, rndiosize);
    var second := SequentialPart(rnd, seqs, rndseqratio, seqrwratio, seqiosize);
    if first.Value? && second.Value? {
      WeightedUnfolds(rndseqratio, first.y, second.y);
    }
    hide RatioAt, WeightedInterpolation, Quotient, Wrap;
  }

  /**
    A mix of two positive parts is below the exact weighted harmonic mean by less than 100, the random
    part having the weight of the random IO.
   */
  lemma MixNearMean(rnd: seq<Table>, seqs: seq<Table>, rndseqratio: nat,
                    rndrwratio: nat, rndiosize: nat, seqrwratio: nat, seqiosize: nat)
    requires 0 < rndseqratio < 100 && rnd != []
    requires RatioAt(rnd, rndrwratio, rndiosize).Value?
    requires RatioAt(if seqs != [] then seqs else rnd, seqrwratio, seqiosize).Value?
    requires var v1 := RatioAt(rnd, rndrwratio, rndiosize).y;
             var v2 := RatioAt(if seqs != [] then seqs else rnd, seqrwratio, seqiosize).y;
             && 0 < v1 < U32 && 0 < v2 < U32
             && v1 * v2 < U32 && rndseqratio * v2 + (100 - rndseqratio) * v1 < U32
    ensures var v1 := RatioAt(rnd, rndrwratio, rndiosize).y;
            var v2 := RatioAt(if seqs != [] then seqs else rnd, seqrwratio, seqiosize).y;
            var d := rndseqratio * v2 + (100 - rndseqratio) * v1;
            var r := Calculate(rnd, seqs, rndseqratio, rndrwratio, rndiosize, seqrwratio, seqiosize);
            r.Value? && d * r.y <= 100 * (v1 * v2) < d * (r.y + 100)
  {
    var v1 := RatioAt(rnd, rndrwratio, rndiosize).y;
    var v2 := RatioAt(if seqs != [] then seqs else rnd, seqrwratio, seqiosize).y;
    hide RatioAt;
    assert Denominator(rndseqratio, v1, v2) == rndseqratio * v2 + (100 - rndseqratio) * v1;
    WeightedNearMeanIff(rndseqratio, v1, v2);
    hide WeightedInterpolation, Denominator;
  }

  lemma PartsAtMost(rnd: seq<Table>, seqs: seq<Table>, rndseqratio: nat, q: nat, x: nat, high: nat)
    requires q <= 100 && high < U32
    requires (rnd == [] || WellFormed(rnd)) && ValuesIn(rnd, 0, high)
    requires (seqs == [] || WellFormed(seqs)) && ValuesIn(seqs, 0, high)
    ensures RandomPart(rnd, rndseqratio, q, x).Value? && RandomPart(rnd, rndseqratio, q, x).y <= high
    ensures SequentialPart(rnd, seqs, rndseqratio, q, x).Value?
            && SequentialPart(rnd, seqs, rndseqratio, q, x).y <= high
  {
    hide RatioAt, WellFormed, ValuesIn;
    if rnd != [] {
      RatioBetween(rnd, q, x, 0, high);
    }
    if seqs != [] {
      RatioBetween(seqs, q, x, 0, high);
    }
  }

  /** The whole calculation never fails and never exceeds the greatest value of the tables. */
  lemma CalculateAtMost(rnd: seq<Table>, seqs: seq<Table>, rndseqratio: nat,
                        rndrwratio: nat, rndiosize: nat, seqrwratio: nat, seqiosize: nat, high: nat)
    requires rndseqratio <= 100 && rndrwratio <= 100 && seqrwratio <= 100 && 100 * high < U32
    requires (rnd == [] || WellFormed(rnd)) && ValuesIn(rnd, 0, high)
    requires (seqs == [] || WellFormed(seqs)) && ValuesIn(seqs, 0, high)
    ensures var r := Calculate(rnd, seqs, rndseqratio, rndrwratio, rndiosize, seqrwratio, seqiosize);
            r.Value? && r.y <= high
  {
    hide RandomPart, SequentialPart, WellFormed, ValuesIn, WeightedInterpolation, Denominator;
    PartsAtMost(rnd, seqs, rndseqratio, rndrwratio, rndiosize, high);
    PartsAtMost(rnd, seqs, rndseqratio, seqrwratio, seqiosize, high);
    var first := RandomPart(rnd, rndseqratio, rndrwratio, rndiosize);
    var second := SequentialPart(rnd, seqs, rndseqratio, seqrwratio, seqiosize);
    DenominatorFits(rndseqratio, first.y, second.y, high);
    WeightedAtMost(rndseqratio, first.y, second.y);
  }

  predicate TablesUp(p: seq<Table>, high: nat, up: bool)
  {
    p == [] || (WellFormed(p) && AllMonotone(p, up) && ValuesIn(p, 1, high))
  }

  lemma PartsMonotone(rnd: seq<Table>, seqs: seq<Table>, rndseqratio: nat, q: nat, x: nat, x': nat, high: nat, up: bool)
    requires q <= 100 && 100 * high < U32 && x <= x' && TablesUp(rnd, high, up) && TablesUp(seqs, high, up)
    ensures var a, b := RandomPart(rnd, rndseqratio, q, x), RandomPart(rnd, rndseqratio, q, x');
            a.Value? && b.Value? && Le(up, a.y, b.y) && a.y <= high && b.y <= high && (a.y == 0 <==> b.y == 0)
    ensures var a, b := SequentialPart(rnd, seqs, rndseqratio, q, x), SequentialPart(rnd, seqs, rndseqratio, q, x');
            a.Value? && b.Value? && Le(up, a.y, b.y) && a.y <= high && b.y <= high && (a.y == 0 <==> b.y == 0)
  {
    hide RatioAt, WellFormed, AllMonotone;
    if rnd != [] {
      OneKindMonotone(rnd, q, x, x', high, up);
    }
    if seqs != [] {
      OneKindMonotone(seqs, q, x, x', high, up);
    }
  }

  lemma OneKindMonotone(p: seq<Table>, q: nat, x: nat, x': nat, high: nat, up: bool)
    requires q <= 100 && 100 * high < U32 && x <= x' && p != [] && TablesUp(p, high, up)
    ensures var a, b := RatioAt(p, q, x), RatioAt(p, q, x');
            a.Value? && b.Value? && Le(up, a.y, b.y) && 1 <= a.y <= high && 1 <= b.y <= high
  {
    assert ValuesIn(p, 0, high);
    hide RatioAt, WellFormed, AllMonotone, ValuesIn;
    RatioBetween(p, q, x, 1, high);
    RatioBetween(p, q, x', 1, high);
    RatioMonotone(p, q, x, x', high, up);
  }

  /** For tables of positive values the whole calculation follows the direction of the tables in both IO sizes. */
  lemma CalculateMonotone(rnd: seq<Table>, seqs: seq<Table>, rndseqratio: nat, rndrwratio: nat, rndiosize: nat,
                          rndiosize': nat, seqrwratio: nat, seqiosize: nat, seqiosize': nat, high: nat, up: bool)
    requires rndseqratio <= 100 && rndrwratio <= 100 && seqrwratio <= 100 && 100 * high < U32 && high * high < U32
    requires TablesUp(rnd, high, up) && TablesUp(seqs, high, up) && rndiosize <= rndiosize' && seqiosize <= seqiosize'
    ensures var a := Calculate(rnd, seqs, rndseqratio, rndrwratio, rndiosize, seqrwratio, seqiosize);
            var b := Calculate(rnd, seqs, rndseqratio, rndrwratio, rndiosize', seqrwratio, seqiosize');
            a.Value? && b.Value? && Le(up, a.y, b.y)
  {
    hide RandomPart, SequentialPart, TablesUp, WeightedInterpolation, Denominator;
    PartsMonotone(rnd, seqs, rndseqratio, rndrwratio, rndiosize, rndiosize', high, up);
    PartsMonotone(rnd, seqs, rndseqratio, seqrwratio, seqiosize, seqiosize', high, up);
    var v1, v1' := RandomPart(rnd, rndseqratio, rndrwratio, rndiosize).y,
      RandomPart(rnd, rndseqratio, rndrwratio, rndiosize').y;
    var v2 := SequentialPart(rnd, seqs, rndseqratio, seqrwratio, seqiosize).y;
    var v2' := SequentialPart(rnd, seqs, rndseqratio, seqrwratio, seqiosize').y;
    MixFits(rndseqratio, v1, v2, high);
    MixFits(rndseqratio, v1', v2', high);
    if up {
      MixMonotone(rndseqratio, v1, v1', v2, v2');
    } else {
      MixMonotone(rndseqratio, v1', v1, v2', v2);
    }
  }

  lemma MixFits(w: nat, v1: nat, v2: nat, high: nat)
    requires w <= 100 && v1 <= high && v2 <= high && 100 * high < U32 && high * high < U32
    ensures Denominator(w, v1, v2) < U32 && v1 * v2 < U32
  {
    DenominatorFits(w, v1, v2, high);
    hide Denominator;
    MulMonotone(v1, high, v2);
    MulMonotone(v2, high, high);
  }

  lemma DenominatorFits(w: nat, v1: nat, v2: nat, high: nat)
    requires w <= 100 && v1 <= high && v2 <= high && 100 * high < U32
    ensures Denominator(w, v1, v2) < U32
  {
    MulMonotone(v2, high, w);
    MulMonotone(v1, high, 100 - w);
    assert high * w + high * (100 - w) == 100 * high;
  }
}
