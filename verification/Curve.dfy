/**
 Affine point arithmetic on y^2 = x^3 + ax + b modulo p, and its closure, identity,
 inverse and commutativity laws. Associativity is not proved: lemmas elsewhere that need
 it take it as a hypothesis.
 */
module Curves {
  import opened Arith
  import opened Floored
  import opened Modular

  datatype Curve = Curve(p: int, a: int, b: int)

  /** A point carries its curve; the point at infinity is built with zero coordinates. */
  datatype Point = Point(x: int, y: int, curve: Curve, infinite: bool)

  function Infinity(c: Curve): Point {
    Point(0, 0, c, true)
  }

  function Finite(x: int, y: int, c: Curve): Point {
    Point(x, y, c, false)
  }

  /** The point with this slope through `pt`, as both addition and doubling build it. */
  function Chord(slope: int, pt: Point, otherX: int): Point
    requires pt.curve.p != 0
  {
    var p := pt.curve.p;
    var newX := FloorMod(slope * slope - pt.x - otherX, p);
    var newY := FloorMod(slope * (pt.x - newX) - pt.y, p);
    Finite(newX, newY, pt.curve)
  }

  function Doubled(pt: Point): (r: Point)
    requires pt.curve.p != 0
    ensures r.curve == pt.curve
  {
    var p := pt.curve.p;
    if pt.y == 0 then Infinity(pt.curve)
    else
      var slope := FloorMod((pt.x * pt.x * 3 + pt.curve.a) * Inverse(pt.y * 2, p), p);
      Chord(slope, pt, pt.x)
  }

  function Plus(pt: Point, other: Point): Point
    requires pt.curve.p != 0
  {
    var p := pt.curve.p;
    if pt.infinite && other.infinite then Infinity(pt.curve)
    else if !pt.infinite && other.infinite then pt
    else if pt.infinite && !other.infinite then other
    else if pt.x == other.x && pt.y == other.y then Doubled(pt)
    else if pt.x == other.x then Infinity(pt.curve)
    else
      var slope := FloorMod((other.y - pt.y) * Inverse(other.x - pt.x, p), p);
      Chord(slope, pt, other.x)
  }

  /** The right-hand side of the curve equation. */
  function Cubic(x: int, c: Curve): int {
    x * x * x + c.a * x + c.b
  }

  ghost predicate SatisfiesCurve(x: int, y: int, c: Curve)
    requires c.p > 0
  {
    (y * y) % c.p == Cubic(x, c) % c.p
  }

  /** Infinity in its one representation, or a reduced point on the curve. */
  ghost predicate OnCurve(pt: Point, c: Curve)
    requires c.p > 0
  {
    && pt.curve == c
    && if pt.infinite then pt.x == 0 && pt.y == 0
       else 0 <= pt.x < c.p && 0 <= pt.y < c.p && SatisfiesCurve(pt.x, pt.y, c)
  }

  // ---------- Closure ----------

  /** The line with slope `s` through (x1, y1), squared, less the cubic. */
  function OffCurve(x: int, s: int, x1: int, y1: int, c: Curve): int {
    (s * (x - x1) + y1) * (s * (x - x1) + y1) - Cubic(x, c)
  }

  /**
   When the three abscissas sum to the square of the slope, the cubic terms cancel and what
   the line misses the curve by is linear in the abscissa at each of the three.
   */
  lemma LinearAtMeetings(x: int, s: int, x1: int, y1: int, x2: int, x3: int, c: Curve)
    requires s * s == x1 + x2 + x3 && (x == x1 || x == x2 || x == x3)
    ensures OffCurve(x, s, x1, y1, c) == Gradient(s, x1, y1, x2, x3, c) * x + Offset(s, x1, y1, x2, x3, c)
  {
    var t := y1 - s * x1;
    assert s * (x - x1) + y1 == s * x + t;
    SquareOfLine(s, x, t);
    assert (x - x1) * ((x - x2) * (x - x3)) == 0;
    ExpandCubic(x, x1, x2, x3);
    CollectLinear(s, t, x, x1, x2, x3, c.a, c.b);
  }

  function Gradient(s: int, x1: int, y1: int, x2: int, x3: int, c: Curve): int {
    2 * (s * (y1 - s * x1)) + (x1 * x2 + x1 * x3 + x2 * x3) - c.a
  }

  function Offset(s: int, x1: int, y1: int, x2: int, x3: int, c: Curve): int {
    (y1 - s * x1) * (y1 - s * x1) - x1 * (x2 * x3) - c.b
  }

  lemma SquareOfLine(s: int, x: int, t: int)
    ensures (s * x + t) * (s * x + t) == (s * s) * (x * x) + 2 * (s * t) * x + t * t
  {
  }

  lemma ExpandCubic(x: int, x1: int, x2: int, x3: int)
    ensures (x - x1) * ((x - x2) * (x - x3))
         == x * x * x - (x1 + x2 + x3) * (x * x) + (x1 * x2 + x1 * x3 + x2 * x3) * x - x1 * (x2 * x3)
  {
    var u := (x - x2) * (x - x3);
    assert u == x * x - (x2 + x3) * x + x2 * x3;
    assert (x - x1) * u == x * u - x1 * u;
  }

  lemma CollectLinear(s: int, t: int, x: int, x1: int, x2: int, x3: int, a: int, b: int)
    requires s * s == x1 + x2 + x3
    requires x * x * x == (x1 + x2 + x3) * (x * x) - (x1 * x2 + x1 * x3 + x2 * x3) * x + x1 * (x2 * x3)
    ensures (s * s) * (x * x) + 2 * (s * t) * x + t * t - (x * x * x + a * x + b)
         == (2 * (s * t) + (x1 * x2 + x1 * x3 + x2 * x3) - a) * x + (t * t - x1 * (x2 * x3) - b)
  {
  }

  /** A linear form that vanishes at two places modulo p vanishes at the third, scaled. */
  lemma LinearVanishes(g: int, o: int, x1: int, x2: int, x3: int, p: int)
    requires Prime(p) && (x2 - x1) % p != 0
    requires (g * x1 + o) % p == 0 && (g * x2 + o) % p == 0
    ensures (g * x3 + o) % p == 0
  {
    ModAdd(g * x2 + o, 0, g * x1 + o, 0, p);
    assert g * x2 + o - (g * x1 + o) == g * (x2 - x1);
    EuclidsLemma(g, x2 - x1, p);
    ModMul(g, 0, x3 - x1, p);
    ModAdd(g * x1 + o, 0, g * (x3 - x1), 0, p);
    assert g * x1 + o + g * (x3 - x1) == g * x3 + o;
  }

  /** Where the line meets the curve again, with the ordinate negated and everything reduced. */
  lemma ChordOnCurve(s: int, pt: Point, x2: int)
    requires Prime(pt.curve.p)
    requires
      var x3 := s * s - pt.x - x2;
      OffCurve(x3, s, pt.x, pt.y, pt.curve) % pt.curve.p == 0
    ensures OnCurve(Chord(s, pt, x2), pt.curve)
  {
    hide Cubic, FloorMod;
    var c, p := pt.curve, pt.curve.p;
    var x3 := s * s - pt.x - x2;
    var q := Chord(s, pt, x2);
    FloorModIsMod(x3, p);
    FloorModIsMod(s * (pt.x - q.x) - pt.y, p);
    ModMod(x3, p);
    CubicCongruent(q.x, x3, c);
    NegatedOrdinate(s, pt.x, pt.y, x3, q.x, q.y, p);
    MeetsCurve(x3, s, pt.x, pt.y, c);
  }

  lemma FloorModIsMod(x: int, p: int)
    requires p > 0
    ensures FloorMod(x, p) == x % p && 0 <= FloorMod(x, p) < p
  {
  }

  lemma MeetsCurve(x: int, s: int, x1: int, y1: int, c: Curve)
    requires c.p > 0 && OffCurve(x, s, x1, y1, c) % c.p == 0
    ensures var l := s * (x - x1) + y1; (l * l) % c.p == Cubic(x, c) % c.p
  {
    hide Cubic;
    var l := s * (x - x1) + y1;
    ModAdd(l * l - Cubic(x, c), 0, Cubic(x, c), Cubic(x, c), c.p);
  }

  /** The new ordinate is minus the line's, modulo p, so it has the line's square. */
  lemma NegatedOrdinate(s: int, x1: int, y1: int, x3: int, x: int, y: int, p: int)
    requires p > 0 && x % p == x3 % p && y == FloorMod(s * (x1 - x) - y1, p)
    ensures var l := s * (x3 - x1) + y1; (y * y) % p == (l * l) % p
  {
    var l := s * (x3 - x1) + y1;
    ModAdd(x1, x1, x, x3, p);
    ModMul(x1 - x, x1 - x3, s, p);
    ModAdd((x1 - x) * s, (x1 - x3) * s, y1, y1, p);
    NegatedLine(s, x1, y1, x3, x);
    assert y == (s * (x1 - x) - y1) % p;
    ModMod(s * (x1 - x) - y1, p);
    SquareCongruent(y, -l, p);
    assert (-l) * (-l) == l * l;
  }

  lemma NegatedLine(s: int, x1: int, y1: int, x3: int, x: int)
    ensures (x1 - x3) * s - y1 == -(s * (x3 - x1) + y1)
    ensures (x1 - x) * s == s * (x1 - x)
  {
  }

  lemma SquareCongruent(x: int, y: int, p: int)
    requires p > 0 && x % p == y % p
    ensures (x * x) % p == (y * y) % p
  {
    ModMul(x, y, x, p);
    ModMul(x, y, y, p);
  }

  lemma CubicCongruent(x: int, y: int, c: Curve)
    requires c.p > 0 && x % c.p == y % c.p
    ensures Cubic(x, c) % c.p == Cubic(y, c) % c.p
  {
    var p := c.p;
    SquareCongruent(x, y, p);
    ModMul(x * x, y * y, x, p);
    ModMul(x, y, y * y, p);
    ModMul(x, y, c.a, p);
    ModAdd(x * x * x, y * y * y, c.a * x, c.a * y, p);
    ModAdd(x * x * x + c.a * x, y * y * y + c.a * y, c.b, c.b, p);
  }

  /** The slope a modular division gives, multiplied back. */
  lemma SlopeTimesRun(rise: int, run: int, p: int)
    requires Prime(p) && run % p != 0
    ensures var s := FloorMod(rise * Inverse(run, p), p); (s * run) % p == rise % p
  {
    hide Inverse, FloorMod;
    var i := Inverse(run, p);
    var s := FloorMod(rise * i, p);
    PrimeCoprime(run, p);
    InverseCorrect(run, p);
    FloorModIsMod(rise * i, p);
    ModMod(rise * i, p);
    ModMul(s, rise * i, run, p);
    SmallMod(1, p);
    ModMul(run * i, 1, rise, p);
    RegroupSlope(rise, i, run);
  }

  lemma RegroupSlope(rise: int, i: int, run: int)
    ensures (rise * i) * run == (run * i) * rise
  {
  }

  lemma DoubledOnCurve(pt: Point, c: Curve)
    requires Prime(c.p) && c.p > 2 && OnCurve(pt, c)
    ensures OnCurve(Doubled(pt), c)
    ensures Doubled(pt).infinite <==> pt.y == 0
  {
    if pt.y != 0 {
      var p := c.p;
      SmallMod(2, p);
      SmallMod(pt.y, p);
      if (pt.y * 2) % p == 0 {
        EuclidsLemma(pt.y, 2, p);
      }
      var rise := pt.x * pt.x * 3 + c.a;
      SlopeTimesRun(rise, pt.y * 2, p);
      var s := FloorMod(rise * Inverse(pt.y * 2, p), p);
      var x3 := s * s - pt.x - pt.x;
      LinearAtMeetings(pt.x, s, pt.x, pt.y, pt.x, x3, c);
      LinearAtMeetings(x3, s, pt.x, pt.y, pt.x, x3, c);
      TangentGradient(s, pt.x, pt.y, c);
      var g, o := Gradient(s, pt.x, pt.y, pt.x, x3, c), Offset(s, pt.x, pt.y, pt.x, x3, c);
      ModAdd(s * (pt.y * 2), rise, rise, rise, p);
      StartsOnCurve(pt, s, c);
      ModMul(g, 0, x3 - pt.x, p);
      ModAdd(g * pt.x + o, 0, g * (x3 - pt.x), 0, p);
      assert g * pt.x + o + g * (x3 - pt.x) == g * x3 + o;
      ChordOnCurve(s, pt, pt.x);
    }
  }

  /** For a tangent the gradient is the defect of the slope equation. */
  lemma TangentGradient(s: int, x: int, y: int, c: Curve)
    ensures Gradient(s, x, y, x, s * s - x - x, c) == s * (y * 2) - (x * x * 3 + c.a)
  {
    var x3 := s * s - x - x;
    assert s * (y - s * x) == s * y - (s * s) * x;
    assert x * x3 == (s * s) * x - 2 * (x * x);
  }

  lemma StartsOnCurve(pt: Point, s: int, c: Curve)
    requires c.p > 0 && OnCurve(pt, c) && !pt.infinite
    ensures OffCurve(pt.x, s, pt.x, pt.y, c) % c.p == 0
  {
    hide Cubic, OffCurve;
    OnCurveEquation(pt, c);
    ModAdd(pt.y * pt.y, Cubic(pt.x, c), Cubic(pt.x, c), Cubic(pt.x, c), c.p);
    OffCurveAtStart(s, pt, c);
  }

  lemma OnCurveEquation(pt: Point, c: Curve)
    requires c.p > 0 && OnCurve(pt, c) && !pt.infinite
    ensures (pt.y * pt.y) % c.p == Cubic(pt.x, c) % c.p
  {
  }

  lemma OffCurveAtStart(s: int, pt: Point, c: Curve)
    ensures OffCurve(pt.x, s, pt.x, pt.y, c) == pt.y * pt.y - Cubic(pt.x, c)
  {
    hide Cubic;
    assert s * (pt.x - pt.x) == 0;
  }

  lemma DistinctResidues(x: int, y: int, p: int)
    requires 0 <= x < p && 0 <= y < p && x != y
    ensures (y - x) % p != 0
  {
    if y > x {
      SmallMod(y - x, p);
    } else {
      ModShift(y - x, 1, p);
      SmallMod(y - x + p, p);
    }
  }

  lemma ChordPlusOnCurve(pt: Point, other: Point, c: Curve)
    requires Prime(c.p) && OnCurve(pt, c) && OnCurve(other, c)
    requires !pt.infinite && !other.infinite && pt.x != other.x
    ensures OnCurve(Plus(pt, other), c) && !Plus(pt, other).infinite
  {
    var p := c.p;
    DistinctResidues(pt.x, other.x, p);
    SlopeTimesRun(other.y - pt.y, other.x - pt.x, p);
    var s := FloorMod((other.y - pt.y) * Inverse(other.x - pt.x, p), p);
    var x3 := s * s - pt.x - other.x;
    LinearAtMeetings(pt.x, s, pt.x, pt.y, other.x, x3, c);
    LinearAtMeetings(other.x, s, pt.x, pt.y, other.x, x3, c);
    LinearAtMeetings(x3, s, pt.x, pt.y, other.x, x3, c);
    StartsOnCurve(pt, s, c);
    EndsOnCurve(pt, other, s, c);
    LinearVanishes(Gradient(s, pt.x, pt.y, other.x, x3, c), Offset(s, pt.x, pt.y, other.x, x3, c),
                   pt.x, other.x, x3, p);
    ChordOnCurve(s, pt, other.x);
  }

  lemma EndsOnCurve(pt: Point, other: Point, s: int, c: Curve)
    requires c.p > 0 && OnCurve(other, c) && !other.infinite
    requires (s * (other.x - pt.x)) % c.p == (other.y - pt.y) % c.p
    ensures OffCurve(other.x, s, pt.x, pt.y, c) % c.p == 0
  {
    hide Cubic, OnCurve, SatisfiesCurve;
    var p := c.p;
    var l := s * (other.x - pt.x) + pt.y;
    OnCurveEquation(other, c);
    ModAdd(s * (other.x - pt.x), other.y - pt.y, pt.y, pt.y, p);
    SquareCongruent(l, other.y, p);
    ModAdd(l * l, Cubic(other.x, c), Cubic(other.x, c), Cubic(other.x, c), p);
  }

  /** Addition stays on the curve, for all operands, infinity included. */
  lemma PlusOnCurve(pt: Point, other: Point, c: Curve)
    requires Prime(c.p) && c.p > 2 && OnCurve(pt, c) && OnCurve(other, c)
    ensures OnCurve(Plus(pt, other), c)
  {
    if !pt.infinite && !other.infinite {
      if pt.x != other.x {
        ChordPlusOnCurve(pt, other, c);
      } else if pt.y == other.y {
        DoubledOnCurve(pt, c);
      }
    }
  }

  // ---------- The group law ----------

  /**
   What the group law asks of the sum `r` of two points on a line of slope rise / run through
   (x1, y1) and a point with abscissa x2: the reflection of `r` is on that line, and the
   three abscissas add up to the square of the slope. Stated without division.
   */
  ghost predicate SumOnLine(r: Point, x1: int, y1: int, x2: int, rise: int, run: int, p: int)
    requires p > 0
  {
    && ((-r.y - y1) * run) % p == (rise * (r.x - x1)) % p
    && ((r.x + x1 + x2) * (run * run)) % p == (rise * rise) % p
  }

  /** What `Chord` builds from a modular slope meets it. */
  lemma ChordIsSum(s: int, pt: Point, x2: int, rise: int, run: int)
    requires pt.curve.p > 0 && (s * run) % pt.curve.p == rise % pt.curve.p
    ensures SumOnLine(Chord(s, pt, x2), pt.x, pt.y, x2, rise, run, pt.curve.p)
  {
    var p := pt.curve.p;
    var r := Chord(s, pt, x2);
    FloorModIsMod(s * s - pt.x - x2, p);
    FloorModIsMod(s * (pt.x - r.x) - pt.y, p);
    hide FloorMod, Chord;
    ModMod(s * s - pt.x - x2, p);
    ModMod(s * (pt.x - r.x) - pt.y, p);
    ReflectionOnLine(s, pt.x, pt.y, r.x, r.y, rise, run, p);
    AbscissasAddUp(s, pt.x, x2, r.x, rise, run, p);
  }

  lemma ReflectionOnLine(s: int, x1: int, y1: int, x: int, y: int, rise: int, run: int, p: int)
    requires p > 0 && (s * run) % p == rise % p && y % p == (s * (x1 - x) - y1) % p
    ensures ((-y - y1) * run) % p == (rise * (x - x1)) % p
  {
    ModAdd(0, 0, y, s * (x1 - x) - y1, p);
    ModAdd(-y, -(s * (x1 - x) - y1), y1, y1, p);
    ModMul(-y - y1, -(s * (x1 - x)), run, p);
    ModMul(s * run, rise, x - x1, p);
    LineRegrouped(s, x1 - x, x - x1, run);
  }

  lemma LineRegrouped(s: int, back: int, forth: int, run: int)
    requires forth == -back
    ensures -(s * back) * run == (s * run) * forth
  {
  }

  lemma AbscissasAddUp(s: int, x1: int, x2: int, x: int, rise: int, run: int, p: int)
    requires p > 0 && (s * run) % p == rise % p && x % p == (s * s - x1 - x2) % p
    ensures ((x + x1 + x2) * (run * run)) % p == (rise * rise) % p
  {
    ModAdd(x, s * s - x1 - x2, x1 + x2, x1 + x2, p);
    ModMul(x + x1 + x2, s * s, run * run, p);
    SquareCongruent(s * run, rise, p);
    SquaresRegrouped(s, run);
  }

  lemma SquaresRegrouped(s: int, run: int)
    ensures (s * s) * (run * run) == (s * run) * (s * run)
  {
  }

  /** The equations have at most one reduced solution. */
  lemma SumOnLineUnique(q: Point, r: Point, x1: int, y1: int, x2: int, rise: int, run: int, p: int)
    requires Prime(p) && run % p != 0
    requires 0 <= q.x < p && 0 <= q.y < p && 0 <= r.x < p && 0 <= r.y < p
    requires SumOnLine(q, x1, y1, x2, rise, run, p) && SumOnLine(r, x1, y1, x2, rise, run, p)
    ensures q.x == r.x && q.y == r.y
  {
    Cancels(q.x + x1 + x2, r.x + x1 + x2, run, run, p);
    ModAdd(q.x + x1 + x2, r.x + x1 + x2, x1 + x2, x1 + x2, p);
    ReducedEqual(q.x, r.x, p);
    CancelsOnce(-q.y - y1, -r.y - y1, run, p);
    ModAdd(0, 0, -q.y - y1, -r.y - y1, p);
    ModAdd(q.y + y1, r.y + y1, y1, y1, p);
    ReducedEqual(q.y, r.y, p);
  }

  lemma CancelsOnce(u: int, v: int, run: int, p: int)
    requires Prime(p) && run % p != 0 && (u * run) % p == (v * run) % p
    ensures u % p == v % p
  {
    ModAdd(u * run, v * run, v * run, v * run, p);
    DifferenceTimes(u, v, run);
    EuclidsLemma(u - v, run, p);
    ModAdd(u - v, 0, v, v, p);
  }

  lemma DifferenceTimes(u: int, v: int, run: int)
    ensures (u - v) * run == u * run - v * run
  {
  }

  lemma Cancels(u: int, v: int, run: int, run': int, p: int)
    requires Prime(p) && run % p != 0 && run' % p != 0 && (u * (run * run')) % p == (v * (run * run')) % p
    ensures u % p == v % p
  {
    Associate(u, run, run');
    Associate(v, run, run');
    CancelsOnce(u * run, v * run, run', p);
    CancelsOnce(u, v, run, p);
  }

  /**
   The sum of two points with different abscissas: the only reduced point whose reflection is
   on the line through them and whose abscissa completes theirs to the square of its slope.
   */
  lemma SumIsReflectedThirdPoint(pt: Point, other: Point, r: Point, c: Curve)
    requires Prime(c.p) && OnCurve(pt, c) && OnCurve(other, c) && OnCurve(r, c)
    requires !pt.infinite && !other.infinite && !r.infinite && pt.x != other.x
    ensures r == Plus(pt, other) <==>
      && ((-r.y - pt.y) * (other.x - pt.x)) % c.p == ((other.y - pt.y) * (r.x - pt.x)) % c.p
      && ((r.x + pt.x + other.x) * ((other.x - pt.x) * (other.x - pt.x))) % c.p
         == ((other.y - pt.y) * (other.y - pt.y)) % c.p
  {
    var p, rise, run, sum := c.p, other.y - pt.y, other.x - pt.x, Plus(pt, other);
    DistinctResidues(pt.x, other.x, p);
    SlopeTimesRun(rise, run, p);
    ChordIsSum(FloorMod(rise * Inverse(run, p), p), pt, other.x, rise, run);
    ChordPlusOnCurve(pt, other, c);
    SumOfPlus(pt, other);
    hide Plus, Inverse, FloorMod, Prime;
    if SumOnLine(r, pt.x, pt.y, other.x, rise, run, p) {
      SumOnLineUnique(r, sum, pt.x, pt.y, other.x, rise, run, p);
    }
  }

  lemma SumOfPlus(pt: Point, other: Point)
    requires pt.curve.p != 0 && !pt.infinite && !other.infinite && pt.x != other.x
    ensures Plus(pt, other) == Chord(FloorMod((other.y - pt.y) * Inverse(other.x - pt.x, pt.curve.p), pt.curve.p), pt, other.x)
  {
    hide Inverse, FloorMod, Chord, Doubled;
  }

  /** The same for doubling, with the tangent, whose slope is (3x^2 + a) / 2y. */
  lemma DoubleIsReflectedThirdPoint(pt: Point, r: Point, c: Curve)
    requires Prime(c.p) && c.p > 2 && OnCurve(pt, c) && OnCurve(r, c)
    requires !pt.infinite && !r.infinite && pt.y != 0
    ensures r == Doubled(pt) <==>
      && ((-r.y - pt.y) * (2 * pt.y)) % c.p == ((3 * pt.x * pt.x + c.a) * (r.x - pt.x)) % c.p
      && ((r.x + pt.x + pt.x) * ((2 * pt.y) * (2 * pt.y))) % c.p
         == ((3 * pt.x * pt.x + c.a) * (3 * pt.x * pt.x + c.a)) % c.p
  {
    var p, rise, run, double := c.p, 3 * pt.x * pt.x + c.a, 2 * pt.y, Doubled(pt);
    SmallMod(2, p);
    SmallMod(pt.y, p);
    if run % p == 0 {
      EuclidsLemma(2, pt.y, p);
    }
    SlopeTimesRun(rise, run, p);
    ChordIsSum(FloorMod(rise * Inverse(run, p), p), pt, pt.x, rise, run);
    DoubledOnCurve(pt, c);
    DoubledAsChord(pt);
    hide Doubled, Inverse, FloorMod, Prime;
    if SumOnLine(r, pt.x, pt.y, pt.x, rise, run, p) {
      SumOnLineUnique(r, double, pt.x, pt.y, pt.x, rise, run, p);
    }
  }

  lemma DoubledAsChord(pt: Point)
    requires pt.curve.p != 0 && pt.y != 0
    ensures Doubled(pt)
         == Chord(FloorMod((3 * pt.x * pt.x + pt.curve.a) * Inverse(2 * pt.y, pt.curve.p), pt.curve.p), pt, pt.x)
  {
    hide Inverse, FloorMod, Chord;
    assert pt.x * pt.x * 3 == 3 * pt.x * pt.x && pt.y * 2 == 2 * pt.y;
  }

  // ---------- Identity, inverse, commutativity ----------

  /** As signature verification negates a point; a zero ordinate would come out unreduced. */
  function Negated(pt: Point): Point {
    if pt.infinite then pt else Finite(pt.x, pt.curve.p - pt.y, pt.curve)
  }

  lemma InfinityIsIdentity(pt: Point, c: Curve)
    requires c.p > 0 && OnCurve(pt, c)
    ensures Plus(pt, Infinity(c)) == pt && Plus(Infinity(c), pt) == pt
  {
  }

  /** On the curve, two points cancel exactly when they are each other's negation, up to the ordinate zero. */
  lemma CancelsExactlyNegation(pt: Point, other: Point, c: Curve)
    requires Prime(c.p) && c.p > 2 && OnCurve(pt, c) && OnCurve(other, c)
    requires !pt.infinite && pt.y != 0
    ensures Plus(pt, other).infinite <==> other == Negated(pt)
  {
    hide Chord, FloorMod, Cubic, Inverse;
    var p := c.p;
    if other.infinite {
    } else if pt.x != other.x {
      ChordPlusOnCurve(pt, other, c);
    } else if pt.y == other.y {
      DoubledOnCurve(pt, c);
      NotItsOwnNegation(pt.y, p);
    } else {
      OppositeRoots(pt.y, other.y, p);
    }
  }

  lemma NotItsOwnNegation(y: int, p: int)
    requires Prime(p) && p > 2
    ensures y + y != p
  {
    if y + y == p {
      assert Divides(2, p);
    }
  }

  /** Two different residues with the same square add up to the modulus. */
  lemma OppositeRoots(y: int, z: int, p: int)
    requires Prime(p) && 0 <= y < p && 0 <= z < p && y != z && (y * y) % p == (z * z) % p
    ensures y + z == p
  {
    ModAdd(z * z, y * y, y * y, y * y, p);
    assert (z - y) * (z + y) == z * z - y * y;
    SmallMod(0, p);
    EuclidsLemma(z - y, z + y, p);
    DistinctResidues(y, z, p);
    SumIsModulus(y + z, p);
  }

  lemma SumIsModulus(s: int, p: int)
    requires 0 < s < 2 * p && s % p == 0
    ensures s == p
  {
    var q := s / p;
    assert s == q * p;
    if q <= 0 {
      MulMonotone(q, 0, p);
    } else if q >= 2 {
      MulMonotone(2, q, p);
    }
  }

  lemma ReducedEqual(x: int, y: int, p: int)
    requires 0 <= x < p && 0 <= y < p && x % p == y % p
    ensures x == y
  {
    SmallMod(x, p);
    SmallMod(y, p);
  }

  lemma PlusCommutes(pt: Point, other: Point, c: Curve)
    requires Prime(c.p) && c.p > 2 && OnCurve(pt, c) && OnCurve(other, c)
    ensures Plus(pt, other) == Plus(other, pt)
  {
    if !pt.infinite && !other.infinite && pt.x != other.x {
      var p := c.p;
      var rise, run := other.y - pt.y, other.x - pt.x;
      var s := FloorMod(rise * Inverse(run, p), p);
      var s' := FloorMod(-rise * Inverse(-run, p), p);
      SameSlope(rise, run, pt.x, other.x, p);
      var q := Plus(pt, other);
      assert Plus(other, pt) == Chord(s', other, pt.x);
      OppositeOrdinates(s, rise, run, pt.x, pt.y, other.x, other.y, q.x, p);
    }
  }

  lemma SameSlope(rise: int, run: int, x1: int, x2: int, p: int)
    requires Prime(p) && run == x2 - x1 && 0 <= x1 < p && 0 <= x2 < p && x1 != x2
    ensures FloorMod(rise * Inverse(run, p), p) == FloorMod(-rise * Inverse(-run, p), p)
    ensures (FloorMod(rise * Inverse(run, p), p) * run) % p == rise % p
  {
    var s, s' := FloorMod(rise * Inverse(run, p), p), FloorMod(-rise * Inverse(-run, p), p);
    DistinctResidues(x1, x2, p);
    DistinctResidues(x2, x1, p);
    SlopeTimesRun(rise, run, p);
    SlopeTimesRun(-rise, -run, p);
    ModAdd(0, 0, s' * -run, -rise, p);
    assert 0 - s' * -run == s' * run && 0 - -rise == rise;
    ModAdd(s * run, rise, s' * run, rise, p);
    SmallMod(0, p);
    Distribute(s, s', run);
    EuclidsLemma(s - s', run, p);
    ModAdd(s - s', 0, s', s', p);
    FlooredDivision(rise * Inverse(run, p), p);
    FlooredDivision(-rise * Inverse(-run, p), p);
    ReducedEqual(s, s', p);
  }

  lemma OppositeOrdinates(s: int, rise: int, run: int, x1: int, y1: int, x2: int, y2: int, x3: int, p: int)
    requires p > 0 && rise == y2 - y1 && run == x2 - x1 && (s * run) % p == rise % p
    ensures FloorMod(s * (x1 - x3) - y1, p) == FloorMod(s * (x2 - x3) - y2, p)
  {
    var u, v := s * (x1 - x3) - y1, s * (x2 - x3) - y2;
    assert s * (x2 - x3) == s * (x1 - x3) + s * run;
    ModAdd(s * run, rise, rise, rise, p);
    ModAdd(u, u, s * run - rise, 0, p);
    assert u + (s * run - rise) == v;
  }
}
