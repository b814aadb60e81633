/**
 The least-squares line fit of `ChamberHandler::leastSquares`
 (common/trek/chamberhandler.cpp:136-156), over exact reals.
 */
module Fitting {
  import opened TrekTypes

  /** The `1e-60` below which the fit's denominator counts as degenerate. */
  const Tiny: real := 0.000000000000000000000000000000000000000000000000000000000001

  function Abs(x: real): real
  {
    if x < 0.0 then -x else x
  }

  /** The sum of `f` over a point set, accumulated in point order. */
  function Sum(ps: seq<Vec2>, f: Vec2 -> real): real
  {
    if |ps| == 0 then 0.0 else f(ps[0]) + Sum(ps[1..], f)
  }

  function SumX(ps: seq<Vec2>): real
  {
    Sum(ps, (p: Vec2) => p.x)
  }

  function SumY(ps: seq<Vec2>): real
  {
    Sum(ps, (p: Vec2) => p.y)
  }

  function SumXY(ps: seq<Vec2>): real
  {
    Sum(ps, (p: Vec2) => p.x * p.y)
  }

  function SumXX(ps: seq<Vec2>): real
  {
    Sum(ps, (p: Vec2) => p.x * p.x)
  }

  /** The vertical distance from a point to a line, signed: k*x + b - y. */
  function Residual(p: Vec2, line: Line2): real
  {
    line.k * p.x + line.b - p.y
  }

  /** Sum of squared residuals of a point set against a line: the "deviation". */
  function SquaredResiduals(ps: seq<Vec2>, line: Line2): real
  {
    Sum(ps, (p: Vec2) => Residual(p, line) * Residual(p, line))
  }

  /** n*Sxx - Sx*Sx, the determinant of the normal equations. */
  function Denominator(ps: seq<Vec2>): real
  {
    (|ps| as real) * SumXX(ps) - SumX(ps) * SumX(ps)
  }

  /** The outcome of a fit: no line, or the least-squares line and its deviation. */
  datatype Fit = Unfittable | Fitted(line: Line2, deviation: real)

  /**
   The least-squares line through `ps`. Unfittable for fewer than two points
   and for a denominator that is zero or of magnitude at most 1e-60.
   */
  function FitLine(ps: seq<Vec2>): (f: Fit)
    ensures f.Unfittable? <==> |ps| < 2 || Abs(Denominator(ps)) <= Tiny
    ensures f.Fitted? ==> f.deviation == SquaredResiduals(ps, f.line) >= 0.0
  {
    if |ps| < 2 then Unfittable
    else
      var den := Denominator(ps);
      if den != 0.0 && Abs(den) > Tiny then
        var line := FittedLine(ps);
        SquaredResidualsNonNegative(ps, line);
        Fitted(line, SquaredResiduals(ps, line))
      else
        Unfittable
  }

  /** Slope and intercept from the closed-form solution of the normal equations. */
  function FittedLine(ps: seq<Vec2>): Line2
    requires |ps| > 0 && Denominator(ps) != 0.0
  {
    var n := |ps| as real;
    var k := (n * SumXY(ps) - SumX(ps) * SumY(ps)) / Denominator(ps);
    Line2(k, (SumY(ps) - k * SumX(ps)) / n)
  }

  /** The result of `leastSquares`: the returned deviation and the line left in its by-reference argument. */
  datatype LeastSquaresResult = LeastSquaresResult(deviation: real, line: Line2)

  /**
   `leastSquares(points, line)`: returns -1 and leaves `line` alone when the
   points cannot be fitted; otherwise overwrites `line` with the fit and
   returns its (non-negative) deviation.
   */
  function LeastSquares(ps: seq<Vec2>, line: Line2): (r: LeastSquaresResult)
    ensures r.deviation == UnfittableDeviation <==> FitLine(ps).Unfittable?
    ensures r.deviation == UnfittableDeviation ==> r.line == line
    ensures r.deviation != UnfittableDeviation ==> FitLine(ps) == Fitted(r.line, r.deviation) && r.deviation >= 0.0
  {
    match FitLine(ps)
    case Unfittable => LeastSquaresResult(UnfittableDeviation, line)
    case Fitted(l, d) => LeastSquaresResult(d, l)
  }

  // ---------------------------------------------------------------------------
  // Algebra of sums. Each polynomial identity is stated over plain variables so
  // that the solver sees nothing else while proving it.

  lemma SquareNonNegative(a: real)
    ensures a * a >= 0.0
  {
  }

  lemma Distribute(c: real, a: real, s: real)
    ensures c * (a + s) == c * a + c * s
  {
  }

  lemma {:induction false} SumNonNegative(ps: seq<Vec2>, f: Vec2 -> real)
    requires forall p :: f(p) >= 0.0
    ensures Sum(ps, f) >= 0.0
  {
    if |ps| > 0 {
      SumNonNegative(ps[1..], f);
    }
  }

  lemma {:induction false} SumScale(ps: seq<Vec2>, f: Vec2 -> real, g: Vec2 -> real, c: real)
    requires forall p :: g(p) == c * f(p)
    ensures Sum(ps, g) == c * Sum(ps, f)
  {
    if |ps| > 0 {
      SumScale(ps[1..], f, g, c);
      Distribute(c, f(ps[0]), Sum(ps[1..], f));
    }
  }

  lemma {:induction false} SumAdd(ps: seq<Vec2>, f: Vec2 -> real, g: Vec2 -> real, s: Vec2 -> real)
    requires forall p :: s(p) == f(p) + g(p)
    ensures Sum(ps, s) == Sum(ps, f) + Sum(ps, g)
  {
    if |ps| > 0 {
      SumAdd(ps[1..], f, g, s);
    }
  }

  lemma {:induction false} SumSub(ps: seq<Vec2>, f: Vec2 -> real, g: Vec2 -> real, s: Vec2 -> real)
    requires forall p :: s(p) == f(p) - g(p)
    ensures Sum(ps, s) == Sum(ps, f) - Sum(ps, g)
  {
    if |ps| > 0 {
      SumSub(ps[1..], f, g, s);
    }
  }

  /** A term that takes the same value at every point sums to that value times the count. */
  lemma {:induction false} SumConstant(ps: seq<Vec2>, f: Vec2 -> real, c: real)
    requires forall i :: 0 <= i < |ps| ==> f(ps[i]) == c
    ensures Sum(ps, f) == (|ps| as real) * c
  {
    if |ps| > 0 {
      SumConstant(ps[1..], f, c);
      Distribute(c, 1.0, (|ps| - 1) as real);
    }
  }

  lemma SquaredResidualsNonNegative(ps: seq<Vec2>, line: Line2)
    ensures SquaredResiduals(ps, line) >= 0.0
  {
    forall p: Vec2 {
      SquareNonNegative(Residual(p, line));
    }
    SumNonNegative(ps, (p: Vec2) => Residual(p, line) * Residual(p, line));
  }

  // ---------------------------------------------------------------------------
  // The normal equations and the optimality of the fitted line.

  /** Sum of the signed residuals. */
  function SumResiduals(ps: seq<Vec2>, line: Line2): real
  {
    Sum(ps, (p: Vec2) => Residual(p, line))
  }

  /** Sum of the signed residuals weighted by x. */
  function SumResidualsX(ps: seq<Vec2>, line: Line2): real
  {
    Sum(ps, (p: Vec2) => Residual(p, line) * p.x)
  }

  /** Sum of squares of the line dk*x + db evaluated at the points' x. */
  function Spread(ps: seq<Vec2>, dk: real, db: real): real
  {
    Sum(ps, (p: Vec2) => (dk * p.x + db) * (dk * p.x + db))
  }

  lemma SumResidualsLinear(ps: seq<Vec2>, line: Line2)
    ensures SumResiduals(ps, line) == line.k * SumX(ps) + (|ps| as real) * line.b - SumY(ps)
  {
    var k, b := line.k, line.b;
    var x: Vec2 -> real := (p: Vec2) => p.x;
    var y: Vec2 -> real := (p: Vec2) => p.y;
    var kx: Vec2 -> real := (p: Vec2) => k * p.x;
    var one: Vec2 -> real := (p: Vec2) => b;
    var kxb: Vec2 -> real := (p: Vec2) => k * p.x + b;
    SumScale(ps, x, kx, k);
    SumConstant(ps, one, b);
    SumAdd(ps, kx, one, kxb);
    SumSub(ps, kxb, y, (p: Vec2) => Residual(p, line));
  }

  lemma ResidualTimesX(k: real, b: real, x: real, y: real)
    ensures (k * x + b - y) * x == k * (x * x) + b * x - x * y
  {
  }

  lemma SumResidualsXLinear(ps: seq<Vec2>, line: Line2)
    ensures SumResidualsX(ps, line) == line.k * SumXX(ps) + line.b * SumX(ps) - SumXY(ps)
  {
    var k, b := line.k, line.b;
    var xx: Vec2 -> real := (p: Vec2) => p.x * p.x;
    var x: Vec2 -> real := (p: Vec2) => p.x;
    var xy: Vec2 -> real := (p: Vec2) => p.x * p.y;
    var kxx: Vec2 -> real := (p: Vec2) => k * (p.x * p.x);
    var bx: Vec2 -> real := (p: Vec2) => b * p.x;
    var kxxbx: Vec2 -> real := (p: Vec2) => k * (p.x * p.x) + b * p.x;
    var rx: Vec2 -> real := (p: Vec2) => Residual(p, line) * p.x;
    SumScale(ps, xx, kxx, k);
    assert Sum(ps, kxx) == k * SumXX(ps);
    SumScale(ps, x, bx, b);
    assert Sum(ps, bx) == b * SumX(ps);
    SumAdd(ps, kxx, bx, kxxbx);
    forall p: Vec2 ensures rx(p) == kxxbx(p) - xy(p) {
      ResidualTimesX(k, b, p.x, p.y);
    }
    SumSub(ps, kxxbx, xy, rx);
    assert SumResidualsX(ps, line) == Sum(ps, rx);
  }

  lemma NormalAlgebra(n: real, sx: real, sy: real, sxy: real, sxx: real, k: real, b: real)
    requires n > 0.0 && n * sxx - sx * sx != 0.0
    requires k * (n * sxx - sx * sx) == n * sxy - sx * sy
    requires n * b == sy - k * sx
    ensures k * sx + n * b - sy == 0.0
    ensures k * sxx + b * sx - sxy == 0.0
  {
    assert n * (k * sxx + b * sx - sxy) == k * (n * sxx - sx * sx) + sx * (n * b + k * sx) - n * sxy;
  }

  lemma DivisionCancels(a: real, d: real)
    requires d != 0.0
    ensures (a / d) * d == a
    ensures (a * d) / d == a
  {
  }

  /** The fitted line solves the normal equations: residuals and x-weighted residuals sum to zero. */
  lemma NormalEquations(ps: seq<Vec2>)
    requires |ps| > 0 && Denominator(ps) != 0.0
    ensures SumResiduals(ps, FittedLine(ps)) == 0.0
    ensures SumResidualsX(ps, FittedLine(ps)) == 0.0
  {
    var line := FittedLine(ps);
    var n := |ps| as real;
    var sx, sy, sxy, sxx := SumX(ps), SumY(ps), SumXY(ps), SumXX(ps);
    DivisionCancels(n * sxy - sx * sy, Denominator(ps));
    DivisionCancels(sy - line.k * sx, n);
    NormalAlgebra(n, sx, sy, sxy, sxx, line.k, line.b);
    SumResidualsLinear(ps, line);
    SumResidualsXLinear(ps, line);
  }

  lemma ShiftedSquare(r: real, x: real, dk: real, db: real)
    ensures (r + (dk * x + db)) * (r + (dk * x + db))
         == r * r + 2.0 * dk * (r * x) + 2.0 * db * r + (dk * x + db) * (dk * x + db)
  {
  }

  /**
   Moving a line by (dk, db) changes its squared residuals by the cross terms
   plus the spread of the move.
   */
  lemma ShiftExpansion(ps: seq<Vec2>, line: Line2, dk: real, db: real)
    ensures SquaredResiduals(ps, Line2(line.k + dk, line.b + db))
         == SquaredResiduals(ps, line) + 2.0 * dk * SumResidualsX(ps, line)
            + 2.0 * db * SumResiduals(ps, line) + Spread(ps, dk, db)
  {
    var moved := Line2(line.k + dk, line.b + db);
    var sq: Vec2 -> real := (p: Vec2) => Residual(p, line) * Residual(p, line);
    var rx: Vec2 -> real := (p: Vec2) => Residual(p, line) * p.x;
    var r: Vec2 -> real := (p: Vec2) => Residual(p, line);
    var e: Vec2 -> real := (p: Vec2) => (dk * p.x + db) * (dk * p.x + db);
    var crossX: Vec2 -> real := (p: Vec2) => 2.0 * dk * (Residual(p, line) * p.x);
    var cross: Vec2 -> real := (p: Vec2) => 2.0 * db * Residual(p, line);
    var s1: Vec2 -> real := (p: Vec2) => sq(p) + crossX(p);
    var s2: Vec2 -> real := (p: Vec2) => s1(p) + cross(p);
    SumScale(ps, rx, crossX, 2.0 * dk);
    SumScale(ps, r, cross, 2.0 * db);
    SumAdd(ps, sq, crossX, s1);
    SumAdd(ps, s1, cross, s2);
    forall p: Vec2 ensures Residual(p, moved) * Residual(p, moved) == s2(p) + e(p) {
      assert Residual(p, moved) == Residual(p, line) + (dk * p.x + db);
      ShiftedSquare(Residual(p, line), p.x, dk, db);
    }
    SumAdd(ps, s2, e, (p: Vec2) => Residual(p, moved) * Residual(p, moved));
  }

  /** The fitted line has the smallest sum of squared residuals of all lines. */
  lemma FitIsOptimal(ps: seq<Vec2>, other: Line2)
    requires FitLine(ps).Fitted?
    ensures FitLine(ps).deviation <= SquaredResiduals(ps, other)
  {
    var line := FittedLine(ps);
    var dk, db := other.k - line.k, other.b - line.b;
    NormalEquations(ps);
    ShiftExpansion(ps, line, dk, db);
    forall p: Vec2 {
      SquareNonNegative(dk * p.x + db);
    }
    SumNonNegative(ps, (p: Vec2) => (dk * p.x + db) * (dk * p.x + db));
    assert Line2(line.k + dk, line.b + db) == other;
  }

  /** Points lying exactly on a line have zero residual sums of every kind. */
  lemma OnLineSums(ps: seq<Vec2>, line: Line2)
    requires forall i :: 0 <= i < |ps| ==> ps[i].y == line.k * ps[i].x + line.b
    ensures SumResiduals(ps, line) == 0.0
    ensures SumResidualsX(ps, line) == 0.0
    ensures SquaredResiduals(ps, line) == 0.0
  {
    SumConstant(ps, (p: Vec2) => Residual(p, line), 0.0);
    SumConstant(ps, (p: Vec2) => Residual(p, line) * p.x, 0.0);
    SumConstant(ps, (p: Vec2) => Residual(p, line) * Residual(p, line), 0.0);
  }

  lemma CollinearAlgebra(n: real, sx: real, sy: real, sxy: real, sxx: real, k: real, b: real)
    requires n > 0.0 && n * sxx - sx * sx != 0.0
    requires sy == k * sx + n * b
    requires sxy == k * sxx + b * sx
    ensures (n * sxy - sx * sy) / (n * sxx - sx * sx) == k
    ensures (sy - k * sx) / n == b
  {
    assert n * sxy - sx * sy == k * (n * sxx - sx * sx);
    DivisionCancels(k, n * sxx - sx * sx);
    DivisionCancels(b, n);
  }

  lemma CollinearFittedLine(ps: seq<Vec2>, line: Line2)
    requires |ps| > 0 && Denominator(ps) != 0.0
    requires forall i :: 0 <= i < |ps| ==> ps[i].y == line.k * ps[i].x + line.b
    ensures FittedLine(ps) == line
  {
    OnLineSums(ps, line);
    SumResidualsLinear(ps, line);
    SumResidualsXLinear(ps, line);
    CollinearAlgebra(|ps| as real, SumX(ps), SumY(ps), SumXY(ps), SumXX(ps), line.k, line.b);
  }

  /** Fitting points that lie on a line recovers that line exactly, with deviation 0. */
  lemma FitRecoversCollinear(ps: seq<Vec2>, line: Line2)
    requires |ps| >= 2 && Abs(Denominator(ps)) > Tiny
    requires forall i :: 0 <= i < |ps| ==> ps[i].y == line.k * ps[i].x + line.b
    ensures FitLine(ps) == Fitted(line, 0.0)
  {
    CollinearFittedLine(ps, line);
    OnLineSums(ps, line);
  }

  lemma VerticalAlgebra(n: real, x: real)
    ensures n * (n * (x * x)) - (n * x) * (n * x) == 0.0
  {
  }

  /** Points that all share one x coordinate cannot be fitted. */
  lemma VerticalPointsUnfittable(ps: seq<Vec2>)
    requires forall i, j :: 0 <= i < |ps| && 0 <= j < |ps| ==> ps[i].x == ps[j].x
    ensures FitLine(ps) == Unfittable
  {
    if |ps| >= 2 {
      var x := ps[0].x;
      SumConstant(ps, (p: Vec2) => p.x, x);
      SumConstant(ps, (p: Vec2) => p.x * p.x, x * x);
      VerticalAlgebra(|ps| as real, x);
    }
  }
}
