/** The slope and correlation of a series against its index, over the reals. */
module TrendRegression {
  import opened Sequences

  // ---- The sums the code accumulates, with x = 0, 1, 2, ... ----

  function SumX(n: nat): real {
    if n == 0 then 0.0 else SumX(n - 1) + (n - 1) as real
  }

  function SumXX(n: nat): real {
    if n == 0 then 0.0 else SumXX(n - 1) + (n - 1) as real * (n - 1) as real
  }

  function SumY(y: seq<real>): real {
    if y == [] then 0.0 else SumY(y[..|y| - 1]) + y[|y| - 1]
  }

  function SumXY(y: seq<real>): real {
    if y == [] then 0.0 else SumXY(y[..|y| - 1]) + (|y| - 1) as real * y[|y| - 1]
  }

  /** Not a sum of the code: needed to state residuals. */
  function SumYY(y: seq<real>): real {
    if y == [] then 0.0 else SumYY(y[..|y| - 1]) + y[|y| - 1] * y[|y| - 1]
  }

  datatype Sums = Sums(n: real, x: real, xx: real, y: real, xy: real, yy: real)

  function SumsOf(y: seq<real>): Sums {
    Sums(|y| as real, SumX(|y|), SumXX(|y|), SumY(y), SumXY(y), SumYY(y))
  }

  function Denominator(t: Sums): real {
    t.n * t.xx - t.x * t.x
  }

  function Numerator(t: Sums): real {
    t.n * t.xy - t.x * t.y
  }

  /** The slope; without two points the quotient is not a number. */
  function Slope(y: seq<real>): Option<real> {
    var t := SumsOf(y);
    if Denominator(t) == 0.0 then None else Some(Numerator(t) / Denominator(t))
  }

  function Sq(u: real): real {
    u * u
  }

  // ---- The denominator ----

  lemma {:induction false} ClosedForms(n: nat)
    ensures 2.0 * SumX(n) == n as real * (n as real - 1.0)
    ensures 6.0 * SumXX(n) == n as real * (n as real - 1.0) * (2.0 * n as real - 1.0)
  {
    if n > 0 {
      ClosedForms(n - 1);
    }
  }

  lemma DenominatorAlgebra(n: nat, x: real, xx: real, d: real)
    requires 2.0 * x == n as real * (n as real - 1.0)
    requires 6.0 * xx == n as real * (n as real - 1.0) * (2.0 * n as real - 1.0)
    requires d == n as real * xx - x * x
    ensures 12.0 * d == n as real * n as real * (n as real * n as real - 1.0)
    ensures d > 0.0 || d == 0.0
    ensures d > 0.0 <==> n >= 2
  {
    var r := n as real;
    assert 12.0 * (r * xx) == 2.0 * (r * (6.0 * xx));
    assert 12.0 * (x * x) == 3.0 * ((2.0 * x) * (2.0 * x));
    var p := r * r;
    var q := p * (p - 1.0);
    assert 12.0 * d == q;
    if n >= 2 {
      assert p >= 4.0;
      Product(p, p - 1.0, q);
    } else if n == 0 {
      assert r == 0.0;
    } else {
      assert r == 1.0;
    }
  }

  /** The denominator is n^2 (n^2 - 1) / 12, so the slope is a number exactly from two points on. */
  lemma {:induction false} DenominatorClosedForm(y: seq<real>)
    ensures 12.0 * Denominator(SumsOf(y)) == |y| as real * |y| as real * (|y| as real * |y| as real - 1.0)
    ensures Slope(y).Some? <==> |y| >= 2
    ensures |y| >= 2 ==> Denominator(SumsOf(y)) > 0.0
  {
    hide *;
    ClosedForms(|y|);
    SlopeDefined(y);
    DenominatorAlgebra(|y|, SumX(|y|), SumXX(|y|), Denominator(SumsOf(y)));
  }

  lemma SlopeDefined(y: seq<real>)
    ensures Slope(y).Some? <==> Denominator(SumsOf(y)) != 0.0
    ensures Denominator(SumsOf(y)) == |y| as real * SumXX(|y|) - SumX(|y|) * SumX(|y|)
  {
    hide SumX, SumXX, SumY, SumXY, SumYY;
  }

  // ---- Algebra over the sums ----

  /** The sum of squared residuals of the line a + b x, from the sums. */
  function Loss(t: Sums, a: real, b: real): real {
    t.yy - 2.0 * a * t.y - 2.0 * b * t.xy + t.n * a * a + 2.0 * a * b * t.x + b * b * t.xx
  }

  lemma Positive(u: real, w: real, q: real)
    requires u > 0.0 && w > 0.0 && q == u * w
    ensures q > 0.0
  {
  }

  lemma SqSign(u: real)
    ensures Sq(u) > 0.0 || (Sq(u) == 0.0 && u == 0.0)
    ensures u == 0.0 ==> Sq(u) == 0.0
  {
    if u > 0.0 {
      Positive(u, u, Sq(u));
    } else if u < 0.0 {
      var w := -u;
      Positive(w, w, Sq(w));
      assert Sq(u) == Sq(w);
    } else {
      assert Sq(0.0) == 0.0;
    }
  }

  lemma NonNegativeFactor(n: real, x: real, p: real)
    requires n > 0.0 && p >= 0.0 && n * x == p
    ensures x >= 0.0
  {
  }

  lemma Product(d: real, u: real, q: real)
    requires d > 0.0 && u >= 0.0 && q == d * u
    ensures q > 0.0 || (q == 0.0 && u == 0.0)
    ensures u == 0.0 ==> q == 0.0
  {
  }

  lemma Quotient(p: real, q: real)
    requires q != 0.0
    ensures q * (p / q) == p
  {
  }

  /** Completing the square twice. */
  lemma Complete(t: Sums, a: real, b: real, m: real)
    requires Denominator(t) * m == Numerator(t)
    ensures t.n * Loss(t, a, b)
            == Sq(t.n * a + b * t.x - t.y) + Denominator(t) * Sq(b - m)
               + (t.n * t.yy - t.y * t.y) - Denominator(t) * (m * m)
  {
    hide Loss, Denominator, Numerator;
    CompleteProducts(t, a, b, m);
  }

  lemma CompleteProducts(t: Sums, a: real, b: real, m: real)
    requires Denominator(t) * m == Numerator(t)
    ensures t.n * Loss(t, a, b)
            == (t.n * a + b * t.x - t.y) * (t.n * a + b * t.x - t.y)
               + Denominator(t) * ((b - m) * (b - m)) + (t.n * t.yy - t.y * t.y) - Denominator(t) * (m * m)
  {
    var n, sx, sy, d := t.n, t.x, t.y, Denominator(t);
    assert d * ((b - m) * (b - m)) == d * (b * b) - 2.0 * b * (d * m) + d * (m * m);
    assert (n * a + b * sx - sy) * (n * a + b * sx - sy)
        == n * n * a * a + b * b * sx * sx + sy * sy
           + 2.0 * (n * a * b * sx) - 2.0 * (n * a * sy) - 2.0 * (b * sx * sy);
    assert n * Loss(t, a, b)
        == n * t.yy - 2.0 * (n * a * sy) - 2.0 * (b * (n * t.xy))
           + n * n * a * a + 2.0 * (n * a * b * sx) + b * b * (n * t.xx);
    assert b * (d * m) == b * (n * t.xy) - b * sx * sy;
    assert d * (b * b) == b * b * (n * t.xx) - b * b * sx * sx;
  }

  lemma FitBalances(t: Sums, m: real, c: real)
    requires t.n > 0.0 && c == t.y / t.n - m * (t.x / t.n)
    ensures t.n * c + m * t.x - t.y == 0.0
  {
    Quotient(t.y, t.n);
    Quotient(t.x, t.n);
    assert t.n * (m * (t.x / t.n)) == m * (t.n * (t.x / t.n));
    assert t.n * c == t.n * (t.y / t.n) - t.n * (m * (t.x / t.n));
  }

  /** A scaled gap that is a sum of two non-negative terms is not negative, and 0 only if both are. */
  lemma GapMinimum(n: real, d: real, gap: real, u: real, w: real)
    requires n > 0.0 && d > 0.0 && n * gap == Sq(u) + d * Sq(w)
    ensures gap > 0.0 || (gap == 0.0 && u == 0.0 && w == 0.0)
  {
    SqSign(u);
    SqSign(w);
    hide Sq;
    var dww, ng := d * Sq(w), n * gap;
    Product(d, Sq(w), dww);
    NonNegativeFactor(n, gap, ng);
    Product(n, gap, ng);
  }

  function SlopeOf(t: Sums): real
    requires Denominator(t) != 0.0
  {
    Numerator(t) / Denominator(t)
  }

  function InterceptOf(t: Sums): real
    requires t.n != 0.0 && Denominator(t) != 0.0
  {
    t.y / t.n - SlopeOf(t) * (t.x / t.n)
  }

  lemma SlopeSolves(t: Sums)
    requires Denominator(t) > 0.0
    ensures Denominator(t) * SlopeOf(t) == Numerator(t)
  {
    hide Numerator, Denominator;
    Quotient(Numerator(t), Denominator(t));
  }

  lemma FitBalanced(t: Sums)
    requires t.n > 0.0 && Denominator(t) > 0.0
    ensures t.n * InterceptOf(t) + SlopeOf(t) * t.x - t.y == 0.0
  {
    hide SlopeOf, Denominator;
    FitBalances(t, SlopeOf(t), InterceptOf(t));
  }

  lemma LossAtFit(t: Sums, c: real, m: real)
    requires Denominator(t) * m == Numerator(t) && t.n * c + m * t.x - t.y == 0.0
    ensures t.n * Loss(t, c, m) == t.n * t.yy - t.y * t.y - Denominator(t) * (m * m)
  {
    var u, w, d := t.n * c + m * t.x - t.y, m - m, Denominator(t);
    SqSign(u);
    SqSign(w);
    Complete(t, c, m, m);
    hide *;
    assert d * Sq(w) == 0.0;
  }

  /** How far any line is from the fit, in squares. */
  lemma FitGap(t: Sums, a: real, b: real)
    requires t.n > 0.0 && Denominator(t) > 0.0
    ensures var m, c := SlopeOf(t), InterceptOf(t);
            t.n * (Loss(t, a, b) - Loss(t, c, m)) == Sq(t.n * a + b * t.x - t.y) + Denominator(t) * Sq(b - m)
  {
    hide *;
    var m, c := SlopeOf(t), InterceptOf(t);
    SlopeSolves(t);
    FitBalanced(t);
    LossAtFit(t, c, m);
    Complete(t, a, b, m);
    Distribute(t.n, Loss(t, a, b), Loss(t, c, m));
  }

  lemma Distribute(n: real, p: real, q: real)
    ensures n * (p - q) == n * p - n * q
  {
  }

  lemma FitMinimises(t: Sums, a: real, b: real)
    requires t.n > 0.0 && Denominator(t) > 0.0
    ensures Loss(t, InterceptOf(t), SlopeOf(t)) <= Loss(t, a, b)
    ensures Loss(t, InterceptOf(t), SlopeOf(t)) == Loss(t, a, b) ==> b == SlopeOf(t) && a == InterceptOf(t)
  {
    hide *;
    var m, c := SlopeOf(t), InterceptOf(t);
    var u, w, gap := t.n * a + b * t.x - t.y, b - m, Loss(t, a, b) - Loss(t, c, m);
    FitGap(t, a, b);
    FitBalanced(t);
    GapMinimum(t.n, Denominator(t), gap, u, w);
    if u == 0.0 && w == 0.0 {
      SameLine(t.n, t.x, t.y, a, b, c, m);
    }
  }

  lemma SameLine(n: real, x: real, y: real, a: real, b: real, c: real, m: real)
    requires n > 0.0 && b - m == 0.0 && n * a + b * x - y == 0.0 && n * c + m * x - y == 0.0
    ensures a == c
  {
    assert n * a == n * c;
    SameFactor(n, a, c);
  }

  lemma SameFactor(n: real, a: real, c: real)
    requires n > 0.0 && n * a == n * c
    ensures a == c
  {
  }

  // ---- Least squares ----

  function Residual(y: seq<real>, a: real, b: real, i: nat): real
    requires i < |y|
  {
    y[i] - a - b * i as real
  }

  /** The sum of squared residuals of the line a + b x. */
  function Residuals(y: seq<real>, a: real, b: real): real {
    if y == [] then 0.0
    else Residuals(y[..|y| - 1], a, b) + Sq(Residual(y, a, b, |y| - 1))
  }

  function Include(t: Sums, x: real, v: real): Sums {
    Sums(t.n + 1.0, t.x + x, t.xx + x * x, t.y + v, t.xy + x * v, t.yy + v * v)
  }

  lemma SumsStep(y: seq<real>)
    requires y != []
    ensures SumsOf(y) == Include(SumsOf(y[..|y| - 1]), (|y| - 1) as real, y[|y| - 1])
  {
  }

  lemma LossInclude(t: Sums, x: real, v: real, a: real, b: real)
    ensures Loss(Include(t, x, v), a, b) == Loss(t, a, b) + Sq(v - a - b * x)
  {
    assert (v - a - b * x) * (v - a - b * x)
        == v * v - 2.0 * a * v - 2.0 * b * (x * v) + a * a + 2.0 * a * b * x + b * b * (x * x);
  }

  lemma NoPointsNoLoss(a: real, b: real)
    ensures Residuals([], a, b) == Loss(SumsOf([]), a, b)
  {
    assert SumsOf([]) == Sums(0.0, 0.0, 0.0, 0.0, 0.0, 0.0);
  }

  lemma ResidualsStep(y: seq<real>, a: real, b: real)
    requires y != []
    ensures var x, v := (|y| - 1) as real, y[|y| - 1];
            Residuals(y, a, b) == Residuals(y[..|y| - 1], a, b) + Sq(v - a - b * x)
  {
    hide Sq;
  }

  lemma {:induction false} ResidualsAreLoss(y: seq<real>, a: real, b: real)
    ensures Residuals(y, a, b) == Loss(SumsOf(y), a, b)
  {
    hide *;
    if y == [] {
      NoPointsNoLoss(a, b);
    } else {
      var z, x, v := y[..|y| - 1], (|y| - 1) as real, y[|y| - 1];
      ResidualsAreLoss(z, a, b);
      SumsStep(y);
      ResidualsStep(y, a, b);
      LossInclude(SumsOf(z), x, v, a, b);
    }
  }

  function Intercept(y: seq<real>): real
    requires Slope(y).Some?
  {
    assert |y| >= 2 by { DenominatorClosedForm(y); }
    InterceptOf(SumsOf(y))
  }

  /** The slope is the least-squares slope: together with its intercept it minimises the sum of squared
      residuals over all lines, and no other line does as well. */
  lemma {:induction false} SlopeIsLeastSquares(y: seq<real>, a: real, b: real)
    requires |y| >= 2
    ensures Slope(y).Some?
    ensures Residuals(y, Intercept(y), Slope(y).value) <= Residuals(y, a, b)
    ensures Residuals(y, Intercept(y), Slope(y).value) == Residuals(y, a, b)
            ==> b == Slope(y).value && a == Intercept(y)
  {
    DenominatorClosedForm(y);
    FitMinimises(SumsOf(y), a, b);
    ResidualsAreLoss(y, a, b);
    ResidualsAreLoss(y, Intercept(y), Slope(y).value);
  }

  ghost predicate OnLine(y: seq<real>, a: real, b: real) {
    forall i :: 0 <= i < |y| ==> y[i] == a + b * i as real
  }

  lemma OnLineStep(y: seq<real>, a: real, b: real)
    requires y != []
    ensures OnLine(y, a, b) <==> OnLine(y[..|y| - 1], a, b) && Residual(y, a, b, |y| - 1) == 0.0
  {
    var z := y[..|y| - 1];
    assert forall i :: 0 <= i < |z| ==> z[i] == y[i];
  }

  lemma {:induction false} NoResidualOnLine(y: seq<real>, a: real, b: real)
    ensures Residuals(y, a, b) >= 0.0
    ensures Residuals(y, a, b) == 0.0 <==> OnLine(y, a, b)
  {
    if y != [] {
      hide Sq, Residual, OnLine;
      NoResidualOnLine(y[..|y| - 1], a, b);
      OnLineStep(y, a, b);
      SqSign(Residual(y, a, b, |y| - 1));
    }
  }

  /** On data that lie on a line the slope is that line's. */
  lemma ExactOnLines(y: seq<real>, a: real, b: real)
    requires |y| >= 2 && OnLine(y, a, b)
    ensures Slope(y) == Some(b)
  {
    hide OnLine, Residuals, Slope, Intercept;
    SlopeIsLeastSquares(y, a, b);
    NoResidualOnLine(y, a, b);
    NoResidualOnLine(y, Intercept(y), Slope(y).value);
  }

  // ---- Correlation ----

  /** Sum of (x - c)(y - d), as the code's numerator with the two means. */
  function CrossDeviation(y: seq<real>, c: real, d: real): real {
    if y == [] then 0.0
    else CrossDeviation(y[..|y| - 1], c, d) + ((|y| - 1) as real - c) * (y[|y| - 1] - d)
  }

  function DeviationX(n: nat, c: real): real {
    if n == 0 then 0.0 else DeviationX(n - 1, c) + Sq((n - 1) as real - c)
  }

  function DeviationY(y: seq<real>, d: real): real {
    if y == [] then 0.0 else DeviationY(y[..|y| - 1], d) + Sq(y[|y| - 1] - d)
  }

  function Centred(n: real, sp: real, s: real, t: real, c: real, d: real): real {
    sp - d * s - c * t + n * (c * d)
  }

  lemma CentredInclude(n: real, sp: real, s: real, t: real, c: real, d: real, x: real, v: real,
                       n': real, sp': real, s': real, t': real)
    requires n' == n + 1.0 && sp' == sp + x * v && s' == s + x && t' == t + v
    ensures Centred(n', sp', s', t', c, d) == Centred(n, sp, s, t, c, d) + (x - c) * (v - d)
  {
    assert (x - c) * (v - d) == x * v - d * x - c * v + c * d;
    assert (n + 1.0) * (c * d) == n * (c * d) + c * d;
  }

  lemma NoPointsNoDeviation(c: real, d: real)
    ensures CrossDeviation([], c, d) == Centred(0.0, 0.0, 0.0, 0.0, c, d) == 0.0
    ensures DeviationX(0, c) == Centred(0.0, 0.0, 0.0, 0.0, c, c) == 0.0
    ensures DeviationY([], d) == Centred(0.0, 0.0, 0.0, 0.0, d, d) == 0.0
    ensures SumsOf([]) == Sums(0.0, 0.0, 0.0, 0.0, 0.0, 0.0)
  {
  }

  lemma DeviationStep(y: seq<real>, c: real, d: real)
    requires y != []
    ensures var z, x, v := y[..|y| - 1], (|y| - 1) as real, y[|y| - 1];
            && CrossDeviation(y, c, d) == CrossDeviation(z, c, d) + (x - c) * (v - d)
            && DeviationX(|y|, c) == DeviationX(|z|, c) + (x - c) * (x - c)
            && DeviationY(y, d) == DeviationY(z, d) + (v - d) * (v - d)
  {
  }

  lemma {:induction false} ExpandDeviations(y: seq<real>, c: real, d: real)
    ensures var t := SumsOf(y);
            && CrossDeviation(y, c, d) == Centred(t.n, t.xy, t.x, t.y, c, d)
            && DeviationX(|y|, c) == Centred(t.n, t.xx, t.x, t.x, c, c)
            && DeviationY(y, d) == Centred(t.n, t.yy, t.y, t.y, d, d)
  {
    hide SumsOf, SumX, SumXX, SumY, SumXY, SumYY, Centred, CrossDeviation, DeviationX, DeviationY;
    if y == [] {
      NoPointsNoDeviation(c, d);
    } else {
      var x, v := (|y| - 1) as real, y[|y| - 1];
      var z := y[..|y| - 1];
      ExpandDeviations(z, c, d);
      DeviationStep(y, c, d);
      SumsStep(y);
      var t, t' := SumsOf(z), SumsOf(y);
      CentredInclude(t.n, t.xy, t.x, t.y, c, d, x, v, t'.n, t'.xy, t'.x, t'.y);
      CentredInclude(t.n, t.xx, t.x, t.x, c, c, x, x, t'.n, t'.xx, t'.x, t'.x);
      CentredInclude(t.n, t.yy, t.y, t.y, d, d, v, v, t'.n, t'.yy, t'.y, t'.y);
    }
  }

  function MeanX(y: seq<real>): real
    requires y != []
  {
    SumX(|y|) / |y| as real
  }

  function MeanY(y: seq<real>): real
    requires y != []
  {
    SumY(y) / |y| as real
  }

  lemma MeanForm(n: real, sp: real, s: real, t: real)
    requires n > 0.0
    ensures n * Centred(n, sp, s, t, s / n, t / n) == n * sp - s * t
  {
    var p, q := s / n, t / n;
    Quotient(s, n);
    Quotient(t, n);
    assert n * (q * s) == (n * q) * s;
    assert n * (p * t) == (n * p) * t;
    assert n * (n * (p * q)) == (n * p) * (n * q);
    assert n * Centred(n, sp, s, t, p, q) == n * sp - n * (q * s) - n * (p * t) + n * (n * (p * q));
  }

  /** The three centred sums of the correlation, named: cross, x and y. */
  datatype Deviations = Deviations(cross: real, x: real, y: real)

  function DeviationsOf(y: seq<real>): Deviations
    requires y != []
  {
    Deviations(CrossDeviation(y, MeanX(y), MeanY(y)), DeviationX(|y|, MeanX(y)), DeviationY(y, MeanY(y)))
  }

  ghost predicate Scaled(t: Sums, v: Deviations) {
    && t.n * v.cross == Numerator(t)
    && t.n * v.x == Denominator(t)
    && t.n * v.y == t.n * t.yy - t.y * t.y
  }

  /** The centred sums of the correlation are the raw sums of the slope, divided by n. */
  lemma {:induction false} CentredForms(y: seq<real>)
    requires y != []
    ensures Scaled(SumsOf(y), DeviationsOf(y))
  {
    var t, v := SumsOf(y), DeviationsOf(y);
    assert t.n == |y| as real && MeanX(y) == t.x / t.n && MeanY(y) == t.y / t.n;
    ExpandDeviations(y, MeanX(y), MeanY(y));
    hide SumsOf, SumX, SumXX, SumY, SumXY, SumYY, CrossDeviation, DeviationX, DeviationY;
    CentredScaled(t, v);
  }

  lemma CentredScaled(t: Sums, v: Deviations)
    requires t.n > 0.0
    requires v.cross == Centred(t.n, t.xy, t.x, t.y, t.x / t.n, t.y / t.n)
    requires v.x == Centred(t.n, t.xx, t.x, t.x, t.x / t.n, t.x / t.n)
    requires v.y == Centred(t.n, t.yy, t.y, t.y, t.y / t.n, t.y / t.n)
    ensures Scaled(t, v)
  {
    MeanForm(t.n, t.xy, t.x, t.y);
    MeanForm(t.n, t.xx, t.x, t.x);
    MeanForm(t.n, t.yy, t.y, t.y);
  }

  lemma PositiveFactor(n: real, x: real, d: real)
    requires n > 0.0 && d > 0.0 && n * x == d
    ensures x > 0.0
  {
  }

  lemma RatioAlgebra(t: Sums, v: Deviations)
    requires t.n > 0.0 && Denominator(t) > 0.0 && Scaled(t, v)
    ensures v.x > 0.0 && v.x * SlopeOf(t) == v.cross && SlopeOf(t) == v.cross / v.x
  {
    var m := SlopeOf(t);
    PositiveFactor(t.n, v.x, Denominator(t));
    Quotient(Numerator(t), Denominator(t));
    assert t.n * (v.x * m) == (t.n * v.x) * m;
    SameFactor(t.n, v.x * m, v.cross);
    Quotient(v.cross, v.x);
    SameFactor(v.x, m, v.cross / v.x);
  }

  /** The slope is the covariance over the variance of x. */
  lemma {:induction false} SlopeIsCovarianceRatio(y: seq<real>)
    requires |y| >= 2
    ensures DeviationsOf(y).x > 0.0
    ensures Slope(y) == Some(DeviationsOf(y).cross / DeviationsOf(y).x)
  {
    DenominatorClosedForm(y);
    CentredForms(y);
    RatioAlgebra(SumsOf(y), DeviationsOf(y));
  }

  lemma CauchySchwarzAlgebra(t: Sums, v: Deviations)
    requires t.n > 0.0 && Denominator(t) > 0.0 && Scaled(t, v)
    ensures v.x * v.y - v.cross * v.cross == v.x * Loss(t, InterceptOf(t), SlopeOf(t))
  {
    hide SlopeOf, InterceptOf, Loss, Numerator, Denominator;
    var m, c, d := SlopeOf(t), InterceptOf(t), Denominator(t);
    RatioAlgebra(t, v);
    SlopeSolves(t);
    FitBalanced(t);
    LossAtFit(t, c, m);
    GapAlgebra(t.n, d, v.x, v.y, v.cross, m, Loss(t, c, m));
  }

  lemma GapAlgebra(n: real, d: real, x: real, y: real, cross: real, m: real, r: real)
    requires n > 0.0 && d == n * x && x * m == cross && n * r == n * y - d * (m * m)
    ensures x * y - cross * cross == x * r
  {
    assert d * (m * m) == n * (x * (m * m));
    assert n * (y - x * (m * m)) == n * y - n * (x * (m * m));
    SameFactor(n, r, y - x * (m * m));
    assert x * r == x * y - (x * m) * (x * m);
  }

  /** The square of `r` is the share of the spread around the mean that the fitted line explains. */
  ghost predicate Explains(y: seq<real>, r: real)
    requires y != [] && Slope(y).Some?
  {
    r * r * DeviationY(y, MeanY(y)) == DeviationY(y, MeanY(y)) - Residuals(y, Intercept(y), Slope(y).value)
  }

  /** The correlation coefficient, given the two square roots the code takes. */
  function Correlation(y: seq<real>, rootX: real, rootY: real): real
    requires y != [] && rootX * rootY != 0.0
  {
    DeviationsOf(y).cross / (rootX * rootY)
  }

  lemma SquareAtMostOne(r: real, q: real, gap: real)
    requires q > 0.0 && gap >= 0.0 && r * r * q == q - gap
    ensures -1.0 <= r <= 1.0
    ensures r * r == 1.0 <==> gap == 0.0
  {
    var s := 1.0 - r * r;
    assert s * q == q - r * r * q;
    NonNegativeFactor(q, s, gap);
    Product(q, s, gap);
    OutsideSquaresAboveOne(r);
  }

  lemma OutsideSquaresAboveOne(r: real)
    ensures r > 1.0 || r < -1.0 ==> r * r > 1.0
  {
    if r > 1.0 || r < -1.0 {
      assert (r - 1.0) * (r + 1.0) > 0.0;
    }
  }

  lemma SameSign(r: real, p: real, m: real, d: real)
    requires p > 0.0 && d > 0.0 && r * p == m * d
    ensures r > 0.0 <==> m > 0.0
    ensures r == 0.0 <==> m == 0.0
  {
    if r > 0.0 { assert r * p > 0.0; }
    if m > 0.0 { assert m * d > 0.0; }
    if r < 0.0 { assert -r * p > 0.0; }
    if m < 0.0 { assert -m * d > 0.0; }
  }

  lemma ExplainedShare(v: Deviations, rr: real, loss: real)
    requires v.x > 0.0 && rr * (v.x * v.y) == v.cross * v.cross
    requires v.x * v.y - v.cross * v.cross == v.x * loss
    ensures rr * v.y == v.y - loss
  {
    assert rr * (v.x * v.y) == v.x * (rr * v.y);
    assert v.x * (v.y - loss) == v.x * v.y - v.x * loss;
    SameFactor(v.x, rr * v.y, v.y - loss);
  }

  lemma CorrelationAlgebra(v: Deviations, rootX: real, rootY: real, loss: real, m: real)
    requires rootX > 0.0 && rootY > 0.0 && rootX * rootX == v.x && rootY * rootY == v.y
    requires loss >= 0.0 && v.x > 0.0 && v.x * m == v.cross
    requires v.x * v.y - v.cross * v.cross == v.x * loss
    ensures rootX * rootY > 0.0
    ensures var r := v.cross / (rootX * rootY);
            && -1.0 <= r <= 1.0 && (r > 0.0 <==> m > 0.0) && (r == 0.0 <==> m == 0.0)
            && (r * r == 1.0 <==> loss == 0.0) && r * r * v.y == v.y - loss
  {
    var p, q, gap := rootX * rootY, v.x * v.y, v.x * loss;
    Product(rootX, rootY, p);
    Product(v.x, loss, gap);
    var r := v.cross / p;
    Quotient(v.cross, p);
    SquareOfQuotient(rootX, rootY, v, p, r);
    SquareAtMostOne(r, q, gap);
    SameSign(r, p, m, v.x);
    ExplainedShare(v, r * r, loss);
  }

  lemma SquareOfQuotient(rootX: real, rootY: real, v: Deviations, p: real, r: real)
    requires rootX * rootX == v.x && rootY * rootY == v.y && p == rootX * rootY && p > 0.0 && p * r == v.cross
    ensures r * r * (v.x * v.y) == v.cross * v.cross && v.x * v.y > 0.0
  {
    var pp := p * p;
    assert pp == (rootX * rootX) * (rootY * rootY);
    assert (p * r) * (p * r) == (r * r) * pp;
    Product(p, p, pp);
  }

  // ---- When the correlation is a number ----

  ghost predicate AllEqual(y: seq<real>) {
    forall i :: 0 <= i < |y| ==> y[i] == y[0]
  }

  lemma {:induction false} NoSpreadIff(y: seq<real>, d: real)
    ensures DeviationY(y, d) >= 0.0
    ensures DeviationY(y, d) == 0.0 <==> forall i :: 0 <= i < |y| ==> y[i] == d
  {
    if y != [] {
      hide Sq;
      NoSpreadIff(y[..|y| - 1], d);
      SqSign(y[|y| - 1] - d);
    }
  }

  lemma {:induction false} SumOfEqual(y: seq<real>, v: real)
    requires forall i :: 0 <= i < |y| ==> y[i] == v
    ensures SumY(y) == |y| as real * v
  {
    if y != [] {
      SumOfEqual(y[..|y| - 1], v);
      assert |y| as real * v == (|y| - 1) as real * v + v;
    }
  }

  lemma SpreadIsZeroIff(y: seq<real>)
    requires y != []
    ensures DeviationY(y, MeanY(y)) >= 0.0
    ensures DeviationY(y, MeanY(y)) == 0.0 <==> AllEqual(y)
  {
    hide DeviationY, SumY, MeanY;
    NoSpreadIff(y, MeanY(y));
    if AllEqual(y) {
      MeanOfEqual(y, y[0]);
    }
  }

  lemma MeanOfEqual(y: seq<real>, v: real)
    requires y != [] && forall i :: 0 <= i < |y| ==> y[i] == v
    ensures MeanY(y) == v
  {
    SumOfEqual(y, v);
    hide SumY;
    var n := |y| as real;
    Quotient(SumY(y), n);
    SameFactor(n, MeanY(y), v);
  }

  lemma RootSigns(root: real, x: real)
    requires root >= 0.0 && root * root == x
    ensures root > 0.0 <==> x > 0.0
    ensures root == 0.0 <==> x == 0.0
  {
    SqSign(root);
    assert x == Sq(root);
  }

  /** The correlation divides by zero iff all values are equal; otherwise it has the sign of the slope, and its
      square is the share of the spread around the mean that the fitted line explains. So it lies in [-1, 1],
      and at an end of it exactly when the points lie on a line. */
  lemma CorrelationMeaning(y: seq<real>, rootX: real, rootY: real)
    requires |y| >= 2 && rootX >= 0.0 && rootY >= 0.0
    requires rootX * rootX == DeviationsOf(y).x && rootY * rootY == DeviationsOf(y).y
    ensures Slope(y).Some?
    ensures rootX * rootY == 0.0 <==> AllEqual(y)
    ensures !AllEqual(y) ==>
              var r := Correlation(y, rootX, rootY);
              && -1.0 <= r <= 1.0
              && (r > 0.0 <==> Slope(y).value > 0.0) && (r == 0.0 <==> Slope(y).value == 0.0)
              && Explains(y, r)
              && (r * r == 1.0 <==> OnLine(y, Intercept(y), Slope(y).value))
  {
    SpreadIsZeroIff(y);
    SlopeIsCovarianceRatio(y);
    hide *;
    RootOfSpread(y, rootX, rootY);
    if !AllEqual(y) {
      CorrelationOfSpread(y, rootX, rootY);
    }
  }

  lemma RootOfSpread(y: seq<real>, rootX: real, rootY: real)
    requires y != [] && rootX >= 0.0 && rootY >= 0.0 && DeviationsOf(y).x > 0.0
    requires rootX * rootX == DeviationsOf(y).x && rootY * rootY == DeviationsOf(y).y
    ensures rootX > 0.0
    ensures rootY > 0.0 <==> !AllEqual(y)
    ensures rootX * rootY == 0.0 <==> AllEqual(y)
  {
    SpreadIsZeroIff(y);
    hide AllEqual, MeanX, MeanY, CrossDeviation, DeviationX, DeviationY;
    RootSigns(rootX, DeviationsOf(y).x);
    RootSigns(rootY, DeviationsOf(y).y);
    if rootY > 0.0 {
      Product(rootX, rootY, rootX * rootY);
    }
  }

  lemma CorrelationOfSpread(y: seq<real>, rootX: real, rootY: real)
    requires |y| >= 2 && rootX > 0.0 && rootY > 0.0
    requires rootX * rootX == DeviationsOf(y).x && rootY * rootY == DeviationsOf(y).y
    ensures Slope(y).Some? && rootX * rootY != 0.0
    ensures var r := Correlation(y, rootX, rootY);
            && -1.0 <= r <= 1.0
            && (r > 0.0 <==> Slope(y).value > 0.0) && (r == 0.0 <==> Slope(y).value == 0.0)
            && Explains(y, r)
            && (r * r == 1.0 <==> OnLine(y, Intercept(y), Slope(y).value))
  {
    hide SumsOf, DeviationsOf, Slope, Intercept, Residuals, SlopeOf, InterceptOf, Loss, Scaled, Denominator,
      Numerator, SumX, SumXX, SumY, SumXY, SumYY, CrossDeviation, DeviationX, DeviationY, MeanX, MeanY;
    FitTerms(y);
    CentredForms(y);
    SpreadIs(y);
    var t, v := SumsOf(y), DeviationsOf(y);
    var m, c := Slope(y).value, Intercept(y);
    ResidualsAreLoss(y, c, m);
    NoResidualOnLine(y, c, m);
    RatioAlgebra(t, v);
    CauchySchwarzAlgebra(t, v);
    CorrelationAlgebra(v, rootX, rootY, Residuals(y, c, m), m);
  }

  lemma SpreadIs(y: seq<real>)
    requires y != []
    ensures DeviationsOf(y).y == DeviationY(y, MeanY(y))
  {
  }

  lemma FitTerms(y: seq<real>)
    requires |y| >= 2
    ensures Slope(y).Some? && SumsOf(y).n == |y| as real > 0.0 && Denominator(SumsOf(y)) > 0.0
    ensures Slope(y).value == SlopeOf(SumsOf(y)) && Intercept(y) == InterceptOf(SumsOf(y))
  {
    DenominatorClosedForm(y);
  }
}
