/** The Wilson score interval of a conversion rate, over the reals; the square root is a parameter. */
module WilsonInterval {
  import opened Sequences

  const Z := 1.96

  function Rate(conversions: nat, visitors: nat): real {
    if visitors > 0 then conversions as real / visitors as real else 0.0
  }

  /** What the code takes the square root of. */
  function Radicand(n: real, p: real): real
    requires n != 0.0
  {
    (p * (1.0 - p) + Z * Z / (4.0 * n)) / n
  }

  datatype Interval = Interval(lower: real, upper: real)

  function RealMax(a: real, b: real): real { if a >= b then a else b }
  function RealMin(a: real, b: real): real { if a <= b then a else b }

  /** The two bounds before clamping. */
  function Unclamped(n: real, p: real, root: real): Interval
    requires n > 0.0
  {
    var denominator := 1.0 + Z * Z / n;
    var center := p + Z * Z / (2.0 * n);
    var margin := Z * root;
    assert denominator > 0.0 by { QuotientPositive(Z * Z, n); }
    Interval((center - margin) / denominator, (center + margin) / denominator)
  }

  ghost predicate IsRoot(root: real, x: real) {
    root >= 0.0 && root * root == x
  }

  /** `root` is the square root of the radicand; without one the code computes with NaN. */
  function ConfidenceInterval(conversions: nat, visitors: nat, root: real): Interval
    requires visitors > 0 ==> IsRoot(root, Radicand(visitors as real, Rate(conversions, visitors)))
  {
    if visitors == 0 then Interval(0.0, 0.0)
    else
      var i := Unclamped(visitors as real, Rate(conversions, visitors), root);
      Interval(RealMax(0.0, i.lower), RealMin(1.0, i.upper))
  }

  lemma QuotientPositive(x: real, n: real)
    requires x > 0.0 && n > 0.0
    ensures x / n > 0.0
  {
  }

  // ---- Reduction to u = z^2 / n ----

  /** With u = z^2 / n and m the margin: m^2 = u p (1 - p) + u^2 / 4. */
  ghost predicate Margin(u: real, p: real, m: real) {
    u > 0.0 && m >= 0.0 && m * m == u * (p * (1.0 - p)) + u * u / 4.0
  }

  lemma Reduce(n: real, p: real, root: real) returns (u: real, m: real)
    requires n > 0.0 && IsRoot(root, Radicand(n, p))
    ensures Margin(u, p, m) && n * u == 3.8416
    ensures Unclamped(n, p, root) == Interval((p + u / 2.0 - m) / (1.0 + u), (p + u / 2.0 + m) / (1.0 + u))
  {
    var zz := Z * Z;
    u := zz / n;
    m := Z * root;
    QuotientPositive(zz, n);
    assert n * u == zz == 3.8416;
    assert zz / (2.0 * n) == u / 2.0;
    assert zz / (4.0 * n) == u / 4.0;
    var x := p * (1.0 - p) + u / 4.0;
    assert root * root == x / n;
    assert m * m == zz * (root * root);
    assert zz * (x / n) == u * x by { Swap(zz, x, n); }
    assert u * x == u * (p * (1.0 - p)) + u * u / 4.0;
  }

  lemma Swap(a: real, x: real, n: real)
    requires n != 0.0
    ensures a * (x / n) == (a / n) * x
  {
    var q, r := x / n, a / n;
    assert n * q == x && n * r == a;
    assert a * q == r * n * q == r * x;
  }

  /** Squares of non-negative reals compare as the reals do. */
  lemma CompareNonNegative(a: real, b: real, aa: real, bb: real)
    requires a >= 0.0 && b >= 0.0 && aa == a * a && bb == b * b
    ensures aa <= bb <==> a <= b
  {
    assert bb - aa == (b - a) * (b + a);
    if a <= b {
      NonNegativeProduct(b - a, b + a);
    } else {
      Scale(a - b, a + b);
      assert (a - b) * (a + b) == aa - bb;
    }
  }

  lemma CompareSquares(a: real, b: real, aa: real, bb: real)
    requires b >= 0.0 && aa == a * a && bb == b * b
    ensures aa <= bb <==> -b <= a <= b
  {
    var c := if a >= 0.0 then a else -a;
    assert aa == c * c;
    CompareNonNegative(c, b, aa, bb);
  }

  lemma NonNegativeProduct(a: real, b: real)
    requires a >= 0.0 && b >= 0.0
    ensures a * b >= 0.0
  {
  }

  lemma NegativeProduct(a: real, b: real)
    requires a > 0.0 && b < 0.0
    ensures a * b < 0.0
  {
  }

  /** The three gaps between the margin and the distances to 0, 1 and p, as differences of squares. */
  lemma GapToZero(u: real, p: real, m: real)
    requires Margin(u, p, m)
    ensures (p + u / 2.0) * (p + u / 2.0) - m * m == (p * p) * (1.0 + u)
  {
    assert (p + u / 2.0) * (p + u / 2.0) == p * p + p * u + u * u / 4.0;
    assert u * (p * (1.0 - p)) == u * p - u * (p * p);
  }

  lemma GapToOne(u: real, p: real, m: real)
    requires Margin(u, p, m)
    ensures (1.0 - p + u / 2.0) * (1.0 - p + u / 2.0) - m * m == ((1.0 - p) * (1.0 - p)) * (1.0 + u)
  {
    assert u * ((1.0 - p) * (1.0 - (1.0 - p))) == u * (p * (1.0 - p));
    GapToZero(u, 1.0 - p, m);
  }

  lemma GapToRate(u: real, p: real, m: real)
    requires Margin(u, p, m)
    ensures m * m - (u * (0.5 - p)) * (u * (0.5 - p)) == (u + u * u) * (p * (1.0 - p))
  {
    var k := p * (1.0 - p);
    assert (0.5 - p) * (0.5 - p) == 0.25 - k;
    assert (u * (0.5 - p)) * (u * (0.5 - p)) == (u * u) * ((0.5 - p) * (0.5 - p));
    assert (u * u) * (0.25 - k) == u * u / 4.0 - (u * u) * k;
    assert (u + u * u) * k == u * k + (u * u) * k;
  }

  /** A square times a positive factor is a non-negative gap. */
  lemma GapIsNonNegative(a: real, d: real)
    requires d > 0.0
    ensures (a * a) * d >= 0.0
  {
    var w := if a >= 0.0 then a else -a;
    assert a * a == w * w;
    NonNegativeProduct(w, w);
    NonNegativeProduct(a * a, d);
  }

  /** The margin reaches from the centre to the rate, when that is at most 1, and stays within 0 and 1. */
  lemma MarginBounds(u: real, p: real, m: real)
    requires Margin(u, p, m) && p >= 0.0
    ensures m <= p + u / 2.0
    ensures m <= 1.0 - p + u / 2.0
    ensures -m <= u * (0.5 - p) <= m <==> p <= 1.0
  {
    MarginWithinZero(u, p, m);
    MarginWithinOne(u, p, m);
    MarginReachesRate(u, p, m);
  }

  lemma MarginWithinZero(u: real, p: real, m: real)
    requires Margin(u, p, m) && p >= 0.0
    ensures m <= p + u / 2.0
  {
    GapToZero(u, p, m);
    GapIsNonNegative(p, 1.0 + u);
    CompareSquares(m, p + u / 2.0, m * m, (p + u / 2.0) * (p + u / 2.0));
  }

  lemma MarginWithinOne(u: real, p: real, m: real)
    requires Margin(u, p, m) && p >= 0.0
    ensures m <= 1.0 - p + u / 2.0
  {
    var a := 1.0 - p + u / 2.0;
    GapToOne(u, p, m);
    GapIsNonNegative(1.0 - p, 1.0 + u);
    if p > 1.0 {
      RateNotFarAboveOne(u, p, m);
    }
    CompareSquares(m, a, m * m, a * a);
  }

  lemma MarginReachesRate(u: real, p: real, m: real)
    requires Margin(u, p, m) && p >= 0.0
    ensures -m <= u * (0.5 - p) <= m <==> p <= 1.0
  {
    var a, k, d := u * (0.5 - p), p * (1.0 - p), u + u * u;
    GapToRate(u, p, m);
    Scale(u, u);
    CompareSquares(a, m, a * a, m * m);
    if p <= 1.0 {
      NonNegativeProduct(p, 1.0 - p);
      NonNegativeProduct(d, k);
    } else {
      NegativeProduct(p, 1.0 - p);
      NegativeProduct(d, k);
    }
  }

  /** A rate above 1 that still has a real margin exceeds 1 by less than u / 4. */
  lemma RateNotFarAboveOne(u: real, p: real, m: real)
    requires Margin(u, p, m) && p > 1.0
    ensures 1.0 - p + u / 2.0 >= 0.0
  {
    NonNegativeProduct(m, m);
    var k := p * (1.0 - p) + u / 4.0;
    assert u * k >= 0.0 by {
      assert u * k == u * (p * (1.0 - p)) + u * u / 4.0;
    }
    if k < 0.0 {
      NegativeProduct(u, k);
    }
    NonNegativeProduct(p - 1.0, p - 1.0);
    assert p * (1.0 - p) == (1.0 - p) - (p - 1.0) * (p - 1.0);
  }

  lemma DivideBounds(x: real, d: real, y: real)
    requires d > 0.0
    ensures x / d <= y <==> x <= y * d
    ensures x / d >= y <==> x >= y * d
  {
    var q := x / d;
    assert q * d == x;
    if q < y {
      Scale(d, y - q);
    } else if q > y {
      Scale(d, q - y);
    }
  }

  lemma Scale(d: real, e: real)
    requires d > 0.0 && e > 0.0
    ensures d * e > 0.0
  {
  }

  /** For every number of conversions for which the interval is a number at all, both clamps are no-ops,
      and the interval contains the observed rate iff there are no more conversions than visitors. */
  lemma {:induction false} ClampsAreNoOps(conversions: nat, visitors: nat, root: real)
    requires visitors > 0 && IsRoot(root, Radicand(visitors as real, Rate(conversions, visitors)))
    ensures var i := Unclamped(visitors as real, Rate(conversions, visitors), root);
            && 0.0 <= i.lower <= i.upper <= 1.0
            && ConfidenceInterval(conversions, visitors, root) == i
            && (i.lower <= Rate(conversions, visitors) <= i.upper <==> conversions <= visitors)
  {
    var n, p := visitors as real, Rate(conversions, visitors);
    DivideBounds(conversions as real, n, 0.0);
    DivideBounds(conversions as real, n, 1.0);
    assert p >= 0.0 && (p <= 1.0 <==> conversions <= visitors);
    var u, m := Reduce(n, p, root);
    IntervalFacts(u, p, m);
  }

  lemma IntervalFacts(u: real, p: real, m: real)
    requires Margin(u, p, m) && p >= 0.0
    ensures var lower, upper := (p + u / 2.0 - m) / (1.0 + u), (p + u / 2.0 + m) / (1.0 + u);
            && 0.0 <= lower <= upper <= 1.0
            && (lower <= p <= upper <==> p <= 1.0)
  {
    MarginBounds(u, p, m);
    hide *;
    var lo, hi, d, x := p + u / 2.0 - m, p + u / 2.0 + m, 1.0 + u, p * (1.0 + u);
    assert x == p + u * p && u * (0.5 - p) == u / 2.0 - u * p;
    Divided(lo, hi, d, p, x);
  }

  lemma Divided(lo: real, hi: real, d: real, p: real, x: real)
    requires d > 0.0 && 0.0 <= lo <= hi <= d && x == p * d
    ensures 0.0 <= lo / d <= hi / d <= 1.0
    ensures lo / d <= p <= hi / d <==> lo <= x <= hi
  {
    DivideBounds(lo, d, 0.0);
    DivideBounds(hi, d, 1.0);
    DivideBounds(lo, d, p);
    DivideBounds(hi, d, p);
    var q := hi / d;
    assert q * d == hi;
    DivideBounds(lo, d, q);
  }

  /** With `n` visitors the rate `p` lies 1.96 standard errors away from `x`. */
  ghost predicate AtScore(n: real, p: real, x: real) {
    n * ((p - x) * (p - x)) == 3.8416 * (x * (1.0 - x))
  }

  /** The same, divided by n. */
  ghost predicate Reduced(u: real, p: real, x: real) {
    (p - x) * (p - x) == u * (x * (1.0 - x))
  }

  ghost predicate Times(x: real, d: real, y: real) {
    x * d == y
  }

  lemma ReducedExactly(u: real, p: real, m: real, x: real)
    requires Margin(u, p, m)
    ensures Reduced(u, p, x) <==> Times(x, 1.0 + u, p + u / 2.0 - m) || Times(x, 1.0 + u, p + u / 2.0 + m)
  {
    var d, c := 1.0 + u, p + u / 2.0;
    var y, gap := x * d - c, (p - x) * (p - x) - u * (x * (1.0 - x));
    GapToZero(u, p, m);
    assert gap == d * (x * x) - 2.0 * c * x + p * p;
    assert d * gap == (x * d) * (x * d) - 2.0 * c * (x * d) + (p * p) * d;
    assert y * y == (x * d) * (x * d) - 2.0 * c * (x * d) + c * c;
    assert d * gap == y * y - m * m;
    assert y * y - m * m == (y - m) * (y + m);
    ZeroProducts(d, gap, y - m, y + m);
  }

  lemma ZeroProducts(d: real, gap: real, a: real, b: real)
    requires d > 0.0 && d * gap == a * b
    ensures gap == 0.0 <==> a == 0.0 || b == 0.0
  {
    if gap > 0.0 {
      Scale(d, gap);
    } else if gap < 0.0 {
      NegativeProduct(d, gap);
    }
    if a != 0.0 && b != 0.0 {
      assert a * b != 0.0;
    }
  }

  lemma DivideEquals(x: real, d: real, y: real)
    requires d > 0.0
    ensures y == x / d <==> Times(y, d, x)
  {
    DivideBounds(x, d, y);
  }

  lemma SameEquation(n: real, u: real, a: real, b: real)
    requires n > 0.0 && n * u == 3.8416
    ensures a == u * b <==> n * a == 3.8416 * b
  {
    assert n * (a - u * b) == n * a - (n * u) * b;
    if a > u * b {
      Scale(n, a - u * b);
    } else if a < u * b {
      NegativeProduct(n, a - u * b);
    }
  }

  lemma AtScoreIsReduced(n: real, u: real, p: real, x: real)
    requires n > 0.0 && n * u == 3.8416
    ensures AtScore(n, p, x) <==> Reduced(u, p, x)
  {
    var a, b := (p - x) * (p - x), x * (1.0 - x);
    SameEquation(n, u, a, b);
  }

  /** The bounds are exactly the rates from which the observed rate lies 1.96 standard errors away; without
      visitors they are 0. */
  lemma BoundsSolveScoreEquation(conversions: nat, visitors: nat, root: real, x: real)
    requires visitors > 0 ==> IsRoot(root, Radicand(visitors as real, Rate(conversions, visitors)))
    ensures var i := ConfidenceInterval(conversions, visitors, root);
            if visitors == 0 then i == Interval(0.0, 0.0) && Rate(conversions, visitors) == 0.0
            else AtScore(visitors as real, conversions as real / visitors as real, x) <==> x == i.lower || x == i.upper
  {
    RateIs(conversions, visitors, root);
    if visitors > 0 {
      hide *;
      var n, p := visitors as real, Rate(conversions, visitors);
      ClampsAreNoOps(conversions, visitors, root);
      var u, m := Reduce(n, p, root);
      SolvesIff(n, u, p, m, x);
    }
  }

  lemma RateIs(conversions: nat, visitors: nat, root: real)
    requires visitors > 0 ==> IsRoot(root, Radicand(visitors as real, Rate(conversions, visitors)))
    ensures visitors > 0 ==> Rate(conversions, visitors) == conversions as real / visitors as real
    ensures visitors == 0 ==> ConfidenceInterval(conversions, visitors, root) == Interval(0.0, 0.0)
    ensures visitors == 0 ==> Rate(conversions, visitors) == 0.0
  {
    hide Unclamped, Radicand;
  }

  lemma SolvesIff(n: real, u: real, p: real, m: real, x: real)
    requires Margin(u, p, m) && n > 0.0 && n * u == 3.8416
    ensures AtScore(n, p, x) <==> x == (p + u / 2.0 - m) / (1.0 + u) || x == (p + u / 2.0 + m) / (1.0 + u)
  {
    assert u > 0.0;
    hide *;
    ReducedExactly(u, p, m, x);
    AtScoreIsReduced(n, u, p, x);
    DivideEquals(p + u / 2.0 - m, 1.0 + u, x);
    DivideEquals(p + u / 2.0 + m, 1.0 + u, x);
  }

  lemma ScaledVariance(n: real, p: real, c: real)
    requires n * p == c
    ensures n * n * (p * (1.0 - p)) == c * (n - c)
  {
    var q := 1.0 - p;
    assert n * q == n - c;
    assert n * n * (p * q) == (n * p) * (n * q);
  }

  lemma ScaledCorrection(n: real, z: real)
    requires n > 0.0
    ensures n * n * (z / (4.0 * n)) == z * n / 4.0
  {
    var q := z / (4.0 * n);
    assert q * (4.0 * n) == z;
    var r := n * q;
    assert 4.0 * r == z;
    assert n * n * q == n * r;
  }

  lemma ScaledSign(k: real, x: real)
    requires k > 0.0
    ensures k * x >= 0.0 <==> x >= 0.0
  {
    if x > 0.0 {
      Scale(k, x);
    } else if x < 0.0 {
      NegativeProduct(k, x);
    }
  }

  /** The interval is a number exactly when 4 c (c - v) <= 1.96^2 v, for c conversions of v visitors: in
      particular whenever there are no more conversions than visitors. */
  lemma RealIntervalExactly(conversions: nat, visitors: nat)
    requires visitors > 0
    ensures var c, n := conversions as real, visitors as real;
            Radicand(n, Rate(conversions, visitors)) >= 0.0 <==> 4.0 * (c * (c - n)) <= 3.8416 * n
    ensures conversions <= visitors ==> Radicand(visitors as real, Rate(conversions, visitors)) >= 0.0
  {
    var c, n := conversions as real, visitors as real;
    var p := Rate(conversions, visitors);
    RateTimesVisitors(conversions, visitors);
    RadicandSign(n, p);
    var v, w := p * (1.0 - p), 3.8416 / (4.0 * n);
    ScaledVariance(n, p, c);
    ScaledCorrection(n, 3.8416);
    Scale(n, n);
    hide *;
    ScaledSum(n * n, v, w, c * (n - c), 3.8416 * n);
    Opposites(c, n);
    if conversions <= visitors {
      NonNegativeProduct(c, n - c);
    }
  }

  lemma RateTimesVisitors(conversions: nat, visitors: nat)
    requires visitors > 0
    ensures visitors as real * Rate(conversions, visitors) == conversions as real
  {
  }

  lemma RadicandSign(n: real, p: real)
    requires n > 0.0
    ensures Radicand(n, p) >= 0.0 <==> p * (1.0 - p) + 3.8416 / (4.0 * n) >= 0.0
  {
    assert Z * Z == 3.8416;
    DivideBounds(p * (1.0 - p) + Z * Z / (4.0 * n), n, 0.0);
  }

  lemma ScaledSum(k: real, v: real, w: real, x: real, y: real)
    requires k > 0.0 && k * v == x && k * w == y / 4.0
    ensures v + w >= 0.0 <==> 4.0 * x + y >= 0.0
  {
    assert k * (v + w) == k * v + k * w;
    ScaledSign(k, v + w);
  }

  lemma Opposites(c: real, n: real)
    ensures c * (n - c) == -(c * (c - n))
  {
  }

  /** Conversions are events, visitors are assignments: nothing keeps the first below the second, and
      with two conversions of one visitor the interval has no real bounds. */
  lemma MoreConversionsThanVisitors()
    ensures Radicand(1.0, Rate(2, 1)) < 0.0
  {
  }
}
