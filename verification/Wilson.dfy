/** The Wilson score interval over exact reals (itest-harness/src/stats.rs). */
module Wilson {
  const Z_95: real := 1.959963984540054

  datatype Interval = Interval(lower: real, upper: real)

  function Clamp(x: real): (r: real) { if x < 0.0 then 0.0 else if x > 1.0 then 1.0 else x }

  function Rate(failures: nat, runs: nat): (p: real)
    requires runs > 0
  {
    failures as real / runs as real
  }

  /** What is under the square root. */
  function Radicand(failures: nat, runs: nat): (x: real)
    requires runs > 0
  {
    var n, p := runs as real, Rate(failures, runs);
    p * (1.0 - p) / n + Z_95 * Z_95 / (4.0 * n * n)
  }

  ghost predicate IsRoot(root: real, x: real) { root >= 0.0 && root * root == x }

  function Center(failures: nat, runs: nat): (x: real)
    requires runs > 0
  {
    var n, z2 := runs as real, Z_95 * Z_95;
    (Rate(failures, runs) + z2 / (2.0 * n)) / (1.0 + z2 / n)
  }

  function Margin(runs: nat, root: real): (x: real)
    requires runs > 0
  {
    Z_95 * root / (1.0 + Z_95 * Z_95 / runs as real)
  }

  /** The interval for some failures in some runs, given the root of its radicand. */
  function Score(failures: nat, runs: nat, root: real): (ci: Interval) {
    if runs == 0 then Interval(0.0, 1.0)
    else
      Interval(
        Clamp(Center(failures, runs) - Margin(runs, root)), Clamp(Center(failures, runs) + Margin(runs, root)))
  }

  // ---- The interval in terms of the rate, `a = z * z / n` and `q = z * root`

  ghost predicate Shape(p: real, a: real, q: real) {
    0.0 <= p <= 1.0 && a > 0.0 && q >= 0.0 && q * q == a * (p * (1.0 - p)) + a * a / 4.0
  }

  function Lower(p: real, a: real, q: real): (x: real)
    requires a > 0.0
  {
    (p + a / 2.0 - q) / (1.0 + a)
  }

  function Upper(p: real, a: real, q: real): (x: real)
    requires a > 0.0
  {
    (p + a / 2.0 + q) / (1.0 + a)
  }

  lemma Signs(x: real, y: real)
    requires x >= 0.0 && y >= 0.0
    ensures x * y >= 0.0 && (x > 0.0 && y > 0.0 ==> x * y > 0.0)
  {
  }

  lemma SignOf(x: real, y: real, w: real)
    requires x >= 0.0 && y >= 0.0 && w == x * y
    ensures w >= 0.0 && (x > 0.0 && y > 0.0 ==> w > 0.0)
  {
    Signs(x, y);
  }

  lemma Larger(x: real, y: real, d: real)
    requires d > 0.0 && x < y
    ensures x * d < y * d
  {
    Signs(y - x, d);
    assert (y - x) * d == y * d - x * d;
  }

  /** Squares of what is not negative keep order. */
  lemma Squares(x: real, y: real)
    requires 0.0 <= x < y
    ensures x * x < y * y
  {
    Signs(y - x, y + x);
    assert (y - x) * (y + x) == y * y - x * x;
  }

  lemma SquareBounds(x: real, q: real)
    requires q >= 0.0 && x >= 0.0
    ensures q * q <= x * x ==> q <= x
    ensures q * q < x * x ==> q < x
    ensures q * q == x * x ==> q == x
  {
    if q > x {
      Squares(x, q);
    } else if q < x {
      Squares(q, x);
    }
  }

  lemma Apart(x: real, q: real, e: real)
    requires q >= 0.0 && x >= 0.0 && x * x == q * q + e && e >= 0.0
    ensures q <= x && (e > 0.0 ==> q < x) && (e == 0.0 ==> q == x)
  {
    SquareBounds(x, q);
  }

  lemma Scales(x: real, a: real)
    requires a > 0.0 && x >= 0.0
    ensures x * (1.0 + a) >= 0.0 && (x > 0.0 ==> x * (1.0 + a) > 0.0)
  {
    Signs(x, 1.0 + a);
  }

  /** `q` against the rate from below: equal only at a rate of 0. */
  lemma RootBelow(p: real, a: real, q: real)
    requires Shape(p, a, q)
    ensures q <= p + a / 2.0
    ensures p > 0.0 ==> q < p + a / 2.0
    ensures p == 0.0 ==> q == a / 2.0
  {
    var x := p + a / 2.0;
    var s := p * p;
    SignOf(p, p, s);
    Scales(s, a);
    var e := s * (1.0 + a);
    assert x * x == q * q + e;
    Apart(x, q, e);
  }

  /** ... and from above, by turning the rate round. */
  lemma Turned(p: real, a: real, q: real)
    requires Shape(p, a, q)
    ensures Shape(1.0 - p, a, q)
    ensures Upper(p, a, q) == 1.0 - Lower(1.0 - p, a, q)
  {
    var d := 1.0 + a;
    assert d / d == 1.0;
    assert (p + a / 2.0 + q) / d == (d - (1.0 - p + a / 2.0 - q)) / d;
    assert (d - (1.0 - p + a / 2.0 - q)) / d == d / d - (1.0 - p + a / 2.0 - q) / d;
  }

  lemma RootAround(p: real, a: real, q: real)
    requires Shape(p, a, q)
    ensures a / 2.0 - a * p <= q
  {
    var x := a / 2.0 - a * p;
    if x > 0.0 {
      Signs(p, 1.0 - p);
      Signs(a, p * (1.0 - p));
      var y := a * (p * (1.0 - p));
      Scales(y, a);
      assert q * q == x * x + y * (1.0 + a);
      SquareBounds(q, x);
    }
  }

  lemma Quotients(x: real, y: real, d: real)
    requires d > 0.0
    ensures x <= y * d ==> x / d <= y
    ensures x >= y * d ==> x / d >= y
    ensures x < y * d ==> x / d < y
    ensures x > y * d ==> x / d > y
  {
    var r := x / d;
    assert r * d == x;
    if r > y {
      Larger(y, r, d);
    } else if r < y {
      Larger(r, y, d);
    }
  }

  /** The lower bound lies between 0 and the rate, and is 0 only at a rate of 0. */
  lemma LowerBounds(p: real, a: real, q: real)
    requires Shape(p, a, q)
    ensures 0.0 <= Lower(p, a, q) <= p
    ensures Lower(p, a, q) == 0.0 <==> p == 0.0
  {
    RootBelow(p, a, q);
    RootAround(p, a, q);
    Quotients(p + a / 2.0 - q, p, 1.0 + a);
    Quotients(p + a / 2.0 - q, 0.0, 1.0 + a);
    assert p * (1.0 + a) == p + a * p;
  }

  lemma UpperBounds(p: real, a: real, q: real)
    requires Shape(p, a, q)
    ensures p <= Upper(p, a, q) <= 1.0
    ensures Upper(p, a, q) == 1.0 <==> p == 1.0
  {
    Turned(p, a, q);
    LowerBounds(1.0 - p, a, q);
  }

  // ---- More runs at the same rate

  /** The lower bound is where the rate is `z` standard errors away. */
  lemma LowerSolves(p: real, a: real, q: real, x: real)
    requires Shape(p, a, q) && x == Lower(p, a, q)
    ensures (p - x) * (p - x) == a * (x * (1.0 - x))
  {
    var d := 1.0 + a;
    var y := x * d;
    assert y == p + a / 2.0 - q;
    Squared(p, a, q, y);
    // the quadratic, multiplied through by `d`
    assert d * (d * (x * x)) == y * y;
    assert d * (d * (x * x) - (2.0 * p + a) * x + p * p) == y * y - (2.0 * p + a) * y + d * (p * p);
    NoFactor(d, d * (x * x) - (2.0 * p + a) * x + p * p);
    Expand(p, a, x);
  }

  lemma Squared(p: real, a: real, q: real, y: real)
    requires Shape(p, a, q) && y == p + a / 2.0 - q
    ensures y * y - (2.0 * p + a) * y + (1.0 + a) * (p * p) == 0.0
  {
    var h := p + a / 2.0;
    assert y * y - (2.0 * h) * y == q * q - h * h;
    assert h * h == p * p + a * p + a * a / 4.0;
    assert a * (p * (1.0 - p)) == a * p - a * (p * p);
  }

  lemma NoFactor(d: real, x: real)
    requires d > 0.0 && d * x == 0.0
    ensures x == 0.0
  {
  }

  lemma Expand(p: real, a: real, x: real)
    ensures (p - x) * (p - x) - a * (x * (1.0 - x)) == (1.0 + a) * (x * x) - (2.0 * p + a) * x + p * p
  {
  }

  lemma LowerBelowOne(p: real, a: real, q: real)
    requires Shape(p, a, q)
    ensures Lower(p, a, q) < 1.0
  {
    LowerBounds(p, a, q);
    if p == 1.0 {
      Quotients(1.0 + a / 2.0 - q, 1.0, 1.0 + a);
    }
  }

  lemma MulOrder(a: real, b: real, c: real, d: real)
    requires a >= b >= 0.0 && c >= d >= 0.0
    ensures a * c >= b * d
  {
    Signs(a - b, c);
    Signs(b, c - d);
    assert (a - b) * c == a * c - b * c && b * (c - d) == b * c - b * d;
  }

  lemma CrossOrder(p: real, x: real, y: real, a: real, b: real)
    requires 0.0 < x <= y <= p && a == (p - x) * y && b == (p - y) * x
    ensures a >= b >= 0.0
  {
    Signs(p, y - x);
    Signs(p - y, x);
    assert a - b == p * (y - x);
  }

  lemma CrossOrderTurned(p: real, x: real, y: real, c: real, d: real)
    requires x <= y <= p <= 1.0 && c == (p - x) * (1.0 - y) && d == (p - y) * (1.0 - x)
    ensures c >= d >= 0.0
  {
    Signs(1.0 - p, y - x);
    Signs(p - y, 1.0 - x);
    assert c - d == (1.0 - p) * (y - x);
  }

  /** Nearer the rate, a bound is fewer standard errors away. */
  lemma Nearer(p: real, x: real, y: real)
    requires 0.0 < x <= y <= p <= 1.0
    ensures ((p - x) * (p - x)) * (y * (1.0 - y)) >= ((p - y) * (p - y)) * (x * (1.0 - x))
  {
    var a, b := (p - x) * y, (p - y) * x;
    var c, d := (p - x) * (1.0 - y), (p - y) * (1.0 - x);
    CrossOrder(p, x, y, a, b);
    CrossOrderTurned(p, x, y, c, d);
    MulOrder(a, b, c, d);
    Regroup(p - x, y, 1.0 - y);
    Regroup(p - y, x, 1.0 - x);
  }

  lemma Regroup(e: real, x: real, y: real)
    ensures (e * x) * (e * y) == (e * e) * (x * y)
  {
  }

  lemma Cancel(a: real, b: real, x: real, y: real)
    requires x > 0.0 && y > 0.0 && (b * x) * y >= (a * y) * x
    ensures b >= a
  {
    var w := x * y;
    Signs(x, y);
    assert (b * x) * y == b * w && (a * y) * x == a * w;
    if b < a {
      Larger(b, a, w);
    }
  }

  lemma SpreadPositive(x: real, u: real)
    requires 0.0 < x < 1.0 && u == x * (1.0 - x)
    ensures u > 0.0
  {
    Signs(x, 1.0 - x);
  }

  lemma SameProduct(e: real, f: real, v: real)
    requires e == f
    ensures e * v == f * v
  {
  }

  /** Two solutions at one rate: the one further from it is the one of the larger `a`. */
  lemma FurtherIsLarger(p: real, a: real, y: real, a': real, x: real)
    requires 0.0 < x <= y <= p <= 1.0 && y < 1.0
    requires (p - y) * (p - y) == a * (y * (1.0 - y)) && (p - x) * (p - x) == a' * (x * (1.0 - x))
    ensures a' >= a
  {
    var v, u := y * (1.0 - y), x * (1.0 - x);
    SpreadPositive(x, u);
    SpreadPositive(y, v);
    Nearer(p, x, y);
    SameProduct((p - x) * (p - x), a' * u, v);
    SameProduct((p - y) * (p - y), a * v, u);
    Cancel(a, a', u, v);
  }

  /** At a fixed positive rate the lower bound rises as `a` falls, that is as runs are added. */
  lemma LowerRises(p: real, a: real, q: real, a': real, q': real)
    requires Shape(p, a, q) && Shape(p, a', q') && p > 0.0 && a' < a
    ensures Lower(p, a, q) < Lower(p, a', q')
  {
    var y, x := Lower(p, a, q), Lower(p, a', q');
    LowerBounds(p, a, q);
    LowerBounds(p, a', q');
    LowerBelowOne(p, a, q);
    LowerSolves(p, a, q, y);
    LowerSolves(p, a', q', x);
    if x <= y {
      FurtherIsLarger(p, a, y, a', x);
    }
  }

  // ---- The code's own terms

  /** `z * z / n`. */
  function Weight(runs: nat): (a: real)
    requires runs > 0
    ensures a > 0.0
  {
    Z_95 * Z_95 / runs as real
  }

  lemma RateWithin(failures: nat, runs: nat)
    requires failures <= runs && runs > 0
    ensures 0.0 <= Rate(failures, runs) <= 1.0
    ensures Rate(failures, runs) == 0.0 <==> failures == 0
    ensures Rate(failures, runs) == 1.0 <==> failures == runs
  {
    Quotients(failures as real, 1.0, runs as real);
    Quotients(failures as real, 0.0, runs as real);
  }

  /** There is always a root to take. */
  lemma RadicandPositive(failures: nat, runs: nat)
    requires failures <= runs && runs > 0
    ensures Radicand(failures, runs) > 0.0
  {
    var p, n := Rate(failures, runs), runs as real;
    RateWithin(failures, runs);
    Signs(p, 1.0 - p);
    Quotients(p * (1.0 - p), 0.0, n);
    Signs(n, n);
    assert 4.0 * n * n == 4.0 * (n * n);
    Quotients(Z_95 * Z_95, 0.0, 4.0 * n * n);
  }

  /** With `u` the reciprocal of the runs there is no division left. */
  lemma RootShape(z2: real, p: real, u: real, z: real, root: real, a: real)
    requires z2 == z * z && a == z2 * u && root * root == p * (1.0 - p) * u + z2 * u * u / 4.0
    ensures (z * root) * (z * root) == a * (p * (1.0 - p)) + a * a / 4.0
  {
    var w := p * (1.0 - p);
    assert (z * root) * (z * root) == z2 * (root * root);
    assert z2 * (w * u + z2 * u * u / 4.0) == (z2 * u) * w + (z2 * u) * (z2 * u) / 4.0;
  }

  lemma OneSquared(n: real, u: real, z2: real)
    requires n * u == 1.0
    ensures z2 * u * u / 4.0 * (4.0 * n * n) == z2 && z2 * u / 2.0 * (2.0 * n) == z2
  {
    var e := n * u;
    assert z2 * u * u / 4.0 * (4.0 * n * n) == z2 * (e * e);
    assert z2 * u / 2.0 * (2.0 * n) == z2 * e;
  }

  lemma IsQuotient(x: real, d: real, y: real)
    requires d > 0.0 && y * d == x
    ensures x / d == y
  {
    Quotients(x, y, d);
  }

  lemma Reciprocals(n: real, z2: real, w: real, u: real)
    requires n > 0.0 && u == 1.0 / n
    ensures z2 / n == z2 * u && w / n == w * u && z2 / (4.0 * n * n) == z2 * u * u / 4.0
    ensures z2 / (2.0 * n) == z2 * u / 2.0
  {
    assert n * u == 1.0;
    Signs(n, n);
    OneSquared(n, u, z2);
    Signs(4.0, n * n);
    assert 4.0 * n * n == 4.0 * (n * n);
    IsQuotient(z2, 4.0 * n * n, z2 * u * u / 4.0);
    IsQuotient(z2, 2.0 * n, z2 * u / 2.0);
  }

  lemma ScoreShape(failures: nat, runs: nat, root: real)
    requires failures <= runs && runs > 0 && IsRoot(root, Radicand(failures, runs))
    ensures Shape(Rate(failures, runs), Weight(runs), Z_95 * root)
  {
    var p, n, z2 := Rate(failures, runs), runs as real, Z_95 * Z_95;
    RateWithin(failures, runs);
    Reciprocals(n, z2, p * (1.0 - p), 1.0 / n);
    RootShape(z2, p, 1.0 / n, Z_95, root, Weight(runs));
  }

  lemma SameBounds(failures: nat, runs: nat, root: real)
    requires runs > 0
    ensures Center(failures, runs) - Margin(runs, root) == Lower(Rate(failures, runs), Weight(runs), Z_95 * root)
    ensures Center(failures, runs) + Margin(runs, root) == Upper(Rate(failures, runs), Weight(runs), Z_95 * root)
  {
    var n, z2 := runs as real, Z_95 * Z_95;
    Reciprocals(n, z2, 0.0, 1.0 / n);
    Split(Rate(failures, runs) + z2 / (2.0 * n), Z_95 * root, 1.0 + Weight(runs));
  }

  lemma Split(x: real, y: real, d: real)
    requires d > 0.0
    ensures x / d - y / d == (x - y) / d && x / d + y / d == (x + y) / d
  {
  }

  // ---- What the interval promises

  /** The interval holds the rate within [0, 1] with neither clamp doing anything; it reaches 0
      only without a failure and 1 only without a success. */
  lemma ScoreHoldsRate(failures: nat, runs: nat, root: real)
    requires failures <= runs && runs > 0 && IsRoot(root, Radicand(failures, runs))
    ensures var ci := Score(failures, runs, root);
            && ci == Interval(Center(failures, runs) - Margin(runs, root), Center(failures, runs) + Margin(runs, root))
            && 0.0 <= ci.lower <= Rate(failures, runs) <= ci.upper <= 1.0
            && (ci.lower == 0.0 <==> failures == 0)
            && (ci.upper == 1.0 <==> failures == runs)
  {
    var p, a, q := Rate(failures, runs), Weight(runs), Z_95 * root;
    ScoreShape(failures, runs, root);
    SameBounds(failures, runs, root);
    LowerBounds(p, a, q);
    UpperBounds(p, a, q);
    RateWithin(failures, runs);
  }

  lemma UpperSolves(p: real, a: real, q: real, x: real)
    requires Shape(p, a, q) && x == Upper(p, a, q)
    ensures (p - x) * (p - x) == a * (x * (1.0 - x))
  {
    Turned(p, a, q);
    var p', x' := 1.0 - p, 1.0 - x;
    LowerSolves(p', a, q, x');
    assert (p - x) * (p - x) == (p' - x') * (p' - x');
    assert x' * (1.0 - x') == x * (1.0 - x);
  }

  /** A bound `x` where the failures are 1.96 standard errors from what the runs would bring. */
  ghost predicate Solves(failures: nat, runs: nat, x: real) {
    var k, n := failures as real, runs as real;
    (k - n * x) * (k - n * x) == 1.959963984540054 * 1.959963984540054 * (n * (x * (1.0 - x)))
  }

  lemma SolvesOf(failures: nat, runs: nat, x: real)
    requires runs > 0
    requires var p := Rate(failures, runs); (p - x) * (p - x) == Weight(runs) * (x * (1.0 - x))
    ensures Solves(failures, runs, x)
  {
    var k, n, p := failures as real, runs as real, Rate(failures, runs);
    assert k == n * p;
    Scaled(n, p, x, Z_95 * Z_95, Weight(runs), x * (1.0 - x));
  }

  lemma Scaled(n: real, p: real, x: real, z2: real, a: real, v: real)
    requires n * a == z2 && (p - x) * (p - x) == a * v
    ensures (n * p - n * x) * (n * p - n * x) == z2 * (n * v)
  {
    assert n * p - n * x == n * (p - x);
    Regroup(p - x, n, n);
    assert (n * (p - x)) * (n * (p - x)) == (n * n) * ((p - x) * (p - x));
    assert (n * n) * (a * v) == (n * a) * (n * v);
  }

  /** The failures are no fewer than `x` of the runs and no more than `y` of them. */
  ghost predicate Between(failures: nat, runs: nat, x: real, y: real) {
    runs as real * x <= failures as real <= runs as real * y
  }

  lemma RateBetween(failures: nat, runs: nat, x: real, y: real)
    requires runs > 0 && x <= Rate(failures, runs) <= y
    ensures Between(failures, runs, x, y)
  {
    var n, p := runs as real, Rate(failures, runs);
    assert failures as real == n * p;
    Signs(n, p - x);
    Signs(n, y - p);
  }

  lemma LowerEnd(failures: nat, runs: nat, root: real, x: real)
    requires failures <= runs && runs > 0 && IsRoot(root, Radicand(failures, runs))
    requires x == Lower(Rate(failures, runs), Weight(runs), Z_95 * root)
    ensures Solves(failures, runs, x)
  {
    ScoreShape(failures, runs, root);
    LowerSolves(Rate(failures, runs), Weight(runs), Z_95 * root, x);
    SolvesOf(failures, runs, x);
  }

  lemma UpperEnd(failures: nat, runs: nat, root: real, x: real)
    requires failures <= runs && runs > 0 && IsRoot(root, Radicand(failures, runs))
    requires x == Upper(Rate(failures, runs), Weight(runs), Z_95 * root)
    ensures Solves(failures, runs, x)
  {
    ScoreShape(failures, runs, root);
    UpperSolves(Rate(failures, runs), Weight(runs), Z_95 * root, x);
    SolvesOf(failures, runs, x);
  }

  lemma ScoreEnds(failures: nat, runs: nat, root: real, ci: Interval)
    requires failures <= runs && runs > 0 && IsRoot(root, Radicand(failures, runs)) && ci == Score(failures, runs, root)
    ensures ci.lower == Lower(Rate(failures, runs), Weight(runs), Z_95 * root)
    ensures ci.upper == Upper(Rate(failures, runs), Weight(runs), Z_95 * root)
    ensures ci.lower <= Rate(failures, runs) <= ci.upper
  {
    ScoreHoldsRate(failures, runs, root);
    SameBounds(failures, runs, root);
  }

  /** Both bounds in the failures and the runs themselves; and everything, for no runs at all. */
  lemma ScoreSolves(failures: nat, runs: nat, root: real, ci: Interval)
    requires failures <= runs && (runs > 0 ==> IsRoot(root, Radicand(failures, runs)))
    requires ci == Score(failures, runs, root)
    ensures runs == 0 ==> ci == Interval(0.0, 1.0)
    ensures runs > 0 ==>
              && Solves(failures, runs, ci.lower) && Solves(failures, runs, ci.upper)
              && Between(failures, runs, ci.lower, ci.upper)
  {
    if runs > 0 {
      ScoreEnds(failures, runs, root, ci);
      LowerEnd(failures, runs, root, ci.lower);
      UpperEnd(failures, runs, root, ci.upper);
      RateBetween(failures, runs, ci.lower, ci.upper);
    }
  }

  lemma SameRate(k: nat, n: nat, k': nat, n': nat)
    requires n > 0 && n' > 0 && k * n' == k' * n
    ensures Rate(k, n) == Rate(k', n')
  {
    var x, y := k as real / n as real, k' as real / n' as real;
    assert k as real * n' as real == k' as real * n as real by {
      assert (k * n') as real == k as real * n' as real && (k' * n) as real == k' as real * n as real;
    }
    assert x * (n as real * n' as real) == y * (n as real * n' as real);
  }

  lemma WeightFalls(n: nat, n': nat)
    requires 0 < n < n'
    ensures Weight(n') < Weight(n)
  {
    var z2, x := Z_95 * Z_95, Weight(n);
    Signs(x, (n' - n) as real);
    assert x * n as real == z2 && x * n' as real == x * n as real + x * (n' - n) as real;
    Quotients(z2, x, n' as real);
  }

  /** The flake listing puts the higher lower bound first: at equal rates, unless there was no
      failure at all, the scenario with more runs. */
  lemma MoreRunsRankHigher(k: nat, n: nat, k': nat, n': nat, root: real, root': real)
    requires 0 < k <= n < n' && k' <= n' && k * n' == k' * n
    requires IsRoot(root, Radicand(k, n)) && IsRoot(root', Radicand(k', n'))
    ensures Score(k, n, root).lower < Score(k', n', root').lower
  {
    ScoreHoldsRate(k, n, root);
    ScoreHoldsRate(k', n', root');
    SameBounds(k, n, root);
    SameBounds(k', n', root');
    ScoreShape(k, n, root);
    ScoreShape(k', n', root');
    SameRate(k, n, k', n');
    WeightFalls(n, n');
    RateWithin(k, n);
    LowerRises(Rate(k, n), Weight(n), Z_95 * root, Weight(n'), Z_95 * root');
  }

  /** Failures and successes trade places about one half. */
  lemma ScoreMirrors(failures: nat, runs: nat, root: real)
    requires failures <= runs && runs > 0 && IsRoot(root, Radicand(failures, runs))
    ensures IsRoot(root, Radicand(runs - failures, runs))
    ensures Score(failures, runs, root).upper == 1.0 - Score(runs - failures, runs, root).lower
  {
    MirrorRadicand(failures, runs);
    MirrorRate(failures, runs);
    ScoreHoldsRate(failures, runs, root);
    ScoreHoldsRate(runs - failures, runs, root);
    SameBounds(failures, runs, root);
    SameBounds(runs - failures, runs, root);
    ScoreShape(failures, runs, root);
    Turned(Rate(failures, runs), Weight(runs), Z_95 * root);
  }

  lemma MirrorRadicand(failures: nat, runs: nat)
    requires failures <= runs && runs > 0
    ensures Radicand(runs - failures, runs) == Radicand(failures, runs)
  {
    MirrorRate(failures, runs);
    var p, p' := Rate(failures, runs), Rate(runs - failures, runs);
    assert p * (1.0 - p) == p' * (1.0 - p');
  }

  lemma MirrorRate(failures: nat, runs: nat)
    requires failures <= runs && runs > 0
    ensures Rate(runs - failures, runs) == 1.0 - Rate(failures, runs)
  {
    var n := runs as real;
    assert (runs - failures) as real == n - failures as real;
    Split(n, failures as real, n);
    assert n / n == 1.0;
  }
}
