/** A credible interval for the share of passed checks. */
module WilsonInterval {
  import opened Arithmetic
  import opened Collections
  import opened RealVectors

  /** Passed and total verdicts over all results. */
  function CountVerdicts(results: seq<seq<bool>>): (counts: (nat, nat))
    ensures counts.0 <= counts.1
    ensures counts.1 == 0 <==> forall i :: 0 <= i < |results| ==> results[i] == []
  {
    if results == [] then (0, 0)
    else
      var n := |results| - 1;
      var before := CountVerdicts(results[..n]);
      assert forall i :: 0 <= i < n ==> results[..n][i] == results[i];
      (before.0 + Passed(results[n]), before.1 + |results[n]|)
  }

  function Passed(verdicts: seq<bool>): (n: nat)
    ensures n <= |verdicts|
  {
    if verdicts == [] then 0
    else Passed(verdicts[..|verdicts| - 1]) + if verdicts[|verdicts| - 1] then 1 else 0
  }

  lemma {:induction false} PassedIsCount(verdicts: seq<bool>)
    ensures Passed(verdicts) == multiset(verdicts)[true]
    decreases |verdicts|
  {
    if verdicts != [] {
      var n := |verdicts| - 1;
      PassedIsCount(verdicts[..n]);
      assert verdicts == verdicts[..n] + [verdicts[n]];
    }
  }

  /** The counts are those of the true verdicts, and of all verdicts, over all results. */
  lemma {:induction false} CountsAreVerdicts(results: seq<seq<bool>>)
    ensures CountVerdicts(results) == (multiset(Flatten(results))[true], |Flatten(results)|)
    decreases |results|
  {
    if results != [] {
      var n := |results| - 1;
      CountsAreVerdicts(results[..n]);
      PassedIsCount(results[n]);
      hide Passed, Flatten;
      FlattenExtends(results, n);
      assert results[..n + 1] == results;
    }
  }

  /** The 97.5th percentile of the standard normal distribution. */
  const Z := 1.959964

  function Max(a: real, b: real): real {
    if a > b then a else b
  }

  function Min(a: real, b: real): real {
    if a < b then a else b
  }

  /** What the square root is taken of. */
  function Radicand(p: real, n: real): real
    requires n > 0.0
  {
    ProductIsPositive(n, n);
    p * (1.0 - p) / n + Z * Z / (4.0 * (n * n))
  }

  function Center(p: real, n: real): real
    requires n > 0.0
  {
    (p + Z * Z / (2.0 * n)) / (1.0 + Z * Z / n)
  }

  function Half(n: real, root: real): real
    requires n > 0.0
  {
    Z / (1.0 + Z * Z / n) * root
  }

  /** The interval, given the square root the code computes. */
  function Interval(passed: nat, total: nat, root: real): (real, real) {
    if total == 0 then (0.0, 1.0)
    else
      var n := total as real;
      var p := passed as real / n;
      (Max(Center(p, n) - Half(n, root), 0.0), Min(Center(p, n) + Half(n, root), 1.0))
  }

  predicate IsRoot(passed: nat, total: nat, root: real)
    requires total > 0
  {
    root >= 0.0 && root * root == Radicand(passed as real / total as real, total as real)
  }

  /** The score equation of the Wilson interval. */
  predicate OnBoundary(p: real, n: real, theta: real) {
    n * ((p - theta) * (p - theta)) == Z * Z * (theta * (1.0 - theta))
  }

  // ---------------------------------------------------------------------------
  // Completing the square, with everything divided by n: d = z²/n
  // ---------------------------------------------------------------------------

  /** The score polynomial over n. */
  function Gap(p: real, d: real, theta: real): real {
    (p - theta) * (p - theta) - d * (theta * (1.0 - theta))
  }

  lemma Spread(x: real, y: real, n: real)
    ensures (x + y) * n == x * n + y * n && (x - y) * n == x * n - y * n
  {
  }

  lemma GapExpands(p: real, d: real, theta: real)
    ensures Gap(p, d, theta) == (1.0 + d) * (theta * theta) - (2.0 * p + d) * theta + p * p
  {
    var square := theta * theta;
    assert (p - theta) * (p - theta) == p * p - 2.0 * (p * theta) + square;
    assert theta * (1.0 - theta) == theta - square;
    assert d * (theta - square) == d * theta - d * square;
    Spread(1.0, d, square);
    Spread(2.0 * p, d, theta);
  }

  /** The polynomial, scaled, is a difference of squares around c = p + d/2. */
  lemma CompletedSquare(p: real, d: real, theta: real, c: real, v: real, u: real)
    requires c == p + d / 2.0 && v * v == d * (p * (1.0 - p)) + d * d / 4.0 && u == (1.0 + d) * theta - c
    ensures (1.0 + d) * Gap(p, d, theta) == u * u - v * v
  {
    var t, pp := (1.0 + d) * theta, p * p;
    GapExpands(p, d, theta);
    assert u * u == t * t - 2.0 * (c * t) + c * c;
    assert (1.0 + d) * ((1.0 + d) * (theta * theta)) == t * t;
    assert (1.0 + d) * ((2.0 * p + d) * theta) == 2.0 * (c * t);
    assert c * c == pp + d * p + d * d / 4.0;
    assert d * (p * (1.0 - p)) == d * p - d * pp;
    Spread(1.0, d, pp);
    ThreeTerms(1.0 + d, (1.0 + d) * (theta * theta), (2.0 * p + d) * theta, pp);
  }

  lemma ThreeTerms(a: real, x: real, y: real, z: real)
    ensures a * (x - y + z) == a * x - a * y + a * z
  {
  }

  lemma QuarterSquare(n: real, d: real, w: real, nn: real, rest: real)
    requires nn == n * n && nn > 0.0 && d * n == w && rest * (4.0 * nn) == w
    ensures w * rest == d * d / 4.0
  {
    Reassociate(w, rest, 4.0 * nn);
    assert w * w == (d * d) * nn by {
      SameFactor(d * n, w, w);
      Reassociate(d, n, w);
      SameFactor(w, d * n, n);
      Reassociate(d, n, n);
    }
    QuotientIff(w * w, 4.0 * nn, w * rest);
    QuotientIff((d * d) * nn, 4.0 * nn, d * d / 4.0);
  }

  /** z² times the radicand, in terms of d, for q = p(1 - p). */
  lemma RootInD(n: real, d: real, w: real, q: real, nn: real, share: real, rest: real)
    requires nn == n * n && nn > 0.0 && d * n == w && share * n == q && rest * (4.0 * nn) == w
    ensures w * (share + rest) == d * q + d * d / 4.0
  {
    SameFactor(d * n, w, share);
    Reassociate(d, n, share);
    QuarterSquare(n, d, w, nn, rest);
    Distribute(w, share, rest);
  }

  /** The center and the half-width, times 1 + d, are p + d/2 and v. */
  ghost predicate Completes(p: real, d: real, center: real, half: real, v: real) {
    && d > 0.0 && v >= 0.0
    && center * (1.0 + d) == p + d / 2.0 && half * (1.0 + d) == v
    && v * v == d * (p * (1.0 - p)) + d * d / 4.0
  }

  lemma CenterScales(p: real, n: real) returns (d: real)
    requires n > 0.0
    ensures d == Z * Z / n && d > 0.0 && d * n == Z * Z && Center(p, n) * (1.0 + d) == p + d / 2.0
  {
    d := Z * Z / n;
    QuotientTimes(Z * Z, n);
    QuotientIff(Z * Z, 2.0 * n, d / 2.0);
    assert d > 0.0;
    QuotientTimes(p + d / 2.0, 1.0 + d);
  }

  lemma HalfScales(n: real, root: real, d: real)
    requires n > 0.0 && d == Z * Z / n && d > 0.0
    ensures Half(n, root) * (1.0 + d) == Z * root
  {
    var ratio := Z / (1.0 + d);
    QuotientTimes(Z, 1.0 + d);
    assert (ratio * root) * (1.0 + d) == (ratio * (1.0 + d)) * root;
  }

  lemma RadicandScales(p: real, n: real, root: real, d: real)
    requires n > 0.0 && d * n == Z * Z && root * root == Radicand(p, n)
    ensures (Z * root) * (Z * root) == d * (p * (1.0 - p)) + d * d / 4.0
  {
    var w := Z * Z;
    ProductIsPositive(n, n);
    QuotientTimes(p * (1.0 - p), n);
    QuotientTimes(w, 4.0 * (n * n));
    RootInD(n, d, w, p * (1.0 - p), n * n, p * (1.0 - p) / n, w / (4.0 * (n * n)));
    assert (Z * root) * (Z * root) == w * (root * root);
  }

  lemma Scales(p: real, n: real, root: real) returns (d: real, v: real)
    requires n > 0.0 && root >= 0.0 && root * root == Radicand(p, n)
    ensures d * n == Z * Z && Completes(p, d, Center(p, n), Half(n, root), v)
  {
    hide Center, Half, Radicand;
    d := CenterScales(p, n);
    v := Z * root;
    HalfScales(n, root, d);
    RadicandScales(p, n, root, d);
    SignOfProduct(Z, root);
  }

  /** Where the polynomial is not positive is between the ends; it vanishes exactly at them. */
  lemma SignOfGap(p: real, d: real, center: real, half: real, v: real, theta: real)
    requires Completes(p, d, center, half, v)
    ensures half >= 0.0
    ensures Gap(p, d, theta) <= 0.0 <==> center - half <= theta <= center + half
    ensures Gap(p, d, theta) == 0.0 <==> theta == center - half || theta == center + half
  {
    hide Completes, Gap;
    var u := (1.0 + d) * theta - (p + d / 2.0);
    GapIsScaled(p, d, center, half, v, theta, u);
    ScaledSquares(1.0 + d, Gap(p, d, theta), theta - center, half, u, v);
    SquaresCompare(theta - center, half);
  }

  lemma GapIsScaled(p: real, d: real, center: real, half: real, v: real, theta: real, u: real)
    requires Completes(p, d, center, half, v) && u == (1.0 + d) * theta - (p + d / 2.0)
    ensures 1.0 + d > 0.0 && v >= 0.0 && u == (1.0 + d) * (theta - center) && v == (1.0 + d) * half
    ensures (1.0 + d) * Gap(p, d, theta) == u * u - v * v
  {
    CompletedSquare(p, d, theta, p + d / 2.0, v, u);
    hide Gap;
    Spread(theta, center, 1.0 + d);
  }

  lemma ScaledSquares(a: real, gap: real, x: real, y: real, u: real, v: real)
    requires a > 0.0 && u == a * x && v == a * y && v >= 0.0 && a * gap == u * u - v * v
    ensures y >= 0.0 && gap == a * (x * x - y * y)
    ensures gap <= 0.0 <==> x * x <= y * y
    ensures gap == 0.0 <==> x * x == y * y
  {
    assert u * u == a * (a * (x * x)) && v * v == a * (a * (y * y));
    ThreeTerms(a, a * (x * x), a * (y * y), 0.0);
    CancelFactor(a, gap, a * (x * x) - a * (y * y));
    var e := x * x - y * y;
    assert gap == a * e;
    if e > 0.0 {
      ProductIsPositive(a, e);
    } else if e < 0.0 {
      ProductIsPositive(a, -e);
    }
    if y < 0.0 {
      ProductIsPositive(a, -y);
    }
  }

  lemma SquaresCompare(x: real, y: real)
    requires y >= 0.0
    ensures x * x <= y * y <==> -y <= x <= y
    ensures x * x == y * y <==> x == y || x == -y
  {
    var m := Abs(x);
    assert m * m == x * x;
    if m < y {
      SquareGrows(m, y);
    } else if m > y {
      SquareGrows(y, m);
    }
  }

  lemma ShareIsProportion(k: real, n: real, p: real)
    requires n > 0.0 && 0.0 <= k <= n && p == k / n
    ensures 0.0 <= p <= 1.0
  {
    QuotientTimes(k, n);
    if p < 0.0 {
      ProductIsPositive(-p, n);
    }
    if p > 1.0 {
      ProductIsPositive(p - 1.0, n);
    }
  }

  /** n times the gap is the difference of the two sides of the score equation. */
  lemma BoundaryIsGap(p: real, n: real, d: real, theta: real)
    requires n > 0.0 && d * n == Z * Z
    ensures OnBoundary(p, n, theta) <==> Gap(p, d, theta) == 0.0
  {
    var square, product := (p - theta) * (p - theta), theta * (1.0 - theta);
    SameFactor(d * n, Z * Z, product);
    Reassociate(n, d, product);
    Spread(square, d * product, n);
    if n * Gap(p, d, theta) == 0.0 {
      ZeroFactor(n, Gap(p, d, theta));
    }
  }

  // ---------------------------------------------------------------------------
  // The interval
  // ---------------------------------------------------------------------------

  /** 0 <= center - half <= p <= center + half <= 1, by the sign of the gap at 0, p and 1. */
  lemma EndsSurround(p: real, d: real, center: real, half: real, v: real)
    requires 0.0 <= p <= 1.0 && Completes(p, d, center, half, v)
    ensures 0.0 <= center - half <= p <= center + half <= 1.0
  {
    CenterIsInside(p, d, center, half, v);
    GapAtEnds(p, d);
    hide Completes, Gap;
    SignOfGap(p, d, center, half, v, 0.0);
    SignOfGap(p, d, center, half, v, p);
    SignOfGap(p, d, center, half, v, 1.0);
  }

  lemma GapAtEnds(p: real, d: real)
    requires 0.0 <= p <= 1.0
    ensures Gap(p, d, 0.0) >= 0.0 && Gap(p, d, 1.0) >= 0.0
    ensures d > 0.0 ==> Gap(p, d, p) <= 0.0
  {
    var r := 1.0 - p;
    SignOfProduct(p, p);
    SignOfProduct(r, r);
    SignOfProduct(p, r);
    assert (p - 1.0) * (p - 1.0) == r * r;
    if d > 0.0 {
      SignOfProduct(d, p * r);
    }
  }

  lemma CenterIsInside(p: real, d: real, center: real, half: real, v: real)
    requires 0.0 <= p <= 1.0 && Completes(p, d, center, half, v)
    ensures d > 0.0 && 0.0 < center < 1.0
  {
    if center <= 0.0 {
      SignOfProduct(-center, 1.0 + d);
    }
    if center >= 1.0 {
      SignOfProduct(center - 1.0, 1.0 + d);
    }
  }

  /** Over the reals the clamps never act, and the interval is inside [0, 1] around the share. */
  lemma IntervalSurroundsShare(passed: nat, total: nat, root: real)
    requires 0 < total && passed <= total && IsRoot(passed, total, root)
    ensures var n, p, r := total as real, passed as real / total as real, Interval(passed, total, root);
      && r == (Center(p, n) - Half(n, root), Center(p, n) + Half(n, root))
      && 0.0 <= r.0 <= p <= r.1 <= 1.0
  {
    var n, p := total as real, passed as real / total as real;
    ShareIsProportion(passed as real, n, p);
    hide Center, Half, Radicand, Completes;
    var d, v := Scales(p, n, root);
    EndsSurround(p, d, Center(p, n), Half(n, root), v);
  }

  /** The endpoints are the solutions of n(p - θ)² = z²θ(1 - θ), and there are no others. */
  lemma EndpointsSolveScoreEquation(passed: nat, total: nat, root: real, theta: real)
    requires 0 < total && passed <= total && IsRoot(passed, total, root)
    ensures var n, p, r := total as real, passed as real / total as real, Interval(passed, total, root);
      OnBoundary(p, n, theta) <==> theta == r.0 || theta == r.1
  {
    var n, p := total as real, passed as real / total as real;
    IntervalSurroundsShare(passed, total, root);
    hide Center, Half, Radicand, Interval, OnBoundary, Gap, Completes;
    var d, v := Scales(p, n, root);
    SignOfGap(p, d, Center(p, n), Half(n, root), v, theta);
    BoundaryIsGap(p, n, d, theta);
  }

  lemma MirroredShare(k: real, n: real)
    requires n > 0.0
    ensures (n - k) / n == 1.0 - k / n
  {
    QuotientTimes(k, n);
    QuotientIff(n - k, n, 1.0 - k / n);
  }

  lemma MirroredCenter(p: real, n: real)
    requires n > 0.0
    ensures Center(1.0 - p, n) == 1.0 - Center(p, n)
  {
    var d := CenterScales(p, n);
    var other := CenterScales(1.0 - p, n);
    hide Center;
    Spread(1.0, Center(p, n), 1.0 + d);
    CancelFactor(1.0 + d, Center(1.0 - p, n), 1.0 - Center(p, n));
  }

  /** Swapping passed and failed checks reflects the interval about one half. */
  lemma SwappingVerdictsReflects(passed: nat, total: nat, root: real)
    requires 0 < total && passed <= total && IsRoot(passed, total, root)
    ensures var r := Interval(passed, total, root);
      IsRoot(total - passed, total, root) && Interval(total - passed, total, root) == (1.0 - r.1, 1.0 - r.0)
  {
    var n, k := total as real, passed as real;
    MirroredShare(k, n);
    assert (total - passed) as real == n - k;
    SameRadicand(k / n, n);
    hide Center, Half, Radicand;
    IntervalSurroundsShare(passed, total, root);
    IntervalSurroundsShare(total - passed, total, root);
    MirroredCenter(k / n, n);
  }

  lemma SameRadicand(p: real, n: real)
    requires n > 0.0
    ensures Radicand(p, n) == Radicand(1.0 - p, n)
  {
    assert p * (1.0 - p) == (1.0 - p) * (1.0 - (1.0 - p));
  }

  /** Counting verdicts feeds the interval: without verdicts nothing is known. */
  lemma CountsGiveAnInterval(results: seq<seq<bool>>, root: real)
    requires var counts := CountVerdicts(results); counts.1 > 0 ==> IsRoot(counts.0, counts.1, root)
    ensures var counts := CountVerdicts(results);
      var r := Interval(counts.0, counts.1, root);
      && 0.0 <= r.0 <= r.1 <= 1.0
      && ((forall i :: 0 <= i < |results| ==> results[i] == []) ==> r == (0.0, 1.0))
  {
    var counts := CountVerdicts(results);
    if counts.1 > 0 {
      IntervalSurroundsShare(counts.0, counts.1, root);
    }
  }
}
