/** Sliding-window drift detection against a reference fixed on the first full window. */
module Ddm {
  import opened Wrappers
  import opened Arithmetic
  import opened RealVectors

  /** What the detector needs of its arithmetic library. */
  type Sqrt = real -> real

  const MIN_STD := 0.01

  datatype Warning = Warning(recentMean: real, referenceMean: real, deviation: real)

  function Mean(v: Vector): real
    requires v != []
  {
    Mass(v) / |v| as real
  }

  function SquaredDeviations(v: Vector, mean: real): Vector {
    seq(|v|, i requires 0 <= i < |v| => (v[i] - mean) * (v[i] - mean))
  }

  /** The sample standard deviation, at least `MIN_STD`. */
  function Deviation(sqrt: Sqrt, v: Vector): (std: real)
    requires |v| >= 2
    ensures std >= MIN_STD
  {
    var std := sqrt(Mass(SquaredDeviations(v, Mean(v))) / (|v| - 1) as real);
    if std > MIN_STD then std else MIN_STD
  }

  /** The last n observations, or all of them. */
  function Last(history: Vector, n: nat): Vector {
    if |history| <= n then history else history[|history| - n..]
  }

  /** How far the mean of the last window is from that of the first, in first-window deviations. */
  function Drift(sqrt: Sqrt, history: Vector, n: nat): real
    requires n >= 2 && |history| >= n
  {
    Abs(Mean(Last(history, n)) - Mean(history[..n])) / Deviation(sqrt, history[..n])
  }

  class DdmDetector {
    const windowSize: nat
    const threshold: real
    const sqrt: Sqrt
    var window: Vector
    var referenceMean: real
    var referenceStd: real
    var initialized: bool
    /** Every observation since the detector was made or reset. */
    ghost var history: Vector

    ghost predicate Valid()
      reads this
    {
      && windowSize >= 2
      && window == Last(history, windowSize)
      && (initialized <==> |history| >= windowSize)
      && (initialized ==>
        && referenceMean == Mean(history[..windowSize])
        && referenceStd == Deviation(sqrt, history[..windowSize]))
    }

    constructor (windowSize: nat, threshold: real, sqrt: Sqrt)
      ensures Valid() && history == []
      ensures this.windowSize == (if windowSize < 2 then 2 else windowSize)
      ensures this.threshold == threshold && this.sqrt == sqrt
    {
      this.windowSize := if windowSize < 2 then 2 else windowSize;
      this.threshold := threshold;
      this.sqrt := sqrt;
      window, referenceMean, referenceStd, initialized := [], 0.0, 0.0, false;
      history := [];
    }

    /** Warns exactly when, past the first window, the last window has drifted by more than the threshold. */
    method Observe(x: real) returns (warning: Option<Warning>)
      requires Valid()
      modifies this
      ensures Valid() && history == old(history) + [x]
      ensures warning.Some? <==> |history| > windowSize && Drift(sqrt, history, windowSize) > threshold
      ensures warning.Some? ==>
        warning.value ==
          Warning(Mean(Last(history, windowSize)), Mean(history[..windowSize]), Drift(sqrt, history, windowSize))
    {
      hide Mean, Deviation;
      history := history + [x];
      window := window + [x];
      if |window| > windowSize {
        window := window[1..];
      }
      if initialized {
        assert history[..windowSize] == old(history)[..windowSize];
      }
      if !initialized && |window| == windowSize {
        assert history[..windowSize] == window;
        var mean := Mean(window);
        referenceMean := mean;
        referenceStd := Deviation(sqrt, window);
        initialized := true;
        return None;
      }
      if !initialized || |window| < windowSize {
        return None;
      }
      var recentMean := Mean(window);
      var deviation := Abs(recentMean - referenceMean) / referenceStd;
      if deviation > threshold {
        return Some(Warning(recentMean, referenceMean, deviation));
      }
      return None;
    }

    method Reset()
      requires windowSize >= 2
      modifies this
      ensures Valid() && history == []
    {
      window := [];
      initialized := false;
      history := [];
    }
  }

  lemma {:induction false} ShiftedSum(u: Vector, v: Vector, d: real, m: nat)
    requires |u| == |v| && m <= |u| && forall i :: 0 <= i < |u| ==> v[i] == u[i] + d
    ensures SumTo(v, m) == SumTo(u, m) + m as real * d
  {
    if m > 0 {
      ShiftedSum(u, v, d, m - 1);
      Distribute(d, (m - 1) as real, 1.0);
    }
  }

  lemma ShiftedMean(u: Vector, v: Vector, d: real)
    requires |u| == |v| > 0 && forall i :: 0 <= i < |u| ==> v[i] == u[i] + d
    ensures Mean(v) == Mean(u) + d
  {
    ShiftedSum(u, v, d, |u|);
    var n := |u| as real;
    QuotientTimes(Mass(u), n);
    QuotientIff(Mass(v), n, Mean(u) + d);
    Distribute(n, Mean(u), d);
  }

  lemma ShiftedDeviation(sqrt: Sqrt, u: Vector, v: Vector, d: real)
    requires |u| == |v| >= 2 && forall i :: 0 <= i < |u| ==> v[i] == u[i] + d
    ensures Deviation(sqrt, v) == Deviation(sqrt, u)
  {
    ShiftedMean(u, v, d);
    hide Mean, Mass;
    var x, y := SquaredDeviations(u, Mean(u)), SquaredDeviations(v, Mean(v));
    forall i | 0 <= i < |u|
      ensures x[i] == y[i]
    {
      assert v[i] - Mean(v) == u[i] - Mean(u);
    }
    assert x == y;
  }

  /** Drift does not depend on the origin of the metric: adding a constant changes nothing. */
  lemma DriftIsShiftInvariant(sqrt: Sqrt, history: Vector, shifted: Vector, n: nat, d: real)
    requires n >= 2 && |history| == |shifted| >= n
    requires forall i :: 0 <= i < |history| ==> shifted[i] == history[i] + d
    ensures Drift(sqrt, shifted, n) == Drift(sqrt, history, n)
  {
    hide Mean, Deviation;
    ShiftedMean(history[..n], shifted[..n], d);
    ShiftedMean(Last(history, n), Last(shifted, n), d);
    ShiftedDeviation(sqrt, history[..n], shifted[..n], d);
    hide Last;
  }

  // ---------------------------------------------------------------------------
  // What deviation and drift are, in sums of the observations
  // ---------------------------------------------------------------------------

  ghost predicate IsRoot(sqrt: Sqrt) {
    forall x: real :: x >= 0.0 ==> sqrt(x) >= 0.0 && sqrt(x) * sqrt(x) == x
  }

  /** The sum of (v[i] - c)² over i < k. */
  ghost function SpreadAround(v: Vector, c: real, k: nat): real
    requires k <= |v|
  {
    if k == 0 then 0.0 else SpreadAround(v, c, k - 1) + (v[k - 1] - c) * (v[k - 1] - c)
  }

  /** The sum of (v[i] - v[j])² over all i and over j < k. */
  ghost function PairSpread(v: Vector, k: nat): real
    requires k <= |v|
  {
    if k == 0 then 0.0 else PairSpread(v, k - 1) + SpreadAround(v, v[k - 1], |v|)
  }

  ghost function Squares(v: Vector, k: nat): real
    requires k <= |v|
  {
    SpreadAround(v, 0.0, k)
  }

  lemma {:induction false} DeviationsAreSpread(v: Vector, c: real, k: nat)
    requires k <= |v|
    ensures SumTo(SquaredDeviations(v, c), k) == SpreadAround(v, c, k)
  {
    if k > 0 {
      DeviationsAreSpread(v, c, k - 1);
    }
  }

  lemma {:induction false} SpreadExpands(v: Vector, c: real, k: nat)
    requires k <= |v|
    ensures SpreadAround(v, c, k) == Squares(v, k) - 2.0 * (c * SumTo(v, k)) + k as real * (c * c)
  {
    if k > 0 {
      SpreadExpands(v, c, k - 1);
      ExpandTerm(v[k - 1], c, SumTo(v, k - 1), k);
    }
  }

  lemma ExpandTerm(x: real, c: real, sum: real, k: nat)
    requires k > 0
    ensures (x - c) * (x - c) == x * x - 2.0 * (c * x) + c * c
    ensures c * (sum + x) == c * sum + c * x
    ensures k as real * (c * c) == (k - 1) as real * (c * c) + c * c
  {
  }

  lemma {:induction false} PairSpreadExpands(v: Vector, k: nat)
    requires k <= |v|
    ensures PairSpread(v, k)
         == k as real * Squares(v, |v|) - 2.0 * (SumTo(v, k) * Mass(v)) + |v| as real * Squares(v, k)
  {
    hide SpreadAround;
    NoSquares(v);
    if k > 0 {
      PairSpreadExpands(v, k - 1);
      SpreadExpands(v, v[k - 1], |v|);
      NextSquare(v, k - 1);
      hide Squares;
      AddPairTerm(k, |v| as real, Squares(v, |v|), SumTo(v, k - 1), Mass(v), v[k - 1], Squares(v, k - 1));
    }
  }

  lemma NoSquares(v: Vector)
    ensures Squares(v, 0) == 0.0
  {
  }

  lemma NextSquare(v: Vector, k: nat)
    requires k < |v|
    ensures Squares(v, k + 1) == Squares(v, k) + v[k] * v[k]
  {
  }

  lemma AddPairTerm(k: nat, n: real, all: real, sum: real, total: real, x: real, squares: real)
    requires k > 0
    ensures k as real * all == (k - 1) as real * all + all
    ensures (sum + x) * total == sum * total + x * total
    ensures n * (squares + x * x) == n * squares + n * (x * x)
  {
  }

  /** n times the squared deviations from the mean are half the squared differences of all pairs. */
  lemma PairsMeasureSpread(v: Vector)
    requires v != []
    ensures 2.0 * (|v| as real * Mass(SquaredDeviations(v, Mean(v)))) == PairSpread(v, |v|)
  {
    hide *;
    var n, m := |v| as real, Mean(v);
    MeanTimes(v);
    MassIsSum(v);
    MassOfDeviations(v, m);
    SpreadExpands(v, m, |v|);
    PairSpreadExpands(v, |v|);
    CompleteSpread(n, m, Mass(v), Squares(v, |v|), SpreadAround(v, m, |v|), PairSpread(v, |v|));
  }

  lemma MassIsSum(v: Vector)
    ensures Mass(v) == SumTo(v, |v|)
  {
  }

  lemma MassOfDeviations(v: Vector, c: real)
    ensures Mass(SquaredDeviations(v, c)) == SpreadAround(v, c, |v|) >= 0.0
  {
    DeviationsAreSpread(v, c, |v|);
    SpreadIsNonNegative(v, c, |v|);
  }

  lemma MeanTimes(v: Vector)
    requires v != []
    ensures Mean(v) * |v| as real == Mass(v)
  {
    hide SumTo;
    QuotientTimes(Mass(v), |v| as real);
  }

  lemma CompleteSpread(n: real, m: real, total: real, squares: real, spread: real, pairs: real)
    requires m * n == total && spread == squares - 2.0 * (m * total) + n * (m * m)
    requires pairs == n * squares - 2.0 * (total * total) + n * squares
    ensures 2.0 * (n * spread) == pairs
  {
    assert n * (m * total) == total * total;
    assert n * (n * (m * m)) == total * total;
    assert n * spread == n * squares - 2.0 * (n * (m * total)) + n * (n * (m * m));
  }

  /** 2n(n - 1)d² is the sum over the pairs, or d is the floor and that is no less. */
  predicate MeasuresPairs(d: real, n: real, pairs: real) {
    var weight := 2.0 * n * (n - 1.0);
    && d >= 0.01
    && (d > 0.01 ==> weight * (d * d) == pairs)
    && (d == 0.01 ==> weight * 0.0001 >= pairs)
  }

  /**
   With an honest root the deviation is the sample standard deviation, with its floor: squared and
   times 2n(n - 1) it is the sum of the squared differences of all pairs, or 0.01² if that is more.
   */
  lemma DeviationMeasuresPairs(sqrt: Sqrt, v: Vector)
    requires |v| >= 2 && IsRoot(sqrt)
    ensures MeasuresPairs(Deviation(sqrt, v), |v| as real, PairSpread(v, |v|))
  {
    hide *;
    var n, total := |v| as real, Mass(SquaredDeviations(v, Mean(v)));
    PairsMeasureSpread(v);
    MassOfDeviations(v, Mean(v));
    RootOfVariance(sqrt, total, n - 1.0);
    DeviationIsFloored(sqrt, v);
    var pairs := PairSpread(v, |v|);
    assert pairs == 2.0 * (n * total);
    ScaledVariance(n, total, sqrt(total / (n - 1.0)), Deviation(sqrt, v), pairs);
  }

  lemma DeviationIsFloored(sqrt: Sqrt, v: Vector)
    requires |v| >= 2
    ensures var root := sqrt(Mass(SquaredDeviations(v, Mean(v))) / (|v| as real - 1.0));
      Deviation(sqrt, v) == if root > 0.01 then root else 0.01
  {
    hide Mass, Mean, SquaredDeviations;
    assert (|v| - 1) as real == |v| as real - 1.0;
  }

  lemma RootOfVariance(sqrt: Sqrt, total: real, n: real)
    requires IsRoot(sqrt) && total >= 0.0 && n > 0.0
    ensures var root := sqrt(total / n); root >= 0.0 && (root * root) * n == total
  {
    QuotientTimes(total, n);
    assert total / n >= 0.0;
  }

  lemma ScaledVariance(n: real, total: real, root: real, d: real, pairs: real)
    requires n > 1.0 && root >= 0.0 && (root * root) * (n - 1.0) == total
    requires d == if root > 0.01 then root else 0.01
    requires pairs == 2.0 * (n * total)
    ensures MeasuresPairs(d, n, pairs)
  {
    var square, weight := root * root, 2.0 * n * (n - 1.0);
    assert weight * square == 2.0 * (n * total);
    if root <= 0.01 {
      SquareBound(root);
      ProductIsPositive(n, n - 1.0);
      MulMonotone(weight, square, 0.0001);
    }
  }

  lemma SquareBound(root: real)
    requires 0.0 <= root <= 0.01
    ensures root * root <= 0.0001
  {
    MulMonotone(root, root, 0.01);
    MulMonotone(0.01, root, 0.01);
  }

  lemma {:induction false} SpreadIsNonNegative(v: Vector, c: real, k: nat)
    requires k <= |v|
    ensures SpreadAround(v, c, k) >= 0.0
  {
    if k > 0 {
      SpreadIsNonNegative(v, c, k - 1);
      SquareIsNonNegative(v[k - 1] - c);
    }
  }

  lemma SquareIsNonNegative(x: real)
    ensures x * x >= 0.0
  {
  }

  /** n times the drift, in deviations, is how far the last n observations sum from the first n. */
  lemma DriftMeasuresShift(sqrt: Sqrt, history: Vector, n: nat)
    requires n >= 2 && |history| >= n
    ensures var recent, first := SumTo(history, |history|) - SumTo(history, |history| - n), SumTo(history, n);
      && Mean(Last(history, n)) * n as real == recent
      && Mean(history[..n]) * n as real == first
      && Drift(sqrt, history, n) * (Deviation(sqrt, history[..n]) * n as real) == Abs(recent - first)
  {
    hide Deviation, Mean, SumTo;
    var last := Last(history, n);
    MeanTimes(last);
    MeanTimes(history[..n]);
    SumsAgree(history, history[..n], n);
    SumOfSuffix(history, n);
    var recent, first, d := Mean(last), Mean(history[..n]), Deviation(sqrt, history[..n]);
    QuotientTimes(Abs(recent - first), d);
    ScaledDistance(recent, first, n as real);
    Reassociate(Drift(sqrt, history, n), d, n as real);
  }

  lemma SumOfSuffix(history: Vector, n: nat)
    requires n <= |history|
    ensures Mass(Last(history, n)) == SumTo(history, |history|) - SumTo(history, |history| - n)
  {
    hide SumTo;
    var k := |history| - n;
    assert history == history[..k] + Last(history, n);
    SumOfConcat(history[..k], Last(history, n), n);
    SumsAgree(history, history[..k], k);
  }

  lemma ScaledDistance(a: real, b: real, n: real)
    requires n > 0.0
    ensures Abs(a - b) * n == Abs(a * n - b * n)
  {
    assert a * n - b * n == (a - b) * n;
    SignTimesPositive(a - b, n);
    SignTimesPositive(b - a, n);
  }
}
