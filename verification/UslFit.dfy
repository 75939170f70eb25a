/** Fitting and inverting the Universal Scalability Law. */
module UslFit {
  import opened Arithmetic
  import opened RealVectors

  /** 1 + α(N - 1) + βN(N - 1), the law's denominator. */
  function Load(n: real, alpha: real, beta: real): real {
    1.0 + alpha * (n - 1.0) + beta * (n * (n - 1.0))
  }

  /** X(N), the throughput of N agents relative to one. */
  function Throughput(n: real, alpha: real, beta: real): real
    requires Load(n, alpha, beta) != 0.0
  {
    n / Load(n, alpha, beta)
  }

  /** The parallel time of N agents under the law, T₁ / X(N). */
  function ParallelTime(t1: real, n: real, alpha: real, beta: real): real
    requires n > 0.0
  {
    t1 * Load(n, alpha, beta) / n
  }

  const DEGENERATE := 0.000000001
  const ALPHA_MIN := 0.05
  const ALPHA_MAX := 0.5
  const BETA_MIN := 0.000001
  const BETA_MAX := 0.1

  function Excess(t1: real, n: real, t: real): real
    requires t1 != 0.0
  {
    n * t / t1 - 1.0
  }

  predicate IsMeasurable(t1: real, t2: real, m: nat, tm: real) {
    m >= 3 && t1 >= DEGENERATE && t2 >= DEGENERATE && tm >= DEGENERATE
  }

  /** The β of the law with the two excesses, for a = M - 1 and b = M - 2. */
  function SolvedBeta(z2: real, zm: real, a: real, b: real): real
    requires a > 0.0 && b > 0.0
  {
    ProductIsPositive(a, b);
    (zm - z2 * a) / (a * b)
  }

  function RawBeta(t1: real, t2: real, m: nat, tm: real): real
    requires IsMeasurable(t1, t2, m, tm)
  {
    SolvedBeta(Excess(t1, 2.0, t2), Excess(t1, m as real, tm), m as real - 1.0, m as real - 2.0)
  }

  function RawAlpha(t1: real, t2: real, m: nat, tm: real): real
    requires IsMeasurable(t1, t2, m, tm)
  {
    -2.0 * RawBeta(t1, t2, m, tm) + Excess(t1, 2.0, t2)
  }

  function Fit(t1: real, t2: real, m: nat, tm: real, alphaFallback: real, betaFallback: real): (real, real) {
    if !IsMeasurable(t1, t2, m, tm) then (alphaFallback, betaFallback)
    else
      var beta, alpha := RawBeta(t1, t2, m, tm), RawAlpha(t1, t2, m, tm);
      if beta < 0.0 || alpha < 0.0 then (alphaFallback, betaFallback)
      else (Clamp(alpha, ALPHA_MIN, ALPHA_MAX), Clamp(beta, BETA_MIN, BETA_MAX))
  }

  // ---------------------------------------------------------------------------
  // Scalars
  // ---------------------------------------------------------------------------

  predicate ExcessFits(z: real, n: real, alpha: real, beta: real) {
    z == alpha * (n - 1.0) + beta * (n * (n - 1.0))
  }

  /** A measured time lies on the law iff its excess does. */
  lemma OnLawIffExcess(t1: real, n: real, t: real, alpha: real, beta: real)
    requires t1 > 0.0 && n > 0.0
    ensures ParallelTime(t1, n, alpha, beta) == t <==> ExcessFits(Excess(t1, n, t), n, alpha, beta)
  {
    hide Load;
    var load := Load(n, alpha, beta);
    QuotientIff(t1 * load, n, t);
    QuotientIff(n * t, t1, load);
    assert t1 * load == load * t1 && t * n == n * t;
    LoadIs(n, alpha, beta);
  }

  lemma LoadIs(n: real, alpha: real, beta: real)
    ensures Load(n, alpha, beta) == 1.0 + (alpha * (n - 1.0) + beta * (n * (n - 1.0)))
  {
  }

  /** The two excess equations, with a = N - 1, as a linear system in α and β. */
  lemma SolveSystem(z2: real, zm: real, a: real, b: real, alpha: real, beta: real)
    requires a > 0.0 && b > 0.0
    requires b == a - 1.0
    ensures z2 == alpha + 2.0 * beta && zm == alpha * a + beta * ((a + 1.0) * a) <==>
      alpha == -2.0 * beta + z2 && zm - z2 * a == beta * (a * b)
  {
    ExpandSquare(a, b, beta);
    if z2 == alpha + 2.0 * beta {
      SameFactor(z2, alpha + 2.0 * beta, a);
      DoubleSum(a, alpha, beta);
    }
  }

  lemma ExpandSquare(a: real, b: real, beta: real)
    requires b == a - 1.0
    ensures beta * ((a + 1.0) * a) == beta * (a * b) + 2.0 * (beta * a)
  {
    assert (a + 1.0) * a == a * b + 2.0 * a;
    Distribute(beta, a * b, 2.0 * a);
  }

  lemma DoubleSum(a: real, alpha: real, beta: real)
    ensures (alpha + 2.0 * beta) * a == alpha * a + 2.0 * (beta * a)
  {
  }

  // ---------------------------------------------------------------------------
  // The fit
  // ---------------------------------------------------------------------------

  ghost predicate PassesThrough(t1: real, t2: real, m: nat, tm: real, alpha: real, beta: real)
    requires m > 0
  {
    ParallelTime(t1, 2.0, alpha, beta) == t2 && ParallelTime(t1, m as real, alpha, beta) == tm
  }

  /** The unclamped fit is the only law through both measured points. */
  lemma OnlyRawFitPasses(t1: real, t2: real, m: nat, tm: real, alpha: real, beta: real)
    requires IsMeasurable(t1, t2, m, tm)
    ensures PassesThrough(t1, t2, m, tm, alpha, beta) <==>
      alpha == RawAlpha(t1, t2, m, tm) && beta == RawBeta(t1, t2, m, tm)
  {
    hide Excess, Load, ParallelTime, ExcessFits, SolvedBeta;
    OnLawIffExcess(t1, 2.0, t2, alpha, beta);
    OnLawIffExcess(t1, m as real, tm, alpha, beta);
    RawIsSolution(
      Excess(t1, 2.0, t2), Excess(t1, m as real, tm), m as real, m as real - 1.0, m as real - 2.0, alpha, beta);
  }

  lemma RawIsSolution(z2: real, zm: real, n: real, a: real, b: real, alpha: real, beta: real)
    requires a == n - 1.0 && b == n - 2.0 && b > 0.0
    ensures ExcessFits(z2, 2.0, alpha, beta) && ExcessFits(zm, n, alpha, beta) <==>
      alpha == -2.0 * beta + z2 && beta == SolvedBeta(z2, zm, a, b)
  {
    hide ExcessFits;
    ProductIsPositive(a, b);
    SolveSystem(z2, zm, a, b, alpha, beta);
    QuotientIff(zm - z2 * a, a * b, beta);
    FitsAtTwo(z2, alpha, beta);
    FitsAbove(zm, n, a, alpha, beta);
  }

  lemma FitsAbove(z: real, n: real, a: real, alpha: real, beta: real)
    requires n == a + 1.0
    ensures ExcessFits(z, n, alpha, beta) <==> z == alpha * a + beta * ((a + 1.0) * a)
  {
    assert n - 1.0 == a;
  }

  lemma FitsAtTwo(z: real, alpha: real, beta: real)
    ensures ExcessFits(z, 2.0, alpha, beta) <==> z == alpha + 2.0 * beta
  {
  }

  /** Timings generated by the law give back its parameters. */
  lemma FitRecoversLaw(t1: real, m: nat, alpha: real, beta: real, alphaFallback: real, betaFallback: real)
    requires m > 0 && ALPHA_MIN <= alpha <= ALPHA_MAX && BETA_MIN <= beta <= BETA_MAX
    requires IsMeasurable(t1, ParallelTime(t1, 2.0, alpha, beta), m, ParallelTime(t1, m as real, alpha, beta))
    ensures Fit(t1, ParallelTime(t1, 2.0, alpha, beta), m, ParallelTime(t1, m as real, alpha, beta),
                alphaFallback, betaFallback) == (alpha, beta)
  {
    var t2, tm := ParallelTime(t1, 2.0, alpha, beta), ParallelTime(t1, m as real, alpha, beta);
    hide ParallelTime, RawAlpha, RawBeta;
    OnlyRawFitPasses(t1, t2, m, tm, alpha, beta);
  }

  /**
   Of measurable timings the fit is the law through both points, moved into the ranges, or the
   fallback if that law has a negative parameter; of other timings it is the fallback.
   */
  lemma FitIsClosestLaw(
    t1: real, t2: real, m: nat, tm: real, alphaFallback: real, betaFallback: real, alpha: real, beta: real)
    requires m > 0
    ensures var degenerate := m < 3 || t1 < 0.000000001 || t2 < 0.000000001 || tm < 0.000000001;
      var fit, fallback := Fit(t1, t2, m, tm, alphaFallback, betaFallback), (alphaFallback, betaFallback);
      && (degenerate ==> fit == fallback)
      && (!degenerate && PassesThrough(t1, t2, m, tm, alpha, beta) ==>
        fit == if alpha < 0.0 || beta < 0.0 then fallback
               else (Clamp(alpha, 0.05, 0.5), Clamp(beta, 0.000001, 0.1)))
  {
    hide PassesThrough, RawAlpha, RawBeta;
    if IsMeasurable(t1, t2, m, tm) {
      OnlyRawFitPasses(t1, t2, m, tm, alpha, beta);
    }
  }

  /** A fit that does not fall back passes through both points exactly when no clamp acts. */
  lemma FitPassesIffUnclamped(t1: real, t2: real, m: nat, tm: real, alphaFallback: real, betaFallback: real)
    requires IsMeasurable(t1, t2, m, tm)
    requires RawBeta(t1, t2, m, tm) >= 0.0 && RawAlpha(t1, t2, m, tm) >= 0.0
    ensures var fit := Fit(t1, t2, m, tm, alphaFallback, betaFallback);
      PassesThrough(t1, t2, m, tm, fit.0, fit.1) <==>
        ALPHA_MIN <= RawAlpha(t1, t2, m, tm) <= ALPHA_MAX && BETA_MIN <= RawBeta(t1, t2, m, tm) <= BETA_MAX
  {
    hide PassesThrough, RawAlpha, RawBeta;
    var fit := Fit(t1, t2, m, tm, alphaFallback, betaFallback);
    OnlyRawFitPasses(t1, t2, m, tm, fit.0, fit.1);
  }

  // ---------------------------------------------------------------------------
  // Inverting the law
  // ---------------------------------------------------------------------------

  /** The effective agent count the inversion aims at. */
  function AdjustedCount(scaled: real, nCal: nat): real
    requires nCal >= 1
  {
    Clamp(scaled, 1.0, nCal as real)
  }

  function UnflooredBeta(x: real, n: real): real
    requires x > 0.0 && n > 1.0
  {
    (1.0 / x - 1.0 / n) / (n - 1.0)
  }

  /** `scaled` is the effective count times the power of the coherence. */
  function BetaFromNEff(scaled: real, nCal: nat): (beta: real)
    ensures beta >= 0.000001 && (nCal < 2 ==> beta == 0.000001)
  {
    if nCal < 2 then BETA_MIN
    else
      var beta := UnflooredBeta(AdjustedCount(scaled, nCal), nCal as real);
      if beta < BETA_MIN then BETA_MIN else beta
  }

  lemma LoadOfInverse(x: real, n: real, beta: real, inverse: real, share: real)
    requires x > 0.0 && n > 1.0
    requires inverse * x == 1.0 && share * n == 1.0 && beta * (n - 1.0) == inverse - share
    ensures Load(n, 0.0, beta) == n * inverse
  {
    assert beta * (n * (n - 1.0)) == n * (beta * (n - 1.0));
    assert n * (inverse - share) == n * inverse - share * n;
  }

  /** Among laws without a serial part exactly one has throughput x at N agents. */
  lemma InverseIsUnique(x: real, n: real, beta: real)
    requires x > 0.0 && n > 1.0 && beta >= 0.0
    ensures Load(n, 0.0, beta) > 0.0
    ensures Throughput(n, 0.0, beta) == x <==> beta == UnflooredBeta(x, n)
  {
    var load := Load(n, 0.0, beta);
    ProductIsPositive(n, n - 1.0);
    assert beta * (n * (n - 1.0)) >= 0.0;
    var b, inverse, share := UnflooredBeta(x, n), 1.0 / x, 1.0 / n;
    QuotientIff(inverse - share, n - 1.0, b);
    QuotientIff(1.0, x, inverse);
    QuotientIff(1.0, n, share);
    LoadOfInverse(x, n, b, inverse, share);
    QuotientIff(n, load, x);
    ScaledInverse(x, n, inverse, load);
    EqualLoads(n, beta, b);
  }

  lemma ScaledInverse(x: real, n: real, inverse: real, load: real)
    requires x > 0.0 && inverse * x == 1.0
    ensures n == x * load <==> load == n * inverse
  {
    if n == x * load {
      assert n * inverse == load * (inverse * x);
    }
    if load == n * inverse {
      assert x * load == n * (inverse * x);
    }
  }

  lemma EqualLoads(n: real, beta: real, b: real)
    requires n > 1.0
    ensures Load(n, 0.0, beta) == Load(n, 0.0, b) <==> beta == b
  {
    var d := n * (n - 1.0);
    ProductIsPositive(n, n - 1.0);
    if Load(n, 0.0, beta) == Load(n, 0.0, b) {
      assert d * beta == d * b;
      CancelFactor(d, beta, b);
    }
  }

  /** The law with α = 0 and the returned β has the adjusted count at N_cal iff the floor does not act. */
  lemma InversionHitsTargetIffUnfloored(scaled: real, nCal: nat)
    requires nCal >= 2
    ensures var x, n, beta := AdjustedCount(scaled, nCal), nCal as real, BetaFromNEff(scaled, nCal);
      && 1.0 <= x <= n && beta >= BETA_MIN && Load(n, 0.0, beta) > 0.0
      && (scaled < 1.0 ==> x == 1.0) && (1.0 <= scaled <= n ==> x == scaled) && (scaled > n ==> x == n)
      && (Throughput(n, 0.0, beta) == x <==> UnflooredBeta(x, n) >= BETA_MIN)
      && (UnflooredBeta(x, n) < BETA_MIN ==> beta == BETA_MIN)
  {
    hide UnflooredBeta, Load;
    var x, n, beta := AdjustedCount(scaled, nCal), nCal as real, BetaFromNEff(scaled, nCal);
    InverseIsUnique(x, n, beta);
  }
}
