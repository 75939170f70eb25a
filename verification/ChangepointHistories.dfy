/**
 The exponential-size model that the changepoint detector filters: every history says,
 per observation, whether a changepoint followed it, and is weighted by its hazard and
 predictive factors.
 */
module ChangepointHistories {
  import opened Arithmetic
  import opened RealVectors
  import opened NormalInverseGamma

  /** True means that a changepoint followed the observation. */
  type History = seq<bool>

  /** Prior, hazard rate and predictive density. */
  datatype Model = Model(prior: NigParams, hazard: real, density: (NigParams, real) -> real)

  /** The density is positive wherever it is defined. */
  ghost predicate ValidModel(m: Model) {
    && Proper(m.prior)
    && 0.0 <= m.hazard <= 1.0
    && forall p, x :: Proper(p) ==> m.density(p, x) > 0.0
  }

  function LastN(xs: seq<real>, r: nat): seq<real> {
    if r <= |xs| then xs[|xs| - r..] else xs
  }

  // ---------------------------------------------------------------------------
  // Histories
  // ---------------------------------------------------------------------------

  function AppendAll(hs: seq<History>, b: bool): seq<History> {
    seq(|hs|, i requires 0 <= i < |hs| => hs[i] + [b])
  }

  function Histories(t: nat): seq<History> {
    if t == 0 then [[]] else AppendAll(Histories(t - 1), true) + AppendAll(Histories(t - 1), false)
  }

  lemma {:induction false} HistoriesHaveLength(t: nat)
    ensures |Histories(t)| == Pow(2, t) && AllOfLength(Histories(t), t)
  {
    if t > 0 {
      HistoriesHaveLength(t - 1);
    }
  }

  lemma HistoryAt(t: nat, i: nat)
    requires t > 0 && i < |Histories(t)|
    ensures i < 2 * |Histories(t - 1)|
    ensures Histories(t)[i] ==
      Histories(t - 1)[if i < |Histories(t - 1)| then i else i - |Histories(t - 1)|] + [i < |Histories(t - 1)|]
  {
  }

  lemma LastDiffers(a: History, b: History, x: bool, y: bool)
    ensures a + [x] == b + [y] ==> a == b && x == y
  {
    if a + [x] == b + [y] {
      assert a == (a + [x])[..|a|] && b == (b + [y])[..|b|];
      assert (a + [x])[|a|] == x;
    }
  }

  lemma {:induction false} HistoriesAreDistinct(t: nat, i: nat, j: nat)
    requires i < j < |Histories(t)|
    ensures Histories(t)[i] != Histories(t)[j]
  {
    if t > 0 {
      var before := Histories(t - 1);
      var n := |before|;
      HistoryAt(t, i);
      HistoryAt(t, j);
      hide Histories, AppendAll;
      if j < n {
        HistoriesAreDistinct(t - 1, i, j);
        LastDiffers(before[i], before[j], true, true);
      } else if i >= n {
        HistoriesAreDistinct(t - 1, i - n, j - n);
        LastDiffers(before[i - n], before[j - n], false, false);
      } else {
        LastDiffers(before[i], before[j - n], true, false);
      }
    }
  }

  lemma {:induction false} HistoriesAreComplete(h: History) returns (i: nat)
    ensures i < |Histories(|h|)| && Histories(|h|)[i] == h
    decreases |h|
  {
    if h == [] {
      i := 0;
    } else {
      var front, n := h[..|h| - 1], |Histories(|h| - 1)|;
      var k := HistoriesAreComplete(front);
      assert h == front + [h[|h| - 1]];
      i := if h[|h| - 1] then k else n + k;
    }
  }

  /** All 2^t histories of length t, each once. */
  lemma HistoriesAreAll(t: nat)
    ensures |Histories(t)| == Pow(2, t) && AllOfLength(Histories(t), t)
    ensures forall i, j :: 0 <= i < j < |Histories(t)| ==> Histories(t)[i] != Histories(t)[j]
    ensures forall h: History :: |h| == t ==> h in Histories(t)
  {
    hide Histories;
    HistoriesHaveLength(t);
    forall i, j | 0 <= i < j < |Histories(t)|
      ensures Histories(t)[i] != Histories(t)[j]
    {
      HistoriesAreDistinct(t, i, j);
    }
    forall h: History | |h| == t
      ensures h in Histories(t)
    {
      var i := HistoriesAreComplete(h);
    }
  }

  ghost predicate AllOfLength(hs: seq<History>, t: nat) {
    forall i :: 0 <= i < |hs| ==> |hs[i]| == t
  }

  /** The number of observations since the last changepoint. */
  function RunLength(h: History): (r: nat)
    ensures r <= |h|
  {
    if h == [] || h[|h| - 1] then 0 else RunLength(h[..|h| - 1]) + 1
  }

  /** The parameters of the segment the history is in. */
  function PathParams(m: Model, h: History, xs: seq<real>): NigParams
    requires |h| == |xs| && m.prior.kappa > 0.0
    ensures PathParams(m, h, xs).kappa > 0.0
  {
    if h == [] || h[|h| - 1] then m.prior
    else UpdateOne(PathParams(m, h[..|h| - 1], xs[..|xs| - 1]), xs[|xs| - 1])
  }

  function StepFactor(m: Model, changepoint: bool): real {
    if changepoint then m.hazard else 1.0 - m.hazard
  }

  /** One step along a history: the weight so far times a predictive and a hazard factor. */
  function WeightStep(w: real, p: real, f: real): real {
    w * (p * f)
  }

  /** The product of the predictive and hazard factors along a history. */
  function PathWeight(m: Model, h: History, xs: seq<real>): real
    requires |h| == |xs| && m.prior.kappa > 0.0
  {
    if h == [] then 1.0
    else
      var front, seen := h[..|h| - 1], xs[..|xs| - 1];
      WeightStep(PathWeight(m, front, seen), m.density(PathParams(m, front, seen), xs[|xs| - 1]),
                 StepFactor(m, h[|h| - 1]))
  }

  /** The segment's parameters depend only on the observations of the current run. */
  lemma {:induction false} PathParamsAreFolded(m: Model, h: History, xs: seq<real>)
    requires |h| == |xs| && m.prior.kappa > 0.0
    ensures PathParams(m, h, xs) == Fold(m.prior, LastN(xs, RunLength(h)))
    decreases |h|
  {
    hide UpdateOne;
    if h != [] && !h[|h| - 1] {
      var front, seen := h[..|h| - 1], xs[..|xs| - 1];
      PathParamsAreFolded(m, front, seen);
      var run := LastN(xs, RunLength(h));
      assert run[..|run| - 1] == LastN(seen, RunLength(front));
      assert run[|run| - 1] == xs[|xs| - 1];
    }
  }

  // ---------------------------------------------------------------------------
  // Histories that were never truncated
  // ---------------------------------------------------------------------------

  /** The detector drops runs of this length. */
  const MAX_RUN_LENGTH: nat := 500

  /** The run was shorter than the bound all along. */
  predicate StaysShort(h: History) {
    forall k :: 0 <= k <= |h| ==> RunLength(h[..k]) < MAX_RUN_LENGTH
  }

  /** The weight of a history, counted only if it was never truncated. */
  function SurvivingWeight(m: Model, h: History, xs: seq<real>): real
    requires |h| == |xs| && m.prior.kappa > 0.0
  {
    if StaysShort(h) then PathWeight(m, h, xs) else 0.0
  }

  lemma StaysShortExtends(h: History, b: bool)
    ensures StaysShort(h + [b]) <==> StaysShort(h) && RunLength(h + [b]) < MAX_RUN_LENGTH
  {
    hide RunLength;
    var longer := h + [b];
    assert longer[..|h| + 1] == longer;
    assert forall k :: 0 <= k <= |h| ==> longer[..k] == h[..k];
    if StaysShort(longer) {
      forall k | 0 <= k <= |h|
        ensures RunLength(h[..k]) < MAX_RUN_LENGTH
      {
        assert longer[..k] == h[..k];
      }
    }
  }

  /** Below the bound every history counts with its full weight. */
  lemma NoHistoryIsTruncated(m: Model, h: History, xs: seq<real>)
    requires |h| == |xs| < MAX_RUN_LENGTH && m.prior.kappa > 0.0
    ensures SurvivingWeight(m, h, xs) == PathWeight(m, h, xs)
  {
    hide PathWeight;
    assert forall k :: 0 <= k <= |h| ==> RunLength(h[..k]) <= |h[..k]|;
  }

  // ---------------------------------------------------------------------------
  // Sums over histories
  // ---------------------------------------------------------------------------

  /** The sum of the weights times g of the run length. */
  function WeightedSum(m: Model, hs: seq<History>, xs: seq<real>, g: Vector): real
    requires AllOfLength(hs, |xs|) && |g| == |xs| + 1 && m.prior.kappa > 0.0
  {
    if hs == [] then 0.0
    else
      var h := hs[|hs| - 1];
      WeightedSum(m, hs[..|hs| - 1], xs, g) + SurvivingWeight(m, h, xs) * g[RunLength(h)]
  }

  /** The sum of the weights of the histories that end in run length r. */
  function Marginal(m: Model, hs: seq<History>, xs: seq<real>, r: nat): real
    requires AllOfLength(hs, |xs|) && m.prior.kappa > 0.0
  {
    if hs == [] then 0.0
    else
      var h := hs[|hs| - 1];
      Marginal(m, hs[..|hs| - 1], xs, r) + (if RunLength(h) == r then SurvivingWeight(m, h, xs) else 0.0)
  }

  function Evidence(m: Model, hs: seq<History>, xs: seq<real>): real
    requires AllOfLength(hs, |xs|) && m.prior.kappa > 0.0
  {
    if hs == [] then 0.0 else Evidence(m, hs[..|hs| - 1], xs) + SurvivingWeight(m, hs[|hs| - 1], xs)
  }

  function MarginalVector(m: Model, hs: seq<History>, xs: seq<real>): Vector
    requires AllOfLength(hs, |xs|) && m.prior.kappa > 0.0
  {
    seq(|xs| + 1, r requires 0 <= r < |xs| + 1 => Marginal(m, hs, xs, r))
  }

  /** Per run length, the predictive density of the next observation. */
  function Predictive(m: Model, xs: seq<real>, x: real): Vector
    requires m.prior.kappa > 0.0
  {
    seq(|xs| + 1, r requires 0 <= r < |xs| + 1 => m.density(Fold(m.prior, LastN(xs, r)), x))
  }

  lemma GroupTerm(g: real, margin: real, w: real)
    ensures g * (margin + w) == g * margin + w * g
  {
  }

  lemma GroupOne(g: Vector, margins: Vector, next: Vector, r: nat, w: real)
    requires |g| == |margins| && r < |g| && next == margins[r := margins[r] + w]
    ensures Mass(Times(g, next)) == Mass(Times(g, margins)) + w * g[r]
  {
    hide SumTo;
    var c := w * g[r];
    GroupTerm(g[r], margins[r], w);
    forall i | 0 <= i < |g|
      ensures Times(g, next)[i] == Times(g, margins)[r := Times(g, margins)[r] + c][i]
    {
      if i != r {
        assert next[i] == margins[i];
      }
    }
    assert Times(g, next) == Times(g, margins)[r := Times(g, margins)[r] + c];
    SumUpdate(Times(g, margins), r, c, |g|);
  }

  /** Summing history by history is summing run length by run length. */
  lemma {:induction false} GroupByRunLength(m: Model, hs: seq<History>, xs: seq<real>, g: Vector)
    requires AllOfLength(hs, |xs|) && |g| == |xs| + 1 && m.prior.kappa > 0.0
    ensures WeightedSum(m, hs, xs, g) == Mass(Times(g, MarginalVector(m, hs, xs)))
    decreases |hs|
  {
    hide SurvivingWeight, RunLength, SumTo;
    if hs == [] {
      ZeroTimes(g, MarginalVector(m, hs, xs));
    } else {
      var front, h := hs[..|hs| - 1], hs[|hs| - 1];
      GroupByRunLength(m, front, xs, g);
      var before, r, w := MarginalVector(m, front, xs), RunLength(h), SurvivingWeight(m, h, xs);
      assert MarginalVector(m, hs, xs) == before[r := before[r] + w];
      GroupOne(g, before, MarginalVector(m, hs, xs), r, w);
    }
  }

  lemma ZeroTimes(g: Vector, v: Vector)
    requires |g| == |v| && forall i :: 0 <= i < |v| ==> v[i] == 0.0
    ensures Mass(Times(g, v)) == 0.0
  {
    assert forall i :: 0 <= i < |v| ==> g[i] * v[i] == 0.0;
    AllZero(Times(g, v), |v|);
  }

  // ---------------------------------------------------------------------------
  // One more observation
  // ---------------------------------------------------------------------------

  /** The weight of a history extended by one step: growth to the bound is truncated. */
  lemma ExtendWeight(m: Model, h: History, xs: seq<real>, x: real, b: bool)
    requires |h| == |xs| && m.prior.kappa > 0.0
    ensures RunLength(h + [b]) == if b then 0 else RunLength(h) + 1
    ensures SurvivingWeight(m, h + [b], xs + [x])
         == if RunLength(h + [b]) < MAX_RUN_LENGTH
            then WeightStep(SurvivingWeight(m, h, xs), Predictive(m, xs, x)[RunLength(h)], StepFactor(m, b))
            else 0.0
  {
    hide StepFactor, UpdateOne, StaysShort;
    assert (h + [b])[..|h|] == h && (xs + [x])[..|xs|] == xs;
    PathParamsAreFolded(m, h, xs);
    StaysShortExtends(h, b);
    ZeroWeight(Predictive(m, xs, x)[RunLength(h)], StepFactor(m, b));
    hide WeightStep;
  }

  lemma AppendAllFront(hs: seq<History>, b: bool)
    requires hs != []
    ensures AppendAll(hs, b)[..|hs| - 1] == AppendAll(hs[..|hs| - 1], b)
  {
  }

  lemma Factor(w: real, p: real, f: real, sum: real, total: real)
    requires sum == f * total
    ensures sum + WeightStep(w, p, f) == f * (total + w * p)
  {
    assert w * (p * f) == f * (w * p);
    Distribute(f, total, w * p);
  }

  /** The histories extended by b weigh, together, the predicted weight times the step factor, unless truncated. */
  lemma {:induction false} ExtendedEvidence(m: Model, hs: seq<History>, xs: seq<real>, x: real, b: bool)
    requires AllOfLength(hs, |xs|) && m.prior.kappa > 0.0
    requires b || |xs| + 1 < MAX_RUN_LENGTH
    ensures AllOfLength(AppendAll(hs, b), |xs| + 1)
    ensures Evidence(m, AppendAll(hs, b), xs + [x])
         == StepFactor(m, b) * WeightedSum(m, hs, xs, Predictive(m, xs, x))
    decreases |hs|
  {
    hide SurvivingWeight, RunLength, StepFactor, Predictive, WeightStep;
    PredictiveLength(m, xs, x);
    if hs != [] {
      var front, h := hs[..|hs| - 1], hs[|hs| - 1];
      ExtendedEvidence(m, front, xs, x, b);
      AppendAllFront(hs, b);
      ExtendWeight(m, h, xs, x, b);
      Factor(SurvivingWeight(m, h, xs), Predictive(m, xs, x)[RunLength(h)], StepFactor(m, b),
             Evidence(m, AppendAll(front, b), xs + [x]), WeightedSum(m, front, xs, Predictive(m, xs, x)));
    }
  }

  lemma PredictiveLength(m: Model, xs: seq<real>, x: real)
    requires m.prior.kappa > 0.0
    ensures |Predictive(m, xs, x)| == |xs| + 1
  {
  }

  /** Extending by a changepoint moves all weight to run length 0. */
  lemma {:induction false} ChangepointMarginal(m: Model, hs: seq<History>, xs: seq<real>, x: real, r: nat)
    requires AllOfLength(hs, |xs|) && m.prior.kappa > 0.0
    ensures AllOfLength(AppendAll(hs, true), |xs| + 1)
    ensures Marginal(m, AppendAll(hs, true), xs + [x], r)
         == if r == 0 then Evidence(m, AppendAll(hs, true), xs + [x]) else 0.0
    decreases |hs|
  {
    hide SurvivingWeight;
    if hs != [] {
      ChangepointMarginal(m, hs[..|hs| - 1], xs, x, r);
      AppendAllFront(hs, true);
    }
  }

  lemma FactorIf(keep: bool, w: real, p: real, f: real, sum: real, total: real)
    requires sum == WeightStep(total, p, f)
    ensures sum + (if keep then WeightStep(w, p, f) else 0.0) == WeightStep(total + (if keep then w else 0.0), p, f)
  {
    Distribute(p * f, total, w);
  }

  lemma ZeroWeight(p: real, f: real)
    ensures WeightStep(0.0, p, f) == 0.0
  {
  }

  /**
   Extending by growth moves the weight of run length r to r + 1, scaled by prediction and survival,
   up to the bound.
   */
  lemma {:induction false} GrowthMarginal(m: Model, hs: seq<History>, xs: seq<real>, x: real, r: nat)
    requires AllOfLength(hs, |xs|) && m.prior.kappa > 0.0 && r <= |xs|
    ensures AllOfLength(AppendAll(hs, false), |xs| + 1)
    ensures Marginal(m, AppendAll(hs, false), xs + [x], r + 1)
         == if r + 1 < MAX_RUN_LENGTH
            then WeightStep(Marginal(m, hs, xs, r), Predictive(m, xs, x)[r], StepFactor(m, false))
            else 0.0
    ensures Marginal(m, AppendAll(hs, false), xs + [x], 0) == 0.0
    decreases |hs|
  {
    ZeroWeight(Predictive(m, xs, x)[r], StepFactor(m, false));
    hide SurvivingWeight, RunLength, StepFactor, Predictive, WeightStep;
    PredictiveLength(m, xs, x);
    if hs != [] {
      var front, h := hs[..|hs| - 1], hs[|hs| - 1];
      GrowthMarginal(m, front, xs, x, r);
      AppendAllFront(hs, false);
      ExtendWeight(m, h, xs, x, false);
      if r + 1 < MAX_RUN_LENGTH {
        FactorIf(RunLength(h) == r, SurvivingWeight(m, h, xs), Predictive(m, xs, x)[r], StepFactor(m, false),
                 Marginal(m, AppendAll(front, false), xs + [x], r + 1), Marginal(m, front, xs, r));
      }
    }
  }

  lemma {:induction false} MarginalOfConcat(m: Model, a: seq<History>, b: seq<History>, xs: seq<real>, r: nat)
    requires AllOfLength(a, |xs|) && AllOfLength(b, |xs|) && m.prior.kappa > 0.0
    ensures AllOfLength(a + b, |xs|)
    ensures Marginal(m, a + b, xs, r) == Marginal(m, a, xs, r) + Marginal(m, b, xs, r)
    ensures Evidence(m, a + b, xs) == Evidence(m, a, xs) + Evidence(m, b, xs)
    decreases |b|
  {
    hide SurvivingWeight, RunLength;
    if b == [] {
      assert a + b == a;
    } else {
      MarginalOfConcat(m, a, b[..|b| - 1], xs, r);
      assert (a + b)[..|a + b| - 1] == a + b[..|b| - 1];
    }
  }

  // ---------------------------------------------------------------------------
  // The recurrences of the exact posterior
  // ---------------------------------------------------------------------------

  /** Total weight of the histories that end in run length r, of all 2^t those that were never truncated. */
  ghost function ExactMarginal(m: Model, xs: seq<real>, r: nat): real
    requires m.prior.kappa > 0.0
  {
    HistoriesAreAll(|xs|);
    Marginal(m, Histories(|xs|), xs, r)
  }

  /** Total weight of the histories, of all 2^t those that were never truncated. */
  ghost function ExactEvidence(m: Model, xs: seq<real>): real
    requires m.prior.kappa > 0.0
  {
    HistoriesAreAll(|xs|);
    Evidence(m, Histories(|xs|), xs)
  }

  lemma NothingObserved(m: Model)
    requires m.prior.kappa > 0.0
    ensures ExactMarginal(m, [], 0) == 1.0 && ExactEvidence(m, []) == 1.0
  {
    var none: seq<History> := [];
    NoHistoryIsTruncated(m, [], []);
    var hs: seq<History> := [[]];
    assert Histories(0) == hs;
    assert hs[..|hs| - 1] == none;
    assert SurvivingWeight(m, hs[0], []) == 1.0 && RunLength(hs[0]) == 0;
    assert Marginal(m, none, [], 0) == 0.0 && Evidence(m, none, []) == 0.0;
    hide SurvivingWeight, RunLength;
    assert Marginal(m, hs, [], 0) == 1.0;
    assert Evidence(m, hs, []) == Evidence(m, none, []) + SurvivingWeight(m, hs[0], []);
  }

  ghost function ExactMarginals(m: Model, xs: seq<real>): Vector
    requires m.prior.kappa > 0.0
  {
    seq(|xs| + 1, r requires 0 <= r < |xs| + 1 => ExactMarginal(m, xs, r))
  }

  lemma PredictedWeight(m: Model, xs: seq<real>, x: real)
    requires m.prior.kappa > 0.0
    ensures AllOfLength(Histories(|xs|), |xs|) && |Predictive(m, xs, x)| == |xs| + 1
    ensures WeightedSum(m, Histories(|xs|), xs, Predictive(m, xs, x))
         == Mass(Times(Predictive(m, xs, x), ExactMarginals(m, xs)))
  {
    hide Histories, Marginal, WeightedSum, SumTo;
    HistoriesAreAll(|xs|);
    GroupByRunLength(m, Histories(|xs|), xs, Predictive(m, xs, x));
    assert MarginalVector(m, Histories(|xs|), xs) == ExactMarginals(m, xs);
  }

  lemma ExtendedHistories(t: nat)
    ensures Histories(t + 1) == AppendAll(Histories(t), true) + AppendAll(Histories(t), false)
  {
  }

  /** One observation: total weight and the weight of run length 0 come from the predicted weight. */
  lemma ExactChangepoint(m: Model, xs: seq<real>, x: real)
    requires m.prior.kappa > 0.0
    ensures |Predictive(m, xs, x)| == |xs| + 1
    ensures var predicted := Mass(Times(Predictive(m, xs, x), ExactMarginals(m, xs)));
      && ExactMarginal(m, xs + [x], 0) == StepFactor(m, true) * predicted
      && (|xs| + 1 < MAX_RUN_LENGTH ==>
           ExactEvidence(m, xs + [x]) == StepFactor(m, true) * predicted + StepFactor(m, false) * predicted)
  {
    hide *;
    var hs, all := Histories(|xs|), xs + [x];
    HistoriesAreAll(|xs|);
    ExtendedHistories(|xs|);
    PredictedWeight(m, xs, x);
    ExtendedEvidence(m, hs, xs, x, true);
    if |xs| + 1 < MAX_RUN_LENGTH {
      ExtendedEvidence(m, hs, xs, x, false);
    }
    ChangepointMarginal(m, hs, xs, x, 0);
    GrowthMarginal(m, hs, xs, x, 0);
    MarginalOfConcat(m, AppendAll(hs, true), AppendAll(hs, false), all, 0);
    UnfoldExact(m, all, 0);
  }

  lemma UnfoldExact(m: Model, xs: seq<real>, r: nat)
    requires m.prior.kappa > 0.0
    ensures AllOfLength(Histories(|xs|), |xs|)
    ensures ExactMarginal(m, xs, r) == Marginal(m, Histories(|xs|), xs, r)
    ensures ExactEvidence(m, xs) == Evidence(m, Histories(|xs|), xs)
  {
    HistoriesAreAll(|xs|);
  }

  /** One observation: run length r + 1 gets the weight of r, predicted and surviving, if it is below the bound. */
  lemma ExactGrowth(m: Model, xs: seq<real>, x: real, r: nat)
    requires m.prior.kappa > 0.0 && r <= |xs|
    ensures |Predictive(m, xs, x)| == |xs| + 1
    ensures ExactMarginal(m, xs + [x], r + 1)
         == if r + 1 < MAX_RUN_LENGTH
            then WeightStep(ExactMarginal(m, xs, r), Predictive(m, xs, x)[r], StepFactor(m, false))
            else 0.0
  {
    hide *;
    var hs, all := Histories(|xs|), xs + [x];
    HistoriesAreAll(|xs|);
    ExtendedHistories(|xs|);
    PredictiveLength(m, xs, x);
    ChangepointMarginal(m, hs, xs, x, r + 1);
    GrowthMarginal(m, hs, xs, x, r);
    MarginalOfConcat(m, AppendAll(hs, true), AppendAll(hs, false), all, r + 1);
    UnfoldExact(m, all, r + 1);
    UnfoldExact(m, xs, r);
  }

  /** The sum of the weights of the histories that end in a run length below r. */
  function ShortWeight(m: Model, hs: seq<History>, xs: seq<real>, r: nat): real
    requires AllOfLength(hs, |xs|) && m.prior.kappa > 0.0
  {
    if hs == [] then 0.0
    else
      var h := hs[|hs| - 1];
      ShortWeight(m, hs[..|hs| - 1], xs, r) + (if RunLength(h) < r then SurvivingWeight(m, h, xs) else 0.0)
  }

  lemma {:induction false} ShortWeightGrows(m: Model, hs: seq<History>, xs: seq<real>, r: nat)
    requires AllOfLength(hs, |xs|) && m.prior.kappa > 0.0
    ensures ShortWeight(m, hs, xs, 0) == 0.0
    ensures ShortWeight(m, hs, xs, r + 1) == ShortWeight(m, hs, xs, r) + Marginal(m, hs, xs, r)
    decreases |hs|
  {
    hide SurvivingWeight, RunLength;
    if hs != [] {
      ShortWeightGrows(m, hs[..|hs| - 1], xs, r);
    }
  }

  /** Total weight of the histories whose last changepoint is fewer than r observations back. */
  ghost function ExactShortWeight(m: Model, xs: seq<real>, r: nat): real
    requires m.prior.kappa > 0.0
  {
    HistoriesAreAll(|xs|);
    ShortWeight(m, Histories(|xs|), xs, r)
  }

  lemma ExactShortWeightGrows(m: Model, xs: seq<real>, r: nat)
    requires m.prior.kappa > 0.0
    ensures ExactShortWeight(m, xs, 0) == 0.0
    ensures ExactShortWeight(m, xs, r + 1) == ExactShortWeight(m, xs, r) + ExactMarginal(m, xs, r)
  {
    HistoriesAreAll(|xs|);
    ShortWeightGrows(m, Histories(|xs|), xs, r);
  }

  /** The evidence is the sum of the marginals. */
  lemma {:induction false} ShortWeightIsSum(m: Model, xs: seq<real>, r: nat)
    requires m.prior.kappa > 0.0 && r <= |xs| + 1
    ensures ExactShortWeight(m, xs, r) == SumTo(ExactMarginals(m, xs), r)
  {
    hide ExactShortWeight, ExactMarginal;
    ExactShortWeightGrows(m, xs, 0);
    if r > 0 {
      ShortWeightIsSum(m, xs, r - 1);
      ExactShortWeightGrows(m, xs, r - 1);
    }
  }

  lemma {:induction false} EveryRunIsShort(m: Model, hs: seq<History>, xs: seq<real>)
    requires AllOfLength(hs, |xs|) && m.prior.kappa > 0.0
    ensures ShortWeight(m, hs, xs, |xs| + 1) == Evidence(m, hs, xs)
    decreases |hs|
  {
    hide SurvivingWeight;
    if hs != [] {
      EveryRunIsShort(m, hs[..|hs| - 1], xs);
    }
  }

  lemma EvidenceIsSum(m: Model, xs: seq<real>)
    requires m.prior.kappa > 0.0
    ensures ExactEvidence(m, xs) == SumTo(ExactMarginals(m, xs), |xs| + 1)
  {
    hide Histories, SumTo, ExactMarginals;
    HistoriesAreAll(|xs|);
    EveryRunIsShort(m, Histories(|xs|), xs);
    ShortWeightIsSum(m, xs, |xs| + 1);
  }

  lemma {:induction false} NoRunIsLonger(m: Model, hs: seq<History>, xs: seq<real>, r: nat)
    requires AllOfLength(hs, |xs|) && m.prior.kappa > 0.0 && r >= MAX_RUN_LENGTH
    ensures Marginal(m, hs, xs, r) == 0.0
    decreases |hs|
  {
    hide PathWeight, RunLength;
    if hs != [] {
      var h := hs[|hs| - 1];
      NoRunIsLonger(m, hs[..|hs| - 1], xs, r);
      assert h[..|h|] == h;
    }
  }

  /** No surviving history ends in a run at or above the bound. */
  lemma NothingAboveBound(m: Model, xs: seq<real>, r: nat)
    requires m.prior.kappa > 0.0 && r >= MAX_RUN_LENGTH
    ensures ExactMarginal(m, xs, r) == 0.0
  {
    hide Histories;
    HistoriesAreAll(|xs|);
    NoRunIsLonger(m, Histories(|xs|), xs, r);
  }
}
