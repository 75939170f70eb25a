/**
 The linear-size filter of Bayesian online changepoint detection, with masses in the linear
 domain, and its agreement with the exponential-size model of `ChangepointHistories`.
 */
module ChangepointFilter {
  import opened Arithmetic
  import opened Wrappers
  import opened RealVectors
  import opened NormalInverseGamma
  import opened ChangepointHistories

  datatype RunState = RunState(nig: NigParams, mass: real)

  const PRIOR := NigParams(0.5, 1.0, 1.0, 0.1)

  // ---------------------------------------------------------------------------
  // One step of the filter
  // ---------------------------------------------------------------------------

  function Masses(states: seq<RunState>): Vector {
    seq(|states|, i requires 0 <= i < |states| => states[i].mass)
  }

  ghost predicate AllProper(states: seq<RunState>) {
    forall i :: 0 <= i < |states| ==> Proper(states[i].nig)
  }

  /** A normalised posterior over at most MAX_RUN_LENGTH run lengths. */
  ghost predicate ValidStates(states: seq<RunState>) {
    && 1 <= |states| <= MAX_RUN_LENGTH
    && AllProper(states)
    && (forall i :: 0 <= i < |states| ==> states[i].mass >= 0.0)
    && Mass(Masses(states)) == 1.0
  }

  function Densities(m: Model, states: seq<RunState>, x: real): Vector {
    seq(|states|, i requires 0 <= i < |states| => m.density(states[i].nig, x))
  }

  /** A run's mass times the predictive density of the observation. */
  function Joint(m: Model, state: RunState, x: real): real {
    Product(m.density(state.nig, x), state.mass)
  }

  function Predicted(m: Model, states: seq<RunState>, x: real): Vector {
    seq(|states|, i requires 0 <= i < |states| => Joint(m, states[i], x))
  }

  /** Unnormalised masses: the changepoint mass first, then every run grown by one. */
  function RawMasses(m: Model, states: seq<RunState>, x: real): Vector {
    [Mass(Scale(m.hazard, Predicted(m, states, x)))] + Scale(1.0 - m.hazard, Predicted(m, states, x))
  }

  function RawParams(m: Model, states: seq<RunState>, x: real): seq<NigParams>
    requires forall i :: 0 <= i < |states| ==> states[i].nig.kappa > 0.0
  {
    [m.prior] + seq(|states|, i requires 0 <= i < |states| => UpdateOne(states[i].nig, x))
  }

  /** How many run lengths are kept. */
  function Kept(n: nat): nat {
    if n > MAX_RUN_LENGTH then MAX_RUN_LENGTH else n
  }

  /** The mass that survives truncation. */
  function Retained(m: Model, states: seq<RunState>, x: real): real {
    SumTo(RawMasses(m, states, x), Kept(|states| + 1))
  }

  function Advance(m: Model, states: seq<RunState>, x: real): seq<RunState>
    requires forall i :: 0 <= i < |states| ==> states[i].nig.kappa > 0.0
    requires Retained(m, states, x) != 0.0
  {
    var raw, params, total := RawMasses(m, states, x), RawParams(m, states, x), Retained(m, states, x);
    seq(Kept(|states| + 1), i requires 0 <= i < Kept(|states| + 1) => RunState(params[i], raw[i] / total))
  }

  /** The next step leaves mass to normalise by: the hazard rate is positive or nothing is truncated. */
  ghost predicate CanAdvance(m: Model, states: seq<RunState>) {
    ValidModel(m) && ValidStates(states) && (m.hazard > 0.0 || |states| < MAX_RUN_LENGTH)
  }

  // ---------------------------------------------------------------------------
  // What a step keeps
  // ---------------------------------------------------------------------------

  lemma PredictedIsTimes(m: Model, states: seq<RunState>, x: real)
    ensures Predicted(m, states, x) == Times(Densities(m, states, x), Masses(states))
  {
    hide Product;
  }

  /** The predicted mass is positive and splits between changepoint and growth. */
  lemma PredictedIsPositive(m: Model, states: seq<RunState>, x: real)
    requires ValidModel(m) && ValidStates(states)
    ensures Mass(Predicted(m, states, x)) > 0.0
    ensures forall i :: 0 <= i < |states| ==> Predicted(m, states, x)[i] >= 0.0
    ensures Mass(Scale(m.hazard, Predicted(m, states, x))) == m.hazard * Mass(Predicted(m, states, x))
    ensures Mass(Scale(1.0 - m.hazard, Predicted(m, states, x))) == (1.0 - m.hazard) * Mass(Predicted(m, states, x))
  {
    hide SumTo;
    var g, v := Densities(m, states, x), Masses(states);
    assert forall i :: 0 <= i < |states| ==> g[i] > 0.0 && v[i] >= 0.0;
    forall i | 0 <= i < |states|
      ensures Predicted(m, states, x)[i] >= 0.0
    {
      SignOfProduct(g[i], v[i]);
    }
    PredictedIsTimes(m, states, x);
    WeightedSumSign(g, v, |v|);
    ScaleSum(m.hazard, Predicted(m, states, x), |v|);
    ScaleSum(1.0 - m.hazard, Predicted(m, states, x), |v|);
  }

  lemma RawMassesAreNonNegative(m: Model, states: seq<RunState>, x: real)
    requires ValidModel(m) && ValidStates(states)
    ensures |RawMasses(m, states, x)| == |states| + 1
    ensures forall i :: 0 <= i < |states| + 1 ==> RawMasses(m, states, x)[i] >= 0.0
    ensures RawMasses(m, states, x)[0] == m.hazard * Mass(Predicted(m, states, x))
    ensures Mass(RawMasses(m, states, x)) == Mass(Predicted(m, states, x))
  {
    hide SumTo, Predicted;
    var predicted := Predicted(m, states, x);
    PredictedIsPositive(m, states, x);
    assert |predicted| == |states| by { PredictedLength(m, states, x); }
    var grown := Scale(1.0 - m.hazard, predicted);
    forall i | 0 <= i < |predicted|
      ensures grown[i] >= 0.0
    {
      SignOfProduct(1.0 - m.hazard, predicted[i]);
    }
    SignOfProduct(m.hazard, Mass(predicted));
    SumOfHeadAndTail(Mass(Scale(m.hazard, predicted)), grown);
    SharesAddUp(m.hazard, 1.0 - m.hazard, Mass(predicted));
  }

  lemma PredictedLength(m: Model, states: seq<RunState>, x: real)
    ensures |Predicted(m, states, x)| == |states|
  {
  }

  lemma SumOfHeadAndTail(head: real, tail: Vector)
    ensures Mass([head] + tail) == head + Mass(tail)
  {
    SumOfConcat([head], tail, |tail|);
    assert SumTo([head], 1) == SumTo([head], 0) + head;
  }

  lemma SharesAddUp(h: real, rest: real, total: real)
    requires h + rest == 1.0
    ensures h * total + rest * total == total
  {
  }

  /** What survives truncation is positive and at most everything predicted. */
  lemma RetainedIsPositive(m: Model, states: seq<RunState>, x: real)
    requires CanAdvance(m, states)
    ensures 0.0 < Retained(m, states, x) <= Mass(Predicted(m, states, x))
    ensures |states| < MAX_RUN_LENGTH ==> Retained(m, states, x) == Mass(Predicted(m, states, x))
  {
    hide SumTo, Predicted;
    RawMassesAreNonNegative(m, states, x);
    PredictedIsPositive(m, states, x);
    SignOfProduct(m.hazard, Mass(Predicted(m, states, x)));
    var raw := RawMasses(m, states, x);
    if m.hazard > 0.0 {
      SumOfNonNegative(raw, 1, Kept(|states| + 1));
      FirstSum(raw);
    }
    SumOfNonNegative(raw, Kept(|states| + 1), |raw|);
  }

  lemma FirstSum(v: Vector)
    requires v != []
    ensures SumTo(v, 1) == v[0]
  {
    assert SumTo(v, 0) == 0.0;
  }

  lemma {:induction false} DividedSum(v: Vector, u: Vector, total: real, m: nat)
    requires total > 0.0 && m <= |u| <= |v| && forall i :: 0 <= i < |u| ==> u[i] == v[i] / total
    ensures SumTo(u, m) == SumTo(v, m) / total
  {
    if m > 0 {
      DividedSum(v, u, total, m - 1);
    }
  }

  lemma Divide(a: real, total: real)
    requires a >= 0.0 && total > 0.0
    ensures a / total >= 0.0
  {
  }

  /** Every step, truncating or not, yields a normalised posterior over at most MAX_RUN_LENGTH states. */
  lemma AdvanceKeepsValid(m: Model, states: seq<RunState>, x: real)
    requires CanAdvance(m, states)
    ensures Retained(m, states, x) > 0.0
    ensures ValidStates(Advance(m, states, x))
    ensures |Advance(m, states, x)| == Kept(|states| + 1)
  {
    hide SumTo, RawMasses, UpdateOne, Retained;
    RetainedIsPositive(m, states, x);
    RawMassesAreNonNegative(m, states, x);
    var next, raw, total := Advance(m, states, x), RawMasses(m, states, x), Retained(m, states, x);
    forall i | 0 <= i < |next|
      ensures next[i].mass >= 0.0 && Proper(next[i].nig)
    {
      Divide(raw[i], total);
      if i > 0 {
        UpdateKeepsProper(states[i - 1].nig, x);
      }
    }
    DividedSum(raw, Masses(next), total, |next|);
    RetainedIsPrefixSum(m, states, x);
    assert total / total == 1.0;
  }

  lemma RetainedIsPrefixSum(m: Model, states: seq<RunState>, x: real)
    ensures |RawMasses(m, states, x)| == |states| + 1
    ensures Retained(m, states, x) == SumTo(RawMasses(m, states, x), Kept(|states| + 1))
  {
  }

  /** The posterior mass of run length 0 is the hazard rate until truncation, and at least it afterwards. */
  lemma ChangepointMass(m: Model, states: seq<RunState>, x: real)
    requires CanAdvance(m, states)
    ensures Retained(m, states, x) > 0.0
    ensures Advance(m, states, x)[0].mass >= m.hazard
    ensures |states| < MAX_RUN_LENGTH ==> Advance(m, states, x)[0].mass == m.hazard
  {
    hide SumTo, RawMasses, Retained, Predicted;
    RetainedIsPositive(m, states, x);
    RawMassesAreNonNegative(m, states, x);
    ShareOfTotal(m.hazard, Mass(Predicted(m, states, x)), Retained(m, states, x), RawMasses(m, states, x)[0]);
  }

  lemma ShareOfTotal(h: real, total: real, kept: real, mass: real)
    requires 0.0 < kept <= total && h >= 0.0 && mass == h * total
    ensures mass / kept >= h && (kept == total ==> mass / kept == h)
  {
    var share := mass / kept;
    assert kept * share == h * total;
    MulMonotone(h, kept, total);
    if kept == total {
      CancelFactor(kept, share, h);
    } else if share < h {
      MulMonotone(kept, share, h);
      CancelFactor(kept, share, h);
    }
  }

  // ---------------------------------------------------------------------------
  // Runs
  // ---------------------------------------------------------------------------

  function InitialStates(m: Model): seq<RunState> {
    [RunState(m.prior, 1.0)]
  }

  /** After n observations there is still mass to normalise by. */
  ghost predicate Runnable(m: Model, n: nat) {
    ValidModel(m) && (m.hazard > 0.0 || n < MAX_RUN_LENGTH)
  }

  /** The states after the observations, starting from `new` or `reset`. */
  ghost function Run(m: Model, xs: seq<real>): (states: seq<RunState>)
    requires Runnable(m, |xs|)
    ensures ValidStates(states) && |states| == Kept(|xs| + 1)
    decreases |xs|
  {
    if xs == [] then
      InitialIsValid(m);
      InitialStates(m)
    else
      var before := Run(m, xs[..|xs| - 1]);
      AdvanceKeepsValid(m, before, xs[|xs| - 1]);
      Advance(m, before, xs[|xs| - 1])
  }

  lemma InitialIsValid(m: Model)
    requires Proper(m.prior)
    ensures ValidStates(InitialStates(m))
  {
    FirstSum(Masses(InitialStates(m)));
  }

  /** State i is the prior folded over the last i observations, whether or not anything was truncated. */
  lemma {:induction false} StatesAreFolds(m: Model, xs: seq<real>, i: nat)
    requires Runnable(m, |xs|) && i < Kept(|xs| + 1)
    ensures Run(m, xs)[i].nig == Fold(m.prior, LastN(xs, i))
    decreases |xs|
  {
    hide SumTo, UpdateOne, RawMasses, Retained, ValidStates;
    if xs != [] && i > 0 {
      var before, x := Run(m, xs[..|xs| - 1]), xs[|xs| - 1];
      StatesAreFolds(m, xs[..|xs| - 1], i - 1);
      assert LastN(xs, i)[..i - 1] == LastN(xs[..|xs| - 1], i - 1);
      assert LastN(xs, i)[i - 1] == x;
    }
  }

  // ---------------------------------------------------------------------------
  // Agreement with the exponential-size model
  // ---------------------------------------------------------------------------

  /** State r holds the segment parameters of run length r. */
  ghost predicate HasFolds(m: Model, states: seq<RunState>, xs: seq<real>)
    requires m.prior.kappa > 0.0
  {
    && |states| == Kept(|xs| + 1)
    && forall r :: 0 <= r < |states| ==> states[r].nig == Fold(m.prior, LastN(xs, r))
  }

  /** The masses, cleared of the normalising constant, are the exact marginals. */
  ghost predicate MatchesExact(m: Model, states: seq<RunState>, xs: seq<real>)
    requires m.prior.kappa > 0.0
  {
    && |states| == Kept(|xs| + 1)
    && forall r :: 0 <= r < |states| ==> ExactMarginal(m, xs, r) == Product(ExactEvidence(m, xs), states[r].mass)
  }

  lemma TailOfZeros(long: Vector, short: Vector, m: nat)
    requires |short| <= m <= |long|
    requires forall i :: 0 <= i < |short| ==> long[i] == short[i]
    requires forall i :: |short| <= i < |long| ==> long[i] == 0.0
    ensures SumTo(long, m) == Mass(short)
  {
    if m > |short| {
      TailOfZeros(long, short, m - 1);
    } else {
      SumsAgree(long, short, |short|);
    }
  }

  lemma ScaleExact(p: real, exact: real, e: real, mass: real)
    requires exact == Product(e, mass)
    ensures Product(p, exact) == Product(e, Product(p, mass))
  {
  }

  /** What the exact posterior predicts for run length r is what the filter predicts, times the evidence. */
  lemma PredictedAt(m: Model, states: seq<RunState>, xs: seq<real>, x: real, r: nat)
    requires m.prior.kappa > 0.0 && HasFolds(m, states, xs) && MatchesExact(m, states, xs) && r <= |xs|
    ensures |Predictive(m, xs, x)| == |ExactMarginals(m, xs)| == |xs| + 1 && |Predicted(m, states, x)| == |states|
    ensures Product(Predictive(m, xs, x)[r], ExactMarginals(m, xs)[r])
         == if r < |states| then Product(ExactEvidence(m, xs), Predicted(m, states, x)[r]) else 0.0
  {
    hide Fold, LastN, Product, ExactMarginal, ExactEvidence;
    var p, exact := Predictive(m, xs, x)[r], ExactMarginal(m, xs, r);
    if r < |states| {
      ScaleExact(p, exact, ExactEvidence(m, xs), states[r].mass);
    } else {
      NothingAboveBound(m, xs, r);
      TimesZero(p);
    }
  }

  lemma TimesZero(p: real)
    ensures Product(p, 0.0) == 0.0
  {
  }

  /** In total, the exact predicted weight is the filter's predicted mass times the evidence so far. */
  lemma PredictedMatches(m: Model, states: seq<RunState>, xs: seq<real>, x: real)
    requires m.prior.kappa > 0.0 && HasFolds(m, states, xs) && MatchesExact(m, states, xs)
    ensures |Predictive(m, xs, x)| == |ExactMarginals(m, xs)| == |xs| + 1
    ensures Mass(Times(Predictive(m, xs, x), ExactMarginals(m, xs)))
         == Product(ExactEvidence(m, xs), Mass(Predicted(m, states, x)))
  {
    hide SumTo, Predictive, ExactMarginals, Predicted, Product, HasFolds;
    var e, predicted := ExactEvidence(m, xs), Predicted(m, states, x);
    PredictedAt(m, states, xs, x, 0);
    var exact := Times(Predictive(m, xs, x), ExactMarginals(m, xs));
    forall r | 0 <= r <= |xs|
      ensures exact[r] == if r < |states| then Scale(e, predicted)[r] else 0.0
    {
      PredictedAt(m, states, xs, x, r);
    }
    hide MatchesExact, ExactEvidence;
    TailOfZeros(exact, Scale(e, predicted), |exact|);
    ScaleIsProduct(e, predicted);
  }

  lemma ScaleIsProduct(e: real, v: Vector)
    ensures Mass(Scale(e, v)) == Product(e, Mass(v))
  {
    ScaleSum(e, v, |v|);
  }

  lemma StepWeight(e: real, predicted: real, exact: real, p: real, f: real)
    requires Product(p, exact) == Product(e, predicted)
    ensures WeightStep(exact, p, f) == Product(e, Product(f, predicted))
  {
    assert exact * (p * f) == f * (p * exact);
    assert e * (f * predicted) == f * (e * predicted);
  }

  lemma RawAt(m: Model, states: seq<RunState>, x: real, i: nat)
    requires i <= |states|
    ensures |RawMasses(m, states, x)| == |states| + 1 == |Predicted(m, states, x)| + 1
    ensures RawMasses(m, states, x)[i]
         == if i == 0 then Product(m.hazard, Mass(Predicted(m, states, x)))
            else Product(1.0 - m.hazard, Predicted(m, states, x)[i - 1])
  {
    hide SumTo, Joint;
    if i == 0 {
      ScaleIsProduct(m.hazard, Predicted(m, states, x));
    }
  }

  /** After one more observation the exact marginals are the unnormalised masses, times the evidence so far. */
  lemma RawMatches(m: Model, states: seq<RunState>, xs: seq<real>, x: real, i: nat)
    requires m.prior.kappa > 0.0 && HasFolds(m, states, xs) && MatchesExact(m, states, xs)
    requires i < Kept(|xs| + 2)
    ensures i < |RawMasses(m, states, x)| == |states| + 1
    ensures ExactMarginal(m, xs + [x], i) == Product(ExactEvidence(m, xs), RawMasses(m, states, x)[i])
  {
    hide *;
    BelowBound(m, states, xs, i);
    RawAt(m, states, x, i);
    if i == 0 {
      PredictedMatches(m, states, xs, x);
      ExactChangepoint(m, xs, x);
      ChangepointFactor(m, ExactEvidence(m, xs), Mass(Predicted(m, states, x)));
    } else {
      PredictedAt(m, states, xs, x, i - 1);
      ExactGrowth(m, xs, x, i - 1);
      ExactMarginalAt(m, xs, i - 1);
      GrowthFactor(m);
      StepWeight(ExactEvidence(m, xs), Predicted(m, states, x)[i - 1], ExactMarginal(m, xs, i - 1),
                 Predictive(m, xs, x)[i - 1], StepFactor(m, false));
    }
  }

  lemma BelowBound(m: Model, states: seq<RunState>, xs: seq<real>, i: nat)
    requires m.prior.kappa > 0.0 && HasFolds(m, states, xs) && i < Kept(|xs| + 2)
    ensures i < MAX_RUN_LENGTH && i <= |states| <= |xs| + 1
  {
  }

  lemma ExactMarginalAt(m: Model, xs: seq<real>, r: nat)
    requires m.prior.kappa > 0.0 && r <= |xs|
    ensures |ExactMarginals(m, xs)| == |xs| + 1 && ExactMarginals(m, xs)[r] == ExactMarginal(m, xs, r)
  {
  }

  lemma ChangepointFactor(m: Model, e: real, predicted: real)
    ensures StepFactor(m, true) * Product(e, predicted) == Product(e, Product(m.hazard, predicted))
  {
  }

  lemma GrowthFactor(m: Model)
    ensures StepFactor(m, false) == 1.0 - m.hazard
  {
  }

  lemma MarginalAfter(m: Model, states: seq<RunState>, xs: seq<real>, x: real, i: nat)
    requires m.prior.kappa > 0.0 && HasFolds(m, states, xs) && MatchesExact(m, states, xs) && i <= |xs| + 1
    ensures Kept(|xs| + 2) <= |RawMasses(m, states, x)| && |ExactMarginals(m, xs + [x])| == |xs| + 2
    ensures ExactMarginals(m, xs + [x])[i]
         == if i < Kept(|xs| + 2) then Product(ExactEvidence(m, xs), RawMasses(m, states, x)[i]) else 0.0
  {
    RawMatches(m, states, xs, x, 0);
    hide RawMasses, Product, ExactEvidence, ExactMarginal, MatchesExact;
    if i < Kept(|xs| + 2) {
      RawMatches(m, states, xs, x, i);
    } else {
      NothingAboveBound(m, xs + [x], i);
    }
  }

  /** The evidence grows by what the step normalises by. */
  lemma EvidenceGrows(m: Model, states: seq<RunState>, xs: seq<real>, x: real)
    requires m.prior.kappa > 0.0 && HasFolds(m, states, xs) && MatchesExact(m, states, xs)
    ensures ExactEvidence(m, xs + [x]) == Product(ExactEvidence(m, xs), Retained(m, states, x))
  {
    hide MatchesExact, ExactEvidence, ExactMarginals, SumTo, RawMasses, Retained, Product;
    var e, raw, n, exact := ExactEvidence(m, xs), RawMasses(m, states, x), Kept(|xs| + 2), ExactMarginals(m, xs + [x]);
    MarginalAfter(m, states, xs, x, 0);
    var scaled := Scale(e, raw[..n]);
    forall i | 0 <= i < |exact|
      ensures exact[i] == if i < n then scaled[i] else 0.0
    {
      MarginalAfter(m, states, xs, x, i);
    }
    TailOfZeros(exact, scaled, |exact|);
    EvidenceIsSum(m, xs + [x]);
    ScaleIsProduct(e, raw[..n]);
    SumsAgree(raw, raw[..n], n);
    RetainedIsPrefixSum(m, states, x);
  }

  lemma Renormalise(e: real, raw: real, total: real, mass: real)
    requires total > 0.0 && mass == raw / total
    ensures Product(e, raw) == Product(Product(e, total), mass)
  {
    QuotientTimes(raw, total);
    Reassociate(e, total, mass);
  }

  lemma AdvancedMass(m: Model, states: seq<RunState>, x: real, i: nat)
    requires AllProper(states) && Retained(m, states, x) > 0.0 && i < Kept(|states| + 1)
    ensures |RawMasses(m, states, x)| == |states| + 1 && |Advance(m, states, x)| == Kept(|states| + 1)
    ensures Advance(m, states, x)[i].mass == RawMasses(m, states, x)[i] / Retained(m, states, x)
  {
    hide Mass, SumTo, Joint, Retained, Product;
  }

  /** One step of the filter, truncating or not, is one step of the exponential-size model. */
  lemma StepIsExact(m: Model, states: seq<RunState>, xs: seq<real>, x: real)
    requires CanAdvance(m, states) && m.prior.kappa > 0.0
    requires HasFolds(m, states, xs) && MatchesExact(m, states, xs)
    ensures Retained(m, states, x) > 0.0 && AllProper(states)
    ensures MatchesExact(m, Advance(m, states, x), xs + [x])
  {
    AdvanceKeepsValid(m, states, x);
    assert Kept(|states| + 1) == Kept(|xs| + 2);
    var next := Advance(m, states, x);
    hide CanAdvance, HasFolds, Retained, RawMasses, Advance, ExactMarginal, ExactEvidence, Product;
    EvidenceGrows(m, states, xs, x);
    forall i | 0 <= i < |next|
      ensures ExactMarginal(m, xs + [x], i) == Product(ExactEvidence(m, xs + [x]), next[i].mass)
    {
      RawMatches(m, states, xs, x, i);
      AdvancedMass(m, states, x, i);
      Renormalise(ExactEvidence(m, xs), RawMasses(m, states, x)[i], Retained(m, states, x), next[i].mass);
    }
  }

  lemma EmptyIsExact(m: Model)
    requires m.prior.kappa > 0.0
    ensures MatchesExact(m, InitialStates(m), [])
  {
    NothingObserved(m);
  }

  lemma RunHasFolds(m: Model, xs: seq<real>)
    requires Runnable(m, |xs|)
    ensures HasFolds(m, Run(m, xs), xs)
  {
    hide Run, Fold, LastN;
    forall r | 0 <= r < Kept(|xs| + 1)
      ensures Run(m, xs)[r].nig == Fold(m.prior, LastN(xs, r))
    {
      StatesAreFolds(m, xs, r);
    }
  }

  lemma RunStep(m: Model, xs: seq<real>, x: real)
    requires Runnable(m, |xs| + 1)
    ensures CanAdvance(m, Run(m, xs)) && AllProper(Run(m, xs)) && Retained(m, Run(m, xs), x) > 0.0
    ensures Run(m, xs + [x]) == Advance(m, Run(m, xs), x)
  {
    assert (xs + [x])[..|xs|] == xs;
    AdvanceKeepsValid(m, Run(m, xs), x);
  }

  /**
   The mass at run length r is the weight of the histories ending in run length r, divided by the
   weight of all histories: of all 2^t histories, those whose run never reached the bound.
   */
  lemma {:induction false} TruncatedFilterIsExact(m: Model, xs: seq<real>)
    requires Runnable(m, |xs|)
    ensures ExactEvidence(m, xs) > 0.0
    ensures MatchesExact(m, Run(m, xs), xs)
    decreases |xs|
  {
    hide *;
    RunnableModel(m, |xs|);
    if |xs| == 0 {
      RunOfNothing(m, xs);
      EmptyIsExact(m);
      NothingObserved(m);
    } else {
      var front, x := xs[..|xs| - 1], xs[|xs| - 1];
      assert front + [x] == xs;
      RunnableModel(m, |front| + 1);
      TruncatedFilterIsExact(m, front);
      RunHasFolds(m, front);
      RunStep(m, front, x);
      StepIsExact(m, Run(m, front), front, x);
      EvidenceGrows(m, Run(m, front), front, x);
      PositiveProduct(ExactEvidence(m, front), Retained(m, Run(m, front), x));
    }
  }

  lemma RunnableModel(m: Model, n: nat)
    requires Runnable(m, n)
    ensures m.prior.kappa > 0.0 && (n > 0 ==> Runnable(m, n - 1))
  {
  }

  lemma RunOfNothing(m: Model, xs: seq<real>)
    requires Runnable(m, |xs|) && |xs| == 0
    ensures xs == [] && Run(m, xs) == InitialStates(m)
  {
  }

  lemma PositiveProduct(a: real, b: real)
    requires a > 0.0 && b > 0.0
    ensures Product(a, b) > 0.0
  {
    ProductIsPositive(a, b);
  }

  /** Below the truncation bound these are all 2^t histories with their full weights. */
  lemma {:induction false} FullMarginal(m: Model, hs: seq<History>, xs: seq<real>, r: nat)
    requires AllOfLength(hs, |xs|) && |xs| < MAX_RUN_LENGTH && m.prior.kappa > 0.0
    ensures Marginal(m, hs, xs, r) == PlainMarginal(m, hs, xs, r)
    ensures Evidence(m, hs, xs) == PlainEvidence(m, hs, xs)
    decreases |hs|
  {
    hide PathWeight, SurvivingWeight, RunLength;
    if hs != [] {
      FullMarginal(m, hs[..|hs| - 1], xs, r);
      NoHistoryIsTruncated(m, hs[|hs| - 1], xs);
    }
  }

  /** The sum of the full weights of the histories that end in run length r. */
  function PlainMarginal(m: Model, hs: seq<History>, xs: seq<real>, r: nat): real
    requires AllOfLength(hs, |xs|) && m.prior.kappa > 0.0
  {
    if hs == [] then 0.0
    else
      var h := hs[|hs| - 1];
      PlainMarginal(m, hs[..|hs| - 1], xs, r) + (if RunLength(h) == r then PathWeight(m, h, xs) else 0.0)
  }

  function PlainEvidence(m: Model, hs: seq<History>, xs: seq<real>): real
    requires AllOfLength(hs, |xs|) && m.prior.kappa > 0.0
  {
    if hs == [] then 0.0 else PlainEvidence(m, hs[..|hs| - 1], xs) + PathWeight(m, hs[|hs| - 1], xs)
  }

  /**
   While nothing has been truncated, the mass at run length r is the weight of all 2^t
   histories ending in run length r, divided by the weight of all 2^t histories.
   */
  lemma FilterIsExact(m: Model, xs: seq<real>, r: nat)
    requires Runnable(m, |xs|) && r <= |xs| < MAX_RUN_LENGTH
    ensures m.prior.kappa > 0.0 && AllOfLength(Histories(|xs|), |xs|) && |Run(m, xs)| == |xs| + 1
    ensures PlainEvidence(m, Histories(|xs|), xs) > 0.0
    ensures PlainMarginal(m, Histories(|xs|), xs, r)
         == Product(PlainEvidence(m, Histories(|xs|), xs), Run(m, xs)[r].mass)
  {
    hide Run, Histories, Product;
    TruncatedFilterIsExact(m, xs);
    HistoriesAreAll(|xs|);
    FullMarginal(m, Histories(|xs|), xs, r);
    UnfoldExact(m, xs, r);
  }

  // ---------------------------------------------------------------------------
  // A hazard rate of zero
  // ---------------------------------------------------------------------------

  /** All mass on the longest run, as in the initial state. */
  ghost predicate OnLongestRun(states: seq<RunState>) {
    states != [] && forall i :: 0 <= i < |states| - 1 ==> states[i].mass == 0.0
  }

  /**
   With hazard 0 every step keeps all mass on the longest run; the step that truncates
   drops exactly that run, and there is nothing left to normalise by.
   */
  lemma ZeroHazardLosesAllMass(m: Model, states: seq<RunState>, x: real)
    requires m.hazard == 0.0 && OnLongestRun(states)
    ensures |RawMasses(m, states, x)| == |states| + 1
    ensures forall i :: 0 <= i < |states| ==> RawMasses(m, states, x)[i] == 0.0
    ensures |states| == MAX_RUN_LENGTH ==> Retained(m, states, x) == 0.0
  {
    hide SumTo;
    var predicted := Predicted(m, states, x);
    ScaleSum(0.0, predicted, |predicted|);
    var raw := RawMasses(m, states, x);
    forall i | 0 <= i < |states|
      ensures raw[i] == 0.0
    {
      if i > 0 {
        assert Masses(states)[i - 1] == 0.0;
        assert predicted[i - 1] == 0.0;
      }
    }
    AllZero(raw[..|states|], |states|);
    SumsAgree(raw, raw[..|states|], |states|);
  }

  /** With hazard 0 all mass stays on the longest run until the bound is reached. */
  lemma {:induction false} ZeroHazardStaysOnLongestRun(m: Model, xs: seq<real>)
    requires Runnable(m, |xs|) && m.hazard == 0.0
    ensures OnLongestRun(Run(m, xs)) && |Run(m, xs)| == |xs| + 1
    decreases |xs|
  {
    hide Advance, RawMasses, Retained;
    if xs != [] {
      var front, x := xs[..|xs| - 1], xs[|xs| - 1];
      ZeroHazardStaysOnLongestRun(m, front);
      assert front + [x] == xs;
      RunStep(m, front, x);
      ZeroHazardLosesAllMass(m, Run(m, front), x);
      hide Run;
      forall i | 0 <= i < |xs|
        ensures Run(m, xs)[i].mass == 0.0
      {
        AdvancedMass(m, Run(m, front), x, i);
      }
    }
  }

  /** The filter as the code runs it: nothing is left once a step has no mass to normalise by. */
  ghost function Filtered(m: Model, xs: seq<real>): (states: Option<seq<RunState>>)
    requires Proper(m.prior)
    ensures states.Some? ==> AllProper(states.value)
    decreases |xs|
  {
    if xs == [] then Some(InitialStates(m))
    else
      var before, x := Filtered(m, xs[..|xs| - 1]), xs[|xs| - 1];
      if before.None? || Retained(m, before.value, x) == 0.0 then None
      else
        AdvanceIsProper(m, before.value, x);
        Some(Advance(m, before.value, x))
  }

  lemma AdvanceIsProper(m: Model, states: seq<RunState>, x: real)
    requires Proper(m.prior) && AllProper(states) && Retained(m, states, x) != 0.0
    ensures AllProper(Advance(m, states, x))
  {
    hide Retained, RawMasses, UpdateOne;
    RawAt(m, states, x, 0);
    forall i | 0 <= i < |Advance(m, states, x)|
      ensures Proper(Advance(m, states, x)[i].nig)
    {
      if i > 0 {
        UpdateKeepsProper(states[i - 1].nig, x);
      }
    }
  }

  /**
   Every observation can be normalised exactly when the hazard rate is positive or nothing has been
   truncated yet, and then the states are those of `Run`.
   */
  lemma {:induction false} MassSurvivesIffHazardIsPositive(m: Model, xs: seq<real>)
    requires ValidModel(m)
    ensures Filtered(m, xs).Some? <==> m.hazard > 0.0 || |xs| < 500
    ensures Runnable(m, |xs|) ==> Filtered(m, xs) == Some(Run(m, xs))
    decreases |xs|
  {
    hide Advance, Retained;
    if xs != [] {
      var front, x := xs[..|xs| - 1], xs[|xs| - 1];
      assert front + [x] == xs;
      MassSurvivesIffHazardIsPositive(m, front);
      if Runnable(m, |xs|) {
        RunStep(m, front, x);
      } else if Runnable(m, |front|) {
        ZeroHazardStaysOnLongestRun(m, front);
        ZeroHazardLosesAllMass(m, Run(m, front), x);
      }
    }
  }
}
