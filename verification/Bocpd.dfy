/**
 The changepoint detector: it keeps the states of the filter over everything observed since
 its last reset, and reports when recent run lengths hold too much mass.
 */
module Bocpd {
  import opened Arithmetic
  import opened Wrappers
  import opened RealVectors
  import opened NormalInverseGamma
  import opened ChangepointHistories
  import opened ChangepointFilter

  /** Mass of the run lengths 0 to 4. */
  function ShortRunMass(states: seq<RunState>): real {
    SumTo(Masses(states), if |states| < 5 then |states| else 5)
  }

  /** Reported only once more than five run lengths are tracked. */
  function Alarm(states: seq<RunState>, threshold: real): Option<real> {
    if |states| > 5 && ShortRunMass(states) > threshold then Some(ShortRunMass(states)) else None
  }

  /** The mass of the shortest r run lengths is the exact share of histories that recent. */
  lemma {:induction false} ShortMassIsExact(m: Model, xs: seq<real>, r: nat)
    requires Runnable(m, |xs|) && r <= |Run(m, xs)|
    ensures ExactShortWeight(m, xs, r) == Product(ExactEvidence(m, xs), SumTo(Masses(Run(m, xs)), r))
  {
    hide Run, ExactShortWeight, ExactMarginal, ExactEvidence;
    ExactShortWeightGrows(m, xs, 0);
    if r > 0 {
      ShortMassIsExact(m, xs, r - 1);
      ExactShortWeightGrows(m, xs, r - 1);
      TruncatedFilterIsExact(m, xs);
      Distribute(ExactEvidence(m, xs), SumTo(Masses(Run(m, xs)), r - 1), Run(m, xs)[r - 1].mass);
    }
  }

  /**
   What is reported over the observations: the exact posterior mass of a changepoint within the last
   five of them, from the fifth on and when it exceeds the threshold. The posterior is the share of
   the histories with such a changepoint among all that were never truncated.
   */
  ghost predicate ReportsPosterior(m: Model, xs: seq<real>, threshold: real, report: Option<real>)
    requires m.prior.kappa > 0.0
  {
    && (|xs| < 5 ==> report.None?)
    && (|xs| >= 5 ==> ReportsShare(ExactShortWeight(m, xs, 5), ExactEvidence(m, xs), threshold, report))
  }

  /** The share of the part in the whole is reported, if it exceeds the threshold. */
  predicate ReportsShare(part: real, whole: real, threshold: real, report: Option<real>) {
    && (report.Some? <==> part > whole * threshold)
    && (report.Some? ==> part == whole * report.value && threshold < report.value <= 1.0)
  }

  lemma ShareIsReported(part: real, whole: real, threshold: real, share: real)
    requires whole > 0.0 && part == Product(whole, share) && share <= 1.0
    ensures ReportsShare(part, whole, threshold, if share > threshold then Some(share) else None)
  {
    ScaledComparison(whole, share, threshold);
  }

  /** The alarm is the exact posterior, and raised exactly when that exceeds the threshold. */
  lemma AlarmIsExactPosterior(m: Model, xs: seq<real>, threshold: real)
    requires Runnable(m, |xs|)
    ensures m.prior.kappa > 0.0 && ExactEvidence(m, xs) > 0.0
    ensures ReportsPosterior(m, xs, threshold, Alarm(Run(m, xs), threshold))
  {
    TruncatedFilterIsExact(m, xs);
    hide Run, ExactShortWeight, ExactMarginal, ExactEvidence, SumTo, Masses, Product, ReportsShare;
    if |xs| >= 5 {
      ShortMassIsExact(m, xs, 5);
      ShortMassAtMostOne(Run(m, xs), 5);
      ShareIsReported(ExactShortWeight(m, xs, 5), ExactEvidence(m, xs), threshold, SumTo(Masses(Run(m, xs)), 5));
    }
  }

  lemma ShortMassAtMostOne(states: seq<RunState>, r: nat)
    requires ValidStates(states) && r <= |states|
    ensures SumTo(Masses(states), r) <= 1.0
  {
    hide SumTo;
    SumOfNonNegative(Masses(states), r, |states|);
  }

  lemma ScaledComparison(c: real, a: real, b: real)
    requires c > 0.0
    ensures Product(c, a) > Product(c, b) <==> a > b
  {
    if a > b {
      ScaledStrictly(c, a, b);
    } else {
      MulMonotone(c, a, b);
    }
  }

  lemma ScaledStrictly(c: real, a: real, b: real)
    requires c > 0.0 && a > b
    ensures Product(c, a) > Product(c, b)
  {
    var d := a - b;
    ProductIsPositive(c, d);
    SumScaled(c, b, d);
  }

  lemma SumScaled(c: real, b: real, d: real)
    ensures Product(c, b + d) == Product(c, b) + c * d
  {
  }

  /** One run grown by an observation that no changepoint follows. */
  function Grown(m: Model, state: RunState, x: real): RunState
    requires state.nig.kappa > 0.0
  {
    RunState(UpdateOne(state.nig, x), Product(1.0 - m.hazard, Joint(m, state, x)))
  }

  /** The mass one run contributes to a changepoint after the observation. */
  function ChangepointShare(m: Model, state: RunState, x: real): real {
    Product(m.hazard, Joint(m, state, x))
  }

  class BocpdDetector {
    const model: Model
    const changepointThreshold: real
    var runStates: seq<RunState>
    /** A step had no mass to normalise by: every mass is NaN from then on. */
    var lost: bool
    /** The observations since `new` or the last `Reset`. */
    ghost var history: seq<real>

    ghost predicate Valid()
      reads this
    {
      && ValidModel(model)
      && (lost <==> !Runnable(model, |history|))
      && (!lost ==> runStates == Run(model, history))
    }

    constructor (hazardRate: real, threshold: real, density: (NigParams, real) -> real)
      requires 0.0 <= hazardRate <= 1.0 && forall p, x :: Proper(p) ==> density(p, x) > 0.0
      ensures Valid() && history == []
      ensures model == Model(NigParams(0.5, 1.0, 1.0, 0.1), hazardRate, density)
      ensures changepointThreshold == threshold
    {
      model := Model(PRIOR, hazardRate, density);
      changepointThreshold := threshold;
      runStates := [RunState(PRIOR, 1.0)];
      lost := false;
      history := [];
    }

    /**
     Folds every run length forward, adds the changepoint mass, truncates and renormalises.
     Without mass to normalise by nothing is reported, now or later: no comparison with NaN holds.
     */
    method Observe(x: real) returns (changepoint: Option<real>)
      requires Valid()
      modifies this`runStates, this`lost, this`history
      ensures Valid() && history == old(history) + [x]
      ensures changepoint == if lost then None else Alarm(runStates, changepointThreshold)
      ensures model.prior.kappa > 0.0
      ensures !lost ==>
        ExactEvidence(model, history) > 0.0 && ReportsPosterior(model, history, changepointThreshold, changepoint)
    {
      hide Run, Advance, Grown, ChangepointShare, Mass, Masses, Alarm, RawMasses, Retained, ReportsPosterior,
        ExactEvidence, ReportsShare;
      LosesOrAdvances(model, history, x);
      if Runnable(model, |history| + 1) {
        AlarmIsExactPosterior(model, history + [x], changepointThreshold);
      }
      history := history + [x];
      if lost {
        return None;
      }
      var grown: seq<RunState> := [];
      var changepointMasses: Vector := [];
      for i := 0 to |runStates|
        invariant |grown| == |changepointMasses| == i
        invariant forall k :: 0 <= k < i ==> grown[k] == Grown(model, runStates[k], x)
        invariant forall k :: 0 <= k < i ==> changepointMasses[k] == ChangepointShare(model, runStates[k], x)
      {
        grown := grown + [Grown(model, runStates[i], x)];
        changepointMasses := changepointMasses + [ChangepointShare(model, runStates[i], x)];
      }
      var newStates := [RunState(model.prior, Mass(changepointMasses))] + grown;
      if |newStates| > MAX_RUN_LENGTH {
        newStates := newStates[..MAX_RUN_LENGTH];
      }
      LoopsComputeRaw(model, runStates, x, grown, changepointMasses, newStates);
      var total := Mass(Masses(newStates));
      if total == 0.0 {
        lost := true;
        return None;
      }
      newStates := Normalise(newStates, total);
      AssembledIsAdvance(model, runStates, x, newStates);
      runStates := newStates;
      changepoint := Alarm(runStates, changepointThreshold);
    }

    /** Forget everything observed. */
    method Reset()
      requires Valid()
      modifies this`runStates, this`lost, this`history
      ensures Valid() && history == [] && !lost
    {
      runStates := [RunState(model.prior, 1.0)];
      lost := false;
      history := [];
    }
  }

  /** A step loses all mass exactly when it leaves what can be run; otherwise it advances the run. */
  lemma LosesOrAdvances(m: Model, xs: seq<real>, x: real)
    requires ValidModel(m)
    ensures |xs + [x]| == |xs| + 1 && (Runnable(m, |xs| + 1) ==> Runnable(m, |xs|))
    ensures Runnable(m, |xs|) ==> AllProper(Run(m, xs)) && |Run(m, xs)| == Kept(|xs| + 1)
    ensures Runnable(m, |xs|) ==> (Retained(m, Run(m, xs), x) == 0.0 <==> !Runnable(m, |xs| + 1))
    ensures Runnable(m, |xs| + 1) ==>
      Retained(m, Run(m, xs), x) > 0.0 && Run(m, xs + [x]) == Advance(m, Run(m, xs), x)
  {
    hide Run, Advance, Retained;
    if Runnable(m, |xs| + 1) {
      RunStep(m, xs, x);
    } else if Runnable(m, |xs|) {
      ZeroHazardStaysOnLongestRun(m, xs);
      ZeroHazardLosesAllMass(m, Run(m, xs), x);
    }
  }

  /** What the loops have built is the unnormalised step, cut to the states kept. */
  lemma LoopsComputeRaw(
    m: Model, states: seq<RunState>, x: real, grown: seq<RunState>, shares: Vector, kept: seq<RunState>)
    requires AllProper(states) && |grown| == |shares| == |states|
    requires forall k :: 0 <= k < |states| ==> grown[k] == Grown(m, states[k], x)
    requires forall k :: 0 <= k < |states| ==> shares[k] == ChangepointShare(m, states[k], x)
    requires kept == ([RunState(m.prior, Mass(shares))] + grown)[..Kept(|states| + 1)]
    ensures |RawMasses(m, states, x)| == |RawParams(m, states, x)| == |states| + 1
    ensures forall i :: 0 <= i < |kept| ==>
      kept[i] == RunState(RawParams(m, states, x)[i], RawMasses(m, states, x)[i])
    ensures Mass(Masses(kept)) == Retained(m, states, x)
  {
    hide SumTo, UpdateOne, Joint, Product;
    assert shares == Scale(m.hazard, Predicted(m, states, x));
    SumsAgree(Masses(kept), RawMasses(m, states, x), |kept|);
  }

  lemma AssembledIsAdvance(m: Model, states: seq<RunState>, x: real, scaled: seq<RunState>)
    requires AllProper(states) && Retained(m, states, x) > 0.0 && |scaled| == Kept(|states| + 1)
    requires |RawMasses(m, states, x)| == |RawParams(m, states, x)| == |states| + 1
    requires forall i :: 0 <= i < |scaled| ==>
      scaled[i] == RunState(RawParams(m, states, x)[i], RawMasses(m, states, x)[i] / Retained(m, states, x))
    ensures scaled == Advance(m, states, x)
  {
    hide RawMasses, RawParams, Retained;
  }

  method Normalise(states: seq<RunState>, total: real) returns (scaled: seq<RunState>)
    requires total > 0.0
    ensures |scaled| == |states|
    ensures forall i :: 0 <= i < |states| ==> scaled[i] == RunState(states[i].nig, states[i].mass / total)
  {
    scaled := states;
    for i := 0 to |states|
      invariant |scaled| == |states|
      invariant forall k :: 0 <= k < i ==> scaled[k] == RunState(states[k].nig, states[k].mass / total)
      invariant forall k :: i <= k < |states| ==> scaled[k] == states[k]
    {
      scaled := scaled[i := scaled[i].(mass := scaled[i].mass / total)];
    }
  }
}
