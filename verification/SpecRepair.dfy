/**
 Repairing one check of a constraint spec against the versioned source.

 `Advisor.Run` is one repair on its own. The second half interleaves any number of
 repairs: each load, compare-and-set and reload is one step.
 */
module SpecRepair {
  import opened Collections
  import opened Wrappers
  import opened VersionedSource
  import opened Ranking

  datatype Outcome =
    | Repaired(newVersion: nat, acceptedRewrite: string)
    | Failed(bestScore: real)

  function SetCheck(checks: seq<string>, i: nat, text: string): seq<string> {
    if i < |checks| then checks[i := text] else checks
  }

  // ---------------------------------------------------------------------------
  // One repair
  // ---------------------------------------------------------------------------

  datatype RepairInput = RepairInput(
    taskId: string,
    nowMs: nat,
    instability: real,
    constraintId: string,
    checkIndex: nat,
    originalCheck: string,
    currentVersion: nat)

  /** The best score seen, at least 0. */
  ghost predicate IsBestScore(probed: seq<Scored<string>>, best: real) {
    && best >= 0.0
    && (forall i :: 0 <= i < |probed| ==> probed[i].score <= best)
    && (best > 0.0 ==> exists i :: 0 <= i < |probed| && probed[i].score == best)
  }

  /** The first candidate with the best score, and only if that score is positive. */
  ghost predicate IsBestCandidate(probed: seq<Scored<string>>, text: string) {
    exists i: nat :: i < |probed| && Leads(probed, i) && probed[i].item == text
  }

  ghost predicate Leads(probed: seq<Scored<string>>, i: nat)
    requires i < |probed|
  {
    && probed[i].score > 0.0
    && (forall j :: 0 <= j < |probed| ==> probed[j].score <= probed[i].score)
    && (forall j :: 0 <= j < i ==> probed[j].score < probed[i].score)
  }

  method BestCandidate(probed: seq<Scored<string>>) returns (bestScore: real, best: Option<string>)
    ensures IsBestScore(probed, bestScore)
    ensures best.None? <==> bestScore == 0.0
    ensures best.Some? ==> IsBestCandidate(probed, best.value)
  {
    bestScore, best := 0.0, None;
    ghost var leader: nat := 0;
    for i := 0 to |probed|
      invariant IsBestScore(probed[..i], bestScore)
      invariant best.None? <==> bestScore == 0.0
      invariant best.Some? ==> leader < i && Leads(probed[..i], leader)
      invariant best.Some? ==> probed[leader].item == best.value && probed[leader].score == bestScore
    {
      assert forall j :: 0 <= j < i ==> probed[..i + 1][j] == probed[..i][j];
      assert probed[..i + 1][i] == probed[i];
      if probed[i].score > bestScore {
        bestScore, best := probed[i].score, Some(probed[i].item);
        leader := i;
      }
    }
    assert probed[..|probed|] == probed;
  }

  function ProvenanceOf(input: RepairInput, text: string, score: real): Provenance {
    Provenance(input.taskId, input.nowMs, input.instability, input.checkIndex, input.originalCheck, text, score)
  }

  /** What one call wants to write once its candidate is chosen. */
  datatype Job = Job(id: string, checkIndex: nat, text: string, provenance: Provenance, score: real)

  /** The spec handed to the compare-and-set: the loaded one with the targeted check replaced. */
  function Edit(base: Spec, job: Job): Spec {
    base.(checks := SetCheck(base.checks, job.checkIndex, job.text))
  }

  function JobOf(input: RepairInput, text: string, score: real): Job {
    Job(input.constraintId, input.checkIndex, text, ProvenanceOf(input, text, score), score)
  }

  /** What a call that was given version `current` reports, and the overrides after it, if no other call interferes. */
  function Solo(inner: Inner, before: Overrides, job: Job, current: nat): (Outcome, Overrides) {
    var latest := Latest(inner, before, job.id);
    if latest.Err? || job.checkIndex >= |latest.value.spec.checks| then (Failed(job.score), before)
    else
      var was := latest.value.spec;
      if current < was.version then (Repaired(was.version, job.text), before)
      else (Repaired(was.version + 1, job.text),
            Written(before, job.id, was.version, Edit(was, job), job.provenance))
  }

  /** The outcome and the overrides are those of a call on its own that writes the accepted text. */
  ghost predicate EndsSolo(
    input: RepairInput, probed: seq<Scored<string>>, inner: Inner, before: Overrides,
    outcome: Outcome, after: Overrides, score: real)
    requires outcome.Repaired?
  {
    && IsBestScore(probed, score)
    && (outcome, after) == Solo(inner, before, JobOf(input, outcome.acceptedRewrite, score), input.currentVersion)
  }

  /** The provenance of a repair with this rewrite and score. */
  ghost predicate Records(p: Provenance, input: RepairInput, rewrite: string, score: real) {
    && p.triggeredByTask == input.taskId && p.triggeredAtMs == input.nowMs && p.instability == input.instability
    && p.checkIndex == input.checkIndex && p.originalCheck == input.originalCheck
    && p.simplifiedCheck == rewrite && p.consistency == score
  }

  /** Only one check, the version and the provenance differ between the specs, and the override is recorded. */
  ghost predicate ReplacesOneCheck(
    input: RepairInput, probed: seq<Scored<string>>, was: Spec, rewrite: string, after: VersionedSpec)
  {
    && after.spec.id == was.id && after.spec.rest == was.rest
    && |after.spec.checks| == |was.checks|
    && (forall k: nat :: k < |was.checks| ==>
      after.spec.checks[k] == if k == input.checkIndex then rewrite else was.checks[k])
    && after.spec.version == was.version + 1
    && after.provenance.Some? && after.spec.repairProvenance == after.provenance
    && exists score :: IsBestScore(probed, score) && Records(after.provenance.value, input, rewrite, score)
  }

  /** Some candidate is good enough. */
  ghost predicate Acceptable(probed: seq<Scored<string>>, threshold: real) {
    exists i :: 0 <= i < |probed| && probed[i].score > 0.0 && probed[i].score >= threshold
  }

  class Advisor {
    const threshold: real

    constructor (threshold: real)
      ensures this.threshold == threshold
    {
      this.threshold := threshold;
    }

    /**
     A repair alone in the source succeeds iff a candidate is acceptable and the check exists.
     A caller behind the source writes nothing and reports the newer version it finds;
     otherwise the next version is the latest one with the targeted check replaced.
     */
    method Run(input: RepairInput, probed: seq<Scored<string>>, source: Source) returns (outcome: Outcome)
      modifies source
      ensures var latest := old(Latest(source.inner, source.overrides, input.constraintId));
        outcome.Repaired? <==>
          Acceptable(probed, threshold) && latest.Ok? && input.checkIndex < |latest.value.spec.checks|
      ensures outcome.Failed? ==>
        IsBestScore(probed, outcome.bestScore) && source.overrides == old(source.overrides)
      ensures outcome.Repaired? ==> IsBestCandidate(probed, outcome.acceptedRewrite)
      ensures outcome.Repaired? ==>
        exists score :: EndsSolo(input, probed, source.inner, old(source.overrides), outcome, source.overrides, score)
      ensures outcome.Repaired? ==>
        var was := old(Latest(source.inner, source.overrides, input.constraintId)).value.spec;
        && (input.currentVersion < was.version ==>
          source.overrides == old(source.overrides) && outcome.newVersion == was.version)
        && (input.currentVersion >= was.version ==>
          && outcome.newVersion == was.version + 1
          && input.constraintId in source.overrides
          && source.overrides ==
             old(source.overrides)[input.constraintId := source.overrides[input.constraintId]]
          && ReplacesOneCheck(input, probed, was, outcome.acceptedRewrite, source.overrides[input.constraintId]))
    {
      if probed == [] {
        return Failed(0.0);
      }
      var bestScore, best := BestCandidate(probed);
      if bestScore < threshold {
        return Failed(bestScore);
      }
      if best.None? {
        return Failed(bestScore);
      }
      var loaded := source.LoadLatestVersioned(input.constraintId);
      if loaded.Err? {
        return Failed(bestScore);
      }
      var spec := loaded.value.spec;
      if input.checkIndex >= |spec.checks| {
        return Failed(bestScore);
      }
      var repaired := spec.(checks := spec.checks[input.checkIndex := best.value]);
      var provenance := ProvenanceOf(input, best.value, bestScore);
      var created := source.CreateNextVersion(input.constraintId, input.currentVersion, repaired, provenance);
      if created.Ok? {
        outcome := Repaired(created.value, best.value);
        assert EndsSolo(input, probed, source.inner, old(source.overrides), outcome, source.overrides, bestScore);
        return;
      }
      var reloaded := source.LoadLatestVersioned(input.constraintId);
      if reloaded.Err? {
        return Failed(bestScore);
      }
      if reloaded.value.spec.version > input.currentVersion {
        outcome := Repaired(reloaded.value.spec.version, best.value);
        assert EndsSolo(input, probed, source.inner, old(source.overrides), outcome, source.overrides, bestScore);
        return;
      }
      var retried := source.CreateNextVersion(input.constraintId, reloaded.value.spec.version, repaired, provenance);
      if retried.Err? {
        return Failed(bestScore);
      }
      outcome := Repaired(retried.value, best.value);
      assert EndsSolo(input, probed, source.inner, old(source.overrides), outcome, source.overrides, bestScore);
      return;
    }
  }

  // ---------------------------------------------------------------------------
  // Any number of repairs
  // ---------------------------------------------------------------------------

  /** The inner source, the overrides that exist before any call, and the calls. */
  datatype World = World(inner: Inner, before: Overrides, jobs: seq<Job>)

  datatype Phase =
    | Idle
    | Asked(current: nat)
    | Edited(current: nat, base: Spec)
    | Conflicted(current: nat, base: Spec)
    | Retrying(current: nat, base: Spec, reloaded: nat)
    | Done(current: nat, outcome: Outcome)

  /** `log` records, in order, the calls whose compare-and-set succeeded. */
  datatype State = State(overrides: Overrides, phases: seq<Phase>, log: seq<nat>)

  function Init(w: World): State {
    State(w.before, seq(|w.jobs|, _ => Idle), [])
  }

  function Now(w: World, s: State, id: string): Result<VersionedSpec, SourceError> {
    Latest(w.inner, s.overrides, id)
  }

  function To(s: State, c: nat, phase: Phase): State
    requires c < |s.phases|
  {
    s.(phases := s.phases[c := phase])
  }

  function Write(w: World, s: State, c: nat, current: nat, base: Spec, expected: nat): State
    requires c < |s.phases| == |w.jobs|
  {
    var job := w.jobs[c];
    State(Written(s.overrides, job.id, expected, Edit(base, job), job.provenance),
          s.phases[c := Done(current, Repaired(expected + 1, job.text))],
          s.log + [c])
  }

  /** The state after the next action of call c, once it has its `current_version`. */
  function Act(w: World, s: State, c: nat): State
    requires c < |s.phases| == |w.jobs|
  {
    var job := w.jobs[c];
    var now := Now(w, s, job.id);
    match s.phases[c]
    case Idle => s
    case Asked(current) =>
      if now.Ok? && job.checkIndex < |now.value.spec.checks|
      then To(s, c, Edited(current, now.value.spec))
      else To(s, c, Done(current, Failed(job.score)))
    case Edited(current, base) =>
      if CurrentVersion(w.inner, s.overrides, job.id) == current
      then Write(w, s, c, current, base, current)
      else To(s, c, Conflicted(current, base))
    case Conflicted(current, base) =>
      if now.Err? then To(s, c, Done(current, Failed(job.score)))
      else if now.value.spec.version > current
      then To(s, c, Done(current, Repaired(now.value.spec.version, job.text)))
      else To(s, c, Retrying(current, base, now.value.spec.version))
    case Retrying(current, base, reloaded) =>
      if CurrentVersion(w.inner, s.overrides, job.id) == reloaded
      then Write(w, s, c, current, base, reloaded)
      else To(s, c, Done(current, Failed(job.score)))
    case Done(_, _) => s
  }

  /**
   One atomic action of call c. A call starts with the version it was given; `honest` says
   that this is no newer than what the source had at that moment.
   */
  ghost predicate Step(w: World, honest: bool, s: State, next: State, c: nat) {
    && c < |s.phases| == |w.jobs|
    && if s.phases[c].Idle?
       then exists current :: Started(w, honest, s, next, c, current)
       else next == Act(w, s, c)
  }

  ghost predicate Started(w: World, honest: bool, s: State, next: State, c: nat, current: nat)
    requires c < |s.phases| == |w.jobs|
  {
    && (honest ==> current <= CurrentVersion(w.inner, s.overrides, w.jobs[c].id))
    && next == To(s, c, Asked(current))
  }

  ghost predicate Steps(w: World, honest: bool, s: State, next: State) {
    exists c: nat :: Step(w, honest, s, next, c)
  }

  ghost predicate IsRun(w: World, honest: bool, run: seq<State>) {
    && run != []
    && run[0] == Init(w)
    && forall i :: 0 < i < |run| ==> Steps(w, honest, run[i - 1], run[i])
  }

  ghost predicate Reachable(w: World, honest: bool, s: State) {
    exists run :: IsRun(w, honest, run) && run[|run| - 1] == s
  }

  // ---------------------------------------------------------------------------
  // The specification: one edit after another
  // ---------------------------------------------------------------------------

  /** The version after `was`: one check, the version and its provenance are all that changes. */
  function Next(was: Spec, job: Job): Spec {
    Edit(was, job).(version := was.version + 1, repairProvenance := Some(job.provenance))
  }

  /** The edits of the logged calls for one id, applied in order. */
  function Replay(origin: Spec, jobs: seq<Job>, log: seq<nat>, id: string): Spec {
    if log == [] then origin
    else
      var was := Replay(origin, jobs, log[..|log| - 1], id);
      var c := log[|log| - 1];
      if c < |jobs| && jobs[c].id == id then Next(was, jobs[c]) else was
  }

  lemma ReplayExtends(origin: Spec, jobs: seq<Job>, log: seq<nat>, id: string, c: nat)
    requires c < |jobs|
    ensures Replay(origin, jobs, log + [c], id)
      == if jobs[c].id == id then Next(Replay(origin, jobs, log, id), jobs[c]) else Replay(origin, jobs, log, id)
  {
    assert (log + [c])[..|log|] == log;
  }

  lemma {:induction false} ReplayKeepsShape(origin: Spec, jobs: seq<Job>, log: seq<nat>, id: string)
    ensures |Replay(origin, jobs, log, id).checks| == |origin.checks|
    ensures Replay(origin, jobs, log, id).version >= origin.version
    decreases |log|
  {
    if log != [] {
      ReplayKeepsShape(origin, jobs, log[..|log| - 1], id);
    }
  }

  /** Edits leave the id and the other fields alone; the provenance is that of the last of them. */
  lemma {:induction false} ReplayKeepsTheRest(origin: Spec, jobs: seq<Job>, log: seq<nat>, id: string)
    ensures var replayed := Replay(origin, jobs, log, id);
      && replayed.id == origin.id && replayed.rest == origin.rest
      && ((forall i :: 0 <= i < |log| ==> !Concerns(jobs, log[i], id)) ==>
        replayed.repairProvenance == origin.repairProvenance)
    ensures forall i: nat :: IsLastOf(jobs, log, id, i) ==>
      Replay(origin, jobs, log, id).repairProvenance == Some(jobs[log[i]].provenance)
    decreases |log|
  {
    if log != [] {
      var n := |log| - 1;
      ReplayKeepsTheRest(origin, jobs, log[..n], id);
      assert forall i :: 0 <= i < n ==> log[..n][i] == log[i];
      assert forall i: nat :: i < n && IsLastOf(jobs, log, id, i) ==> IsLastOf(jobs, log[..n], id, i);
    }
  }

  predicate Concerns(jobs: seq<Job>, c: nat, id: string) {
    c < |jobs| && jobs[c].id == id
  }

  ghost predicate IsLastOf(jobs: seq<Job>, log: seq<nat>, id: string, i: nat) {
    && i < |log| && Concerns(jobs, log[i], id)
    && forall j :: i < j < |log| ==> !Concerns(jobs, log[j], id)
  }

  // ---------------------------------------------------------------------------
  // What every step keeps
  // ---------------------------------------------------------------------------

  function Origin(w: World, id: string): Result<VersionedSpec, SourceError> {
    Latest(w.inner, w.before, id)
  }

  /** The latest spec of the id is the replay of the logged edits. */
  ghost predicate Tracks(w: World, s: State, id: string) {
    var origin, now := Origin(w, id), Now(w, s, id);
    if origin.Err? then now == origin
    else now.Ok? && now.value.spec == Replay(origin.value.spec, w.jobs, s.log, id)
  }

  /** What is known of a call, given the latest spec of its id. */
  ghost predicate PhaseIsSound(phase: Phase, job: Job, now: Result<VersionedSpec, SourceError>) {
    match phase
    case Idle => true
    case Asked(current) => now.Ok? ==> current <= now.value.spec.version
    case Edited(current, base) =>
      && now.Ok? && current <= base.version <= now.value.spec.version
      && job.checkIndex < |base.checks|
      && (base.version == now.value.spec.version ==> base == now.value.spec)
    case Conflicted(current, _) => now.Ok? && current < now.value.spec.version
    case Retrying(_, _, _) => false
    case Done(current, outcome) =>
      outcome.Repaired? ==> now.Ok? && current < outcome.newVersion <= now.value.spec.version
  }

  /** A logged call is finished, and the check it targets exists. */
  ghost predicate IsWriter(w: World, s: State, c: nat) {
    && c < |s.phases| == |w.jobs|
    && s.phases[c].Done? && s.phases[c].outcome.Repaired?
    && var origin := Origin(w, w.jobs[c].id); origin.Ok? && w.jobs[c].checkIndex < |origin.value.spec.checks|
  }

  ghost predicate LogIsSound(w: World, s: State) {
    && Distinct(s.log)
    && forall i :: 0 <= i < |s.log| ==> IsWriter(w, s, s.log[i])
  }

  ghost predicate CallIsSound(w: World, s: State, c: nat) {
    c < |s.phases| == |w.jobs| && PhaseIsSound(s.phases[c], w.jobs[c], Now(w, s, w.jobs[c].id))
  }

  ghost predicate Inv(w: World, s: State) {
    && |s.phases| == |w.jobs|
    && LogIsSound(w, s)
    && (forall id :: Tracks(w, s, id))
    && forall c: nat :: c < |w.jobs| ==> CallIsSound(w, s, c)
  }

  lemma InitIsSound(w: World)
    ensures Inv(w, Init(w))
  {
  }

  /** A step of call c that writes nothing keeps the invariant if it is sound for c itself. */
  lemma ReadingKeepsInv(w: World, s: State, c: nat, phase: Phase)
    requires Inv(w, s) && c < |w.jobs| && !s.phases[c].Done?
    requires PhaseIsSound(phase, w.jobs[c], Now(w, s, w.jobs[c].id))
    ensures Inv(w, To(s, c, phase))
  {
    hide PhaseIsSound, Latest, Replay, Distinct;
    var next := To(s, c, phase);
    forall id
      ensures Tracks(w, next, id)
    {
      assert Tracks(w, s, id);
    }
    forall d: nat | d < |w.jobs|
      ensures CallIsSound(w, next, d)
    {
      assert CallIsSound(w, s, d);
    }
    forall i | 0 <= i < |s.log|
      ensures IsWriter(w, next, s.log[i])
    {
      assert IsWriter(w, s, s.log[i]);
    }
  }

  /** A newer version of its id leaves every other call sound. */
  lemma PhaseStaysSound(
    phase: Phase, job: Job, now: Result<VersionedSpec, SourceError>, after: Result<VersionedSpec, SourceError>)
    requires PhaseIsSound(phase, job, now)
    requires now.Ok? && after.Ok? && after.value.spec.version > now.value.spec.version
    ensures PhaseIsSound(phase, job, after)
  {
  }

  /** The compare-and-set succeeds only on the spec that was edited, so the write extends the replay. */
  lemma WritingTracks(w: World, s: State, c: nat, current: nat, base: Spec, id: string)
    requires c < |s.phases| == |w.jobs| && Tracks(w, s, id) && Tracks(w, s, w.jobs[c].id)
    requires var now := Now(w, s, w.jobs[c].id); now.Ok? && base == now.value.spec && base.version == current
    ensures Tracks(w, Write(w, s, c, current, base, current), id)
  {
    hide Replay, SetCheck;
    var origin := Origin(w, id);
    if origin.Ok? {
      ReplayExtends(origin.value.spec, w.jobs, s.log, id, c);
    }
  }

  lemma WritingKeepsInv(w: World, s: State, c: nat, current: nat, base: Spec)
    requires Inv(w, s) && c < |w.jobs| && s.phases[c] == Edited(current, base)
    requires CurrentVersion(w.inner, s.overrides, w.jobs[c].id) == current
    ensures Inv(w, Write(w, s, c, current, base, current))
  {
    var job := w.jobs[c];
    var next := Write(w, s, c, current, base, current);
    var now := Now(w, s, job.id);
    assert CallIsSound(w, s, c);
    assert base == now.value.spec && base.version == current;
    WritingIsLogged(w, s, c, current, base);
    hide PhaseIsSound, Latest, Replay, Distinct, IsWriter;
    forall id
      ensures Tracks(w, next, id)
    {
      assert Tracks(w, s, id) && Tracks(w, s, job.id);
      WritingTracks(w, s, c, current, base, id);
    }
    forall d: nat | d < |w.jobs|
      ensures CallIsSound(w, next, d)
    {
      assert CallIsSound(w, s, d);
      WritingKeepsCall(w, s, c, current, base, d);
    }
  }

  lemma WritingIsLogged(w: World, s: State, c: nat, current: nat, base: Spec)
    requires Inv(w, s) && c < |w.jobs| && s.phases[c] == Edited(current, base)
    requires var now := Now(w, s, w.jobs[c].id); now.Ok? && base == now.value.spec && base.version == current
    ensures LogIsSound(w, Write(w, s, c, current, base, current))
  {
    hide Latest, Replay;
    var next := Write(w, s, c, current, base, current);
    var id := w.jobs[c].id;
    assert Tracks(w, s, id) && CallIsSound(w, s, c);
    ReplayKeepsShape(Origin(w, id).value.spec, w.jobs, s.log, id);
    forall i | 0 <= i < |s.log|
      ensures s.log[i] != c && IsWriter(w, next, s.log[i])
    {
      assert IsWriter(w, s, s.log[i]);
    }
    assert IsWriter(w, next, c);
  }

  lemma WritingKeepsCall(w: World, s: State, c: nat, current: nat, base: Spec, d: nat)
    requires c < |s.phases| == |w.jobs| && d < |w.jobs| && CallIsSound(w, s, d)
    requires var now := Now(w, s, w.jobs[c].id); now.Ok? && base == now.value.spec && base.version == current
    ensures CallIsSound(w, Write(w, s, c, current, base, current), d)
  {
    hide SetCheck;
    var next := Write(w, s, c, current, base, current);
    if d != c && w.jobs[d].id == w.jobs[c].id {
      PhaseStaysSound(s.phases[d], w.jobs[d], Now(w, s, w.jobs[d].id), Now(w, next, w.jobs[d].id));
    }
  }

  lemma StepKeepsInv(w: World, s: State, next: State, c: nat)
    requires Inv(w, s) && Step(w, true, s, next, c)
    ensures Inv(w, next)
  {
    hide Latest, Replay, Tracks, LogIsSound, Write;
    assert CallIsSound(w, s, c);
    if s.phases[c].Idle? {
      var current :| Started(w, true, s, next, c, current);
      ReadingKeepsInv(w, s, c, Asked(current));
    } else if s.phases[c].Edited?
              && CurrentVersion(w.inner, s.overrides, w.jobs[c].id) == s.phases[c].current {
      WritingKeepsInv(w, s, c, s.phases[c].current, s.phases[c].base);
    } else if s.phases[c].Done? {
    } else {
      ReadingKeepsInv(w, s, c, next.phases[c]);
    }
  }

  lemma {:induction false} RunsKeepInv(w: World, run: seq<State>)
    requires IsRun(w, true, run)
    ensures Inv(w, run[|run| - 1])
    decreases |run|
  {
    hide Step, Inv, Init;
    var n := |run| - 1;
    if n == 0 {
      InitIsSound(w);
    } else {
      assert run[..n][n - 1] == run[n - 1];
      forall i | 0 < i < n
        ensures Steps(w, true, run[..n][i - 1], run[..n][i])
      {
        assert Steps(w, true, run[i - 1], run[i]);
      }
      RunsKeepInv(w, run[..n]);
      assert Steps(w, true, run[n - 1], run[n]);
      var c: nat :| Step(w, true, run[n - 1], run[n], c);
      StepKeepsInv(w, run[n - 1], run[n], c);
    }
  }

  lemma ReachableIsSound(w: World, s: State)
    requires Reachable(w, true, s)
    ensures Inv(w, s)
  {
    hide Inv, Init, Steps;
    var run :| IsRun(w, true, run) && run[|run| - 1] == s;
    RunsKeepInv(w, run);
  }

  // ---------------------------------------------------------------------------
  // No edit is lost
  // ---------------------------------------------------------------------------

  /**
   In every interleaving the stored spec of each id is the original with all successful edits
   applied one after the other, each call's at most once.
   */
  lemma NoEditIsLost(w: World, s: State, id: string)
    requires Reachable(w, true, s)
    ensures Distinct(s.log) && forall i :: 0 <= i < |s.log| ==> IsWriter(w, s, s.log[i])
    ensures Now(w, s, id).Ok? <==> Origin(w, id).Ok?
    ensures Origin(w, id).Ok? ==>
      Now(w, s, id).value.spec == Replay(Origin(w, id).value.spec, w.jobs, s.log, id)
  {
    hide Reachable, Replay, Latest, Distinct, IsWriter;
    ReachableIsSound(w, s);
    assert Tracks(w, s, id);
  }

  /** The calls of one id among the logged ones. */
  function Edits(jobs: seq<Job>, log: seq<nat>, id: string): nat {
    if log == [] then 0
    else
      var c := log[|log| - 1];
      Edits(jobs, log[..|log| - 1], id) + if c < |jobs| && jobs[c].id == id then 1 else 0
  }

  /** Versions of an id advance by exactly one per successful call. */
  lemma {:induction false} VersionsCountEdits(origin: Spec, jobs: seq<Job>, log: seq<nat>, id: string)
    ensures Replay(origin, jobs, log, id).version == origin.version + Edits(jobs, log, id)
    decreases |log|
  {
    if log != [] {
      VersionsCountEdits(origin, jobs, log[..|log| - 1], id);
    }
  }

  /** The i-th logged call wrote version v of the id. */
  ghost predicate Creates(origin: Spec, jobs: seq<Job>, log: seq<nat>, id: string, i: nat, v: nat) {
    && i < |log| && log[i] < |jobs| && jobs[log[i]].id == id
    && Replay(origin, jobs, log[..i + 1], id).version == v
  }

  lemma {:induction false} SomeoneCreates(origin: Spec, jobs: seq<Job>, log: seq<nat>, id: string, v: nat)
      returns (i: nat)
    requires origin.version < v <= Replay(origin, jobs, log, id).version
    ensures Creates(origin, jobs, log, id, i, v)
    decreases |log|
  {
    var n := |log| - 1;
    var c := log[n];
    if c < |jobs| && jobs[c].id == id && Replay(origin, jobs, log, id).version == v {
      assert log[..n + 1] == log;
      i := n;
    } else {
      i := SomeoneCreates(origin, jobs, log[..n], id, v);
      assert log[..n][..i + 1] == log[..i + 1];
    }
  }

  lemma {:induction false} ReplayGrows(origin: Spec, jobs: seq<Job>, log: seq<nat>, id: string, i: nat)
    requires i <= |log|
    ensures Replay(origin, jobs, log[..i], id).version <= Replay(origin, jobs, log, id).version
    decreases |log|
  {
    if i < |log| {
      var n := |log| - 1;
      ReplayGrows(origin, jobs, log[..n], id, i);
      assert log[..n][..i] == log[..i];
    } else {
      assert log[..i] == log;
    }
  }

  lemma LaterCreatesMore(origin: Spec, jobs: seq<Job>, log: seq<nat>, id: string, i: nat, j: nat, v: nat, u: nat)
    requires i < j && Creates(origin, jobs, log, id, i, v) && Creates(origin, jobs, log, id, j, u)
    ensures v < u
  {
    ReplayGrows(origin, jobs, log[..j], id, i + 1);
    assert log[..j][..i + 1] == log[..i + 1];
    assert log[..j + 1] == log[..j] + [log[j]];
    ReplayExtends(origin, jobs, log[..j], id, log[j]);
  }

  /** Every version above the original has exactly one creator. */
  lemma EveryVersionHasOneCreator(w: World, s: State, id: string, v: nat)
    requires Reachable(w, true, s) && Origin(w, id).Ok? && Now(w, s, id).Ok?
    requires Origin(w, id).value.spec.version < v <= Now(w, s, id).value.spec.version
    ensures var origin := Origin(w, id).value.spec;
      && (exists i: nat :: Creates(origin, w.jobs, s.log, id, i, v))
      && forall i: nat, j: nat ::
        Creates(origin, w.jobs, s.log, id, i, v) && Creates(origin, w.jobs, s.log, id, j, v) ==> i == j
  {
    hide Reachable, Replay, Latest, Creates;
    NoEditIsLost(w, s, id);
    var origin := Origin(w, id).value.spec;
    var i := SomeoneCreates(origin, w.jobs, s.log, id, v);
    forall i: nat, j: nat | Creates(origin, w.jobs, s.log, id, i, v) && Creates(origin, w.jobs, s.log, id, j, v)
      ensures i == j
    {
      if i < j {
        LaterCreatesMore(origin, w.jobs, s.log, id, i, j, v, v);
      } else if j < i {
        LaterCreatesMore(origin, w.jobs, s.log, id, j, i, v, v);
      }
    }
  }

  /** Call c targets check k of the id. */
  predicate Targets(jobs: seq<Job>, c: nat, id: string, k: nat) {
    c < |jobs| && jobs[c].id == id && jobs[c].checkIndex == k
  }

  ghost predicate IsLastEdit(jobs: seq<Job>, log: seq<nat>, id: string, k: nat, i: nat) {
    && i < |log| && Targets(jobs, log[i], id, k)
    && forall j :: i < j < |log| ==> !Targets(jobs, log[j], id, k)
  }

  /** Each check reads as its last successful edit left it, or as in the original if it has none. */
  lemma {:induction false} ChecksHoldTheirLastEdit(origin: Spec, jobs: seq<Job>, log: seq<nat>, id: string, k: nat)
    requires k < |origin.checks|
    ensures |Replay(origin, jobs, log, id).checks| == |origin.checks|
    ensures (forall i :: 0 <= i < |log| ==> !Targets(jobs, log[i], id, k)) ==>
      Replay(origin, jobs, log, id).checks[k] == origin.checks[k]
    ensures forall i :: 0 <= i < |log| && IsLastEdit(jobs, log, id, k, i) ==>
      Replay(origin, jobs, log, id).checks[k] == jobs[log[i]].text
    decreases |log|
  {
    ReplayKeepsShape(origin, jobs, log, id);
    if log != [] {
      var n := |log| - 1;
      ChecksHoldTheirLastEdit(origin, jobs, log[..n], id, k);
      assert forall i :: 0 <= i < n ==> log[..n][i] == log[i];
    }
  }

  /**
   Every `Repaired(v)` names a version above the caller's, and one that some call wrote
   unless the caller started below the original.
   */
  lemma RepairedIsNewer(w: World, s: State, c: nat)
    requires Reachable(w, true, s) && c < |s.phases| && s.phases[c].Done? && s.phases[c].outcome.Repaired?
    ensures c < |w.jobs| && Now(w, s, w.jobs[c].id).Ok? && Origin(w, w.jobs[c].id).Ok?
    ensures s.phases[c].current < s.phases[c].outcome.newVersion <= Now(w, s, w.jobs[c].id).value.spec.version
    ensures var origin := Origin(w, w.jobs[c].id).value.spec;
      origin.version <= s.phases[c].current ==>
        exists i: nat :: Creates(origin, w.jobs, s.log, w.jobs[c].id, i, s.phases[c].outcome.newVersion)
  {
    hide Reachable, Replay, Latest, LogIsSound, Creates;
    ReachableIsSound(w, s);
    assert CallIsSound(w, s, c) && Tracks(w, s, w.jobs[c].id);
    if Origin(w, w.jobs[c].id).value.spec.version <= s.phases[c].current {
      EveryVersionHasOneCreator(w, s, w.jobs[c].id, s.phases[c].outcome.newVersion);
    }
  }

  /** With versions read from the source, nobody reaches the second compare-and-set. */
  lemma RetryIsUnreachable(w: World, s: State, c: nat)
    requires Reachable(w, true, s) && c < |s.phases|
    ensures !s.phases[c].Retrying?
  {
    hide Reachable, Replay, Latest, LogIsSound, Tracks;
    ReachableIsSound(w, s);
    assert CallIsSound(w, s, c);
  }

  lemma ReachableStep(w: World, honest: bool, s: State, next: State, c: nat)
    requires Reachable(w, honest, s) && Step(w, honest, s, next, c)
    ensures Reachable(w, honest, next)
  {
    hide Init, Step;
    var run :| IsRun(w, honest, run) && run[|run| - 1] == s;
    var longer := run + [next];
    assert Steps(w, honest, run[|run| - 1], next);
    forall i | 0 < i < |longer|
      ensures Steps(w, honest, longer[i - 1], longer[i])
    {
      if i < |run| {
        assert Steps(w, honest, run[i - 1], run[i]);
      }
    }
    assert IsRun(w, honest, longer) && longer[|longer| - 1] == next;
  }

  /** Two repairs of different checks of one fresh spec. */
  function TwoRepairs(was: Spec, first: Job, second: Job): World {
    World(Ok([was]), map[], [first, second])
  }

  /** Call c was given version v. */
  ghost predicate Given(s: State, c: nat, v: nat) {
    c < |s.phases| && !s.phases[c].Idle? && s.phases[c].current == v
  }

  /** The stored spec lacks a successful edit. */
  ghost predicate LosesAnEdit(w: World, s: State, id: string) {
    && Origin(w, id).Ok? && Now(w, s, id).Ok?
    && Now(w, s, id).value.spec.checks != Replay(Origin(w, id).value.spec, w.jobs, s.log, id).checks
  }

  /** The other repair finishes while a caller that is ahead of the source holds the spec it loaded. */
  lemma LoadThenRival(was: Spec, first: Job, second: Job, ahead: nat) returns (s: State)
    requires first.id == second.id == was.id
    requires first.checkIndex < |was.checks| && second.checkIndex < |was.checks|
    ensures var w := TwoRepairs(was, first, second);
      && Reachable(w, false, s) && |s.phases| == 2 && s.log == [1]
      && s.phases[0] == Edited(ahead, was) && Given(s, 1, was.version)
      && Now(w, s, was.id).Ok? && Now(w, s, was.id).value.spec.version == was.version + 1
  {
    var w := TwoRepairs(was, first, second);
    assert Find([was], was.id) == Some(was) by {
      FindIsFirst([was], 0);
    }
    s := Init(w);
    assert IsRun(w, false, [s]) && [s][|[s]| - 1] == s;
    assert Reachable(w, false, s);
    hide Reachable, Find;
    s := Advance(w, s, 0, ahead);
    s := Advance(w, s, 0, 0);
    assert s.phases[0] == Edited(ahead, was);
    s := Advance(w, s, 1, was.version);
    s := Advance(w, s, 1, 0);
    assert s.phases[1] == Edited(was.version, was);
    s := Advance(w, s, 1, 0);
  }

  /**
   A caller given any version newer than the source's can overwrite another's edit: it loads, the
   other repair finishes, and the older text is written, by the first compare-and-set if the source
   has come up to the caller's version, and otherwise by the second.
   */
  lemma CallerAheadLosesAnEdit(was: Spec, first: Job, second: Job, ahead: nat) returns (s: State)
    requires first.id == second.id == was.id
    requires first.checkIndex < |was.checks| && second.checkIndex < |was.checks| && ahead > was.version
    ensures var w := TwoRepairs(was, first, second);
      && Reachable(w, false, s) && s.log == [1, 0]
      && Given(s, 0, ahead) && Given(s, 1, was.version)
      && Now(w, s, was.id).Ok?
      && Now(w, s, was.id).value.spec.checks == was.checks[first.checkIndex := first.text]
  {
    var w := TwoRepairs(was, first, second);
    s := LoadThenRival(was, first, second, ahead);
    hide Reachable, Find;
    s := Advance(w, s, 0, 0);
    if ahead > was.version + 1 {
      assert s.phases[0] == Conflicted(ahead, was);
      s := Advance(w, s, 0, 0);
      assert s.phases[0] == Retrying(ahead, was, was.version + 1);
      s := Advance(w, s, 0, 0);
    }
  }

  lemma Advance(w: World, s: State, c: nat, current: nat) returns (next: State)
    requires Reachable(w, false, s) && c < |s.phases| == |w.jobs|
    ensures Reachable(w, false, next) && |next.phases| == |w.jobs|
    ensures next == if s.phases[c].Idle? then To(s, c, Asked(current)) else Act(w, s, c)
  {
    hide Reachable, Act;
    next := if s.phases[c].Idle? then To(s, c, Asked(current)) else Act(w, s, c);
    assert s.phases[c].Idle? ==> Started(w, false, s, next, c, current);
    ReachableStep(w, false, s, next, c);
    ActKeepsSize(w, s, c);
  }

  lemma ActKeepsSize(w: World, s: State, c: nat)
    requires c < |s.phases| == |w.jobs|
    ensures |Act(w, s, c).phases| == |s.phases|
  {
    hide Latest, Written;
  }

  // ---------------------------------------------------------------------------
  // Exactly when an edit can be lost
  // ---------------------------------------------------------------------------

  lemma StepKeepsVersions(w: World, s: State, next: State, c: nat, id: string)
    requires Step(w, false, s, next, c)
    ensures CurrentVersion(w.inner, s.overrides, id) <= CurrentVersion(w.inner, next.overrides, id)
  {
    hide Edit, Find;
  }

  lemma StepKeepsGiven(w: World, s: State, next: State, c: nat, d: nat, v: nat)
    requires Step(w, false, s, next, c) && Given(s, d, v)
    ensures Given(next, d, v)
  {
    hide Latest, Written, CurrentVersion;
  }

  /** Every call that has started was given a version no newer than the original. */
  ghost predicate GivenOld(w: World, s: State) {
    && |s.phases| == |w.jobs|
    && forall c: nat :: c < |s.phases| && !s.phases[c].Idle? ==>
      s.phases[c].current <= CurrentVersion(w.inner, w.before, w.jobs[c].id)
  }

  lemma OldStepIsHonest(w: World, s: State, next: State, c: nat)
    requires Step(w, false, s, next, c) && GivenOld(w, next)
    requires forall id :: CurrentVersion(w.inner, w.before, id) <= CurrentVersion(w.inner, s.overrides, id)
    ensures GivenOld(w, s) && Step(w, true, s, next, c)
  {
    hide Act, CurrentVersion;
    forall d: nat | d < |s.phases| && !s.phases[d].Idle?
      ensures s.phases[d].current <= CurrentVersion(w.inner, w.before, w.jobs[d].id)
    {
      StepKeepsGiven(w, s, next, c, d, s.phases[d].current);
    }
    if s.phases[c].Idle? {
      var current :| Started(w, false, s, next, c, current);
      assert next.phases[c] == Asked(current);
      assert Started(w, true, s, next, c, current);
    }
  }

  lemma {:induction false} OldRunIsHonest(w: World, run: seq<State>)
    requires IsRun(w, false, run) && GivenOld(w, run[|run| - 1])
    ensures IsRun(w, true, run)
    ensures forall id ::
      CurrentVersion(w.inner, w.before, id) <= CurrentVersion(w.inner, run[|run| - 1].overrides, id)
    decreases |run|
  {
    hide Step, GivenOld, CurrentVersion;
    var n := |run| - 1;
    if n > 0 {
      assert Steps(w, false, run[n - 1], run[n]);
      var c: nat :| Step(w, false, run[n - 1], run[n], c);
      PrefixIsRun(w, false, run, n);
      RunKeepsVersions(w, run[..n]);
      OldStepIsHonest(w, run[n - 1], run[n], c);
      OldRunIsHonest(w, run[..n]);
      forall i | 0 < i <= n
        ensures Steps(w, true, run[i - 1], run[i])
      {
        if i < n {
          assert Steps(w, true, run[..n][i - 1], run[..n][i]);
        }
      }
    }
    RunKeepsVersions(w, run);
  }

  lemma PrefixIsRun(w: World, honest: bool, run: seq<State>, n: nat)
    requires IsRun(w, honest, run) && 0 < n <= |run|
    ensures IsRun(w, honest, run[..n]) && run[..n][n - 1] == run[n - 1]
  {
    hide Steps, Init;
    forall i | 0 < i < n
      ensures Steps(w, honest, run[..n][i - 1], run[..n][i])
    {
      assert Steps(w, honest, run[i - 1], run[i]);
    }
  }

  lemma {:induction false} RunKeepsVersions(w: World, run: seq<State>)
    requires IsRun(w, false, run)
    ensures forall id ::
      CurrentVersion(w.inner, w.before, id) <= CurrentVersion(w.inner, run[|run| - 1].overrides, id)
    decreases |run|
  {
    hide Step, CurrentVersion;
    var n := |run| - 1;
    if n > 0 {
      PrefixIsRun(w, false, run, n);
      RunKeepsVersions(w, run[..n]);
      assert Steps(w, false, run[n - 1], run[n]);
      var c: nat :| Step(w, false, run[n - 1], run[n], c);
      forall id
        ensures CurrentVersion(w.inner, run[n - 1].overrides, id) <= CurrentVersion(w.inner, run[n].overrides, id)
      {
        StepKeepsVersions(w, run[n - 1], run[n], c, id);
      }
    }
  }

  /** In any world, calls given versions no newer than the original lose nothing. */
  lemma OldVersionsLoseNothing(w: World, s: State, id: string)
    requires Reachable(w, false, s) && GivenOld(w, s)
    ensures !LosesAnEdit(w, s, id)
  {
    hide Steps, Init, GivenOld, Replay, Latest;
    var run :| IsRun(w, false, run) && run[|run| - 1] == s;
    OldRunIsHonest(w, run);
    NoEditIsLost(w, s, id);
  }

  /** Beside a repair given the current version, another's edit can be lost iff a version given is newer. */
  lemma EditCanBeLostIffAhead(was: Spec, first: Job, second: Job, ahead: nat)
    requires first.id == second.id == was.id && first.checkIndex != second.checkIndex
    requires first.checkIndex < |was.checks| && second.checkIndex < |was.checks|
    requires second.text != was.checks[second.checkIndex]
    ensures var w := TwoRepairs(was, first, second);
      ahead > was.version <==>
        exists s ::
          && Reachable(w, false, s) && Given(s, 0, ahead) && Given(s, 1, was.version)
          && LosesAnEdit(w, s, was.id)
  {
    var w := TwoRepairs(was, first, second);
    assert Find([was], was.id) == Some(was) by {
      FindIsFirst([was], 0);
    }
    hide Reachable, Find, Replay;
    if ahead > was.version {
      var s := CallerAheadLosesAnEdit(was, first, second, ahead);
      ReplayOfTwo(was, w.jobs, was.id, second.checkIndex);
      assert Origin(w, was.id) == Ok(VersionedSpec(was, None));
      assert Now(w, s, was.id).value.spec.checks[second.checkIndex] != second.text;
      assert LosesAnEdit(w, s, was.id);
    } else {
      forall s | Reachable(w, false, s) && Given(s, 0, ahead) && Given(s, 1, was.version)
        ensures !LosesAnEdit(w, s, was.id)
      {
        ReachableSize(w, s);
        assert GivenOld(w, s);
        OldVersionsLoseNothing(w, s, was.id);
      }
    }
  }

  /** Both edits of the log show in its replay. */
  lemma ReplayOfTwo(was: Spec, jobs: seq<Job>, id: string, k: nat)
    requires |jobs| == 2 && jobs[0].id == jobs[1].id == id && k < |was.checks|
    requires jobs[0].checkIndex != k && jobs[1].checkIndex == k
    ensures var replayed := Replay(was, jobs, [1, 0], id);
      |replayed.checks| == |was.checks| && replayed.checks[k] == jobs[1].text
  {
    ChecksHoldTheirLastEdit(was, jobs, [1, 0], id, k);
    assert IsLastEdit(jobs, [1, 0], id, k, 0);
  }

  lemma ReachableSize(w: World, s: State)
    requires Reachable(w, false, s)
    ensures |s.phases| == |w.jobs|
  {
    hide Step;
    var run :| IsRun(w, false, run) && run[|run| - 1] == s;
    if |run| > 1 {
      var n := |run| - 1;
      assert Steps(w, false, run[n - 1], run[n]);
      var c: nat :| Step(w, false, run[n - 1], run[n], c);
      StepKeepsSize(w, run[n - 1], run[n], c);
    }
  }

  lemma StepKeepsSize(w: World, s: State, next: State, c: nat)
    requires Step(w, false, s, next, c)
    ensures |next.phases| == |w.jobs|
  {
    hide Act;
    if s.phases[c].Idle? {
      var current :| Started(w, false, s, next, c, current);
    } else {
      ActKeepsSize(w, s, c);
    }
  }

  // ---------------------------------------------------------------------------
  // What no repair touches
  // ---------------------------------------------------------------------------

  /** The id, the number of checks and the other fields are those of the original. */
  predicate SameButChecks(spec: Spec, origin: Spec) {
    spec.id == origin.id && |spec.checks| == |origin.checks| && spec.rest == origin.rest
  }

  /** The spec a call works on differs from the original in checks, version and provenance at most. */
  ghost predicate HoldsVariant(w: World, job: Job, phase: Phase) {
    phase.Edited? || phase.Conflicted? || phase.Retrying? ==>
      Origin(w, job.id).Ok? && SameButChecks(phase.base, Origin(w, job.id).value.spec)
  }

  ghost predicate StoresVariant(w: World, s: State, id: string) {
    var origin, now := Origin(w, id), Now(w, s, id);
    if origin.Err? then now == origin else now.Ok? && SameButChecks(now.value.spec, origin.value.spec)
  }

  ghost predicate Variants(w: World, s: State) {
    && |s.phases| == |w.jobs|
    && (forall id :: StoresVariant(w, s, id))
    && forall c: nat :: c < |w.jobs| ==> HoldsVariant(w, w.jobs[c], s.phases[c])
  }

  lemma MovingKeepsVariants(w: World, s: State, c: nat, phase: Phase)
    requires Variants(w, s) && c < |w.jobs| && HoldsVariant(w, w.jobs[c], phase)
    ensures Variants(w, To(s, c, phase))
  {
    hide HoldsVariant, Latest, SameButChecks;
    forall id
      ensures StoresVariant(w, To(s, c, phase), id)
    {
      assert StoresVariant(w, s, id);
    }
  }

  lemma WritingKeepsVariants(w: World, s: State, c: nat, current: nat, base: Spec, expected: nat)
    requires Variants(w, s) && c < |w.jobs|
    requires Origin(w, w.jobs[c].id).Ok? && SameButChecks(base, Origin(w, w.jobs[c].id).value.spec)
    ensures Variants(w, Write(w, s, c, current, base, expected))
  {
    var next := Write(w, s, c, current, base, expected);
    hide HoldsVariant;
    assert HoldsVariant(w, w.jobs[c], next.phases[c]) by {
      DoneHoldsNothing(w, w.jobs[c], next.phases[c]);
    }
    forall id
      ensures StoresVariant(w, next, id)
    {
      assert StoresVariant(w, s, id);
    }
  }

  lemma DoneHoldsNothing(w: World, job: Job, phase: Phase)
    requires phase.Done?
    ensures HoldsVariant(w, job, phase)
  {
  }

  lemma StepKeepsVariants(w: World, honest: bool, s: State, next: State, c: nat)
    requires Variants(w, s) && Step(w, honest, s, next, c)
    ensures Variants(w, next)
  {
    hide Variants, Write, SameButChecks, Latest;
    assert HoldsVariant(w, w.jobs[c], s.phases[c]) && StoresVariant(w, s, w.jobs[c].id) by {
      VariantsOf(w, s, c);
    }
    match s.phases[c]
    case Idle =>
      var current :| Started(w, honest, s, next, c, current);
      MovingKeepsVariants(w, s, c, Asked(current));
    case Asked(_) => MovingKeepsVariants(w, s, c, next.phases[c]);
    case Edited(current, base) =>
      if CurrentVersion(w.inner, s.overrides, w.jobs[c].id) == current {
        WritingKeepsVariants(w, s, c, current, base, current);
      } else {
        MovingKeepsVariants(w, s, c, next.phases[c]);
      }
    case Conflicted(_, _) => MovingKeepsVariants(w, s, c, next.phases[c]);
    case Retrying(current, base, reloaded) =>
      if CurrentVersion(w.inner, s.overrides, w.jobs[c].id) == reloaded {
        WritingKeepsVariants(w, s, c, current, base, reloaded);
      } else {
        MovingKeepsVariants(w, s, c, next.phases[c]);
      }
    case Done(_, _) =>
  }

  lemma VariantsOf(w: World, s: State, c: nat)
    requires Variants(w, s) && c < |w.jobs|
    ensures |s.phases| == |w.jobs|
    ensures HoldsVariant(w, w.jobs[c], s.phases[c]) && StoresVariant(w, s, w.jobs[c].id)
  {
    hide HoldsVariant, StoresVariant;
  }

  lemma {:induction false} RunsKeepVariants(w: World, honest: bool, run: seq<State>)
    requires IsRun(w, honest, run)
    ensures Variants(w, run[|run| - 1])
    decreases |run|
  {
    hide Step;
    var n := |run| - 1;
    if n > 0 {
      hide Variants, Init;
      PrefixIsRun(w, honest, run, n);
      RunsKeepVariants(w, honest, run[..n]);
      assert Steps(w, honest, run[n - 1], run[n]);
      var c: nat :| Step(w, honest, run[n - 1], run[n], c);
      StepKeepsVariants(w, honest, run[n - 1], run[n], c);
    }
  }

  /** A call that reports success has written, or reports a version newer than the one it was given. */
  ghost predicate IsEarned(s: State, c: nat) {
    c < |s.phases| && s.phases[c].Done? && s.phases[c].outcome.Repaired? ==>
      c in s.log || s.phases[c].current < s.phases[c].outcome.newVersion
  }

  ghost predicate AllEarned(s: State) {
    forall c: nat :: IsEarned(s, c)
  }

  lemma StepKeepsEarned(w: World, honest: bool, s: State, next: State, c: nat)
    requires Step(w, honest, s, next, c) && AllEarned(s)
    ensures AllEarned(next)
  {
    hide Latest, Written, Edit, CurrentVersion;
    forall d: nat
      ensures IsEarned(next, d)
    {
      assert IsEarned(s, d);
    }
  }

  lemma {:induction false} RunsKeepEarned(w: World, honest: bool, run: seq<State>)
    requires IsRun(w, honest, run)
    ensures AllEarned(run[|run| - 1])
    decreases |run|
  {
    hide Step;
    var n := |run| - 1;
    if n > 0 {
      hide AllEarned, Init;
      PrefixIsRun(w, honest, run, n);
      RunsKeepEarned(w, honest, run[..n]);
      assert Steps(w, honest, run[n - 1], run[n]);
      var c: nat :| Step(w, honest, run[n - 1], run[n], c);
      StepKeepsEarned(w, honest, run[n - 1], run[n], c);
    }
  }

  /** Whatever versions the calls are given, success means an edit of one's own or a newer version. */
  lemma RepairedIsEarned(w: World, honest: bool, s: State, c: nat)
    requires Reachable(w, honest, s) && c < |s.phases| && s.phases[c].Done? && s.phases[c].outcome.Repaired?
    ensures c in s.log || s.phases[c].current < s.phases[c].outcome.newVersion
  {
    hide Steps, Init;
    var run :| IsRun(w, honest, run) && run[|run| - 1] == s;
    RunsKeepEarned(w, honest, run);
    assert IsEarned(s, c);
  }

  /** Whatever versions the calls are given, the stored spec keeps the original's id and other fields. */
  lemma RepairsTouchOnlyChecks(w: World, honest: bool, s: State, id: string)
    requires Reachable(w, honest, s) && Origin(w, id).Ok?
    ensures Now(w, s, id).Ok?
    ensures var spec, origin := Now(w, s, id).value.spec, Origin(w, id).value.spec;
      spec.id == origin.id && |spec.checks| == |origin.checks| && spec.rest == origin.rest
  {
    hide Steps, Init, Latest;
    var run :| IsRun(w, honest, run) && run[|run| - 1] == s;
    RunsKeepVariants(w, honest, run);
    assert StoresVariant(w, s, id);
  }

  // ---------------------------------------------------------------------------
  // A repair on its own
  // ---------------------------------------------------------------------------

  /** The steps of a single repair end in the outcome and the overrides of `Solo`. */
  lemma SoloRunIsSolo(w: World, current: nat) returns (s: State)
    requires |w.jobs| == 1
    ensures Reachable(w, false, s) && |s.phases| == 1
    ensures var solo := Solo(w.inner, w.before, w.jobs[0], current);
      s.phases[0] == Done(current, solo.0) && s.overrides == solo.1
  {
    var latest := Latest(w.inner, w.before, w.jobs[0].id);
    s := SoloLoads(w, current);
    hide Reachable, Latest;
    if s.phases[0].Edited? {
      s := SoloWrites(w, s, current, latest.value.spec);
    }
  }

  lemma SoloLoads(w: World, current: nat) returns (s: State)
    requires |w.jobs| == 1
    ensures Reachable(w, false, s) && |s.phases| == 1 && s.overrides == w.before
    ensures var latest := Latest(w.inner, w.before, w.jobs[0].id);
      s.phases[0] ==
        if latest.Ok? && w.jobs[0].checkIndex < |latest.value.spec.checks|
        then Edited(current, latest.value.spec)
        else Done(current, Failed(w.jobs[0].score))
  {
    hide Latest;
    s := Init(w);
    assert IsRun(w, false, [s]) && [s][|[s]| - 1] == s;
    assert Reachable(w, false, s);
    hide Reachable;
    s := Advance(w, s, 0, current);
    s := Advance(w, s, 0, 0);
  }

  lemma SoloWrites(w: World, before: State, current: nat, was: Spec) returns (s: State)
    requires Reachable(w, false, before) && |before.phases| == |w.jobs| == 1
    requires before.phases[0] == Edited(current, was)
    requires var now := Now(w, before, w.jobs[0].id); now.Ok? && now.value.spec == was
    ensures Reachable(w, false, s) && |s.phases| == 1
    ensures current < was.version ==>
      s.phases[0] == Done(current, Repaired(was.version, w.jobs[0].text)) && s.overrides == before.overrides
    ensures current >= was.version ==>
      && s.phases[0] == Done(current, Repaired(was.version + 1, w.jobs[0].text))
      && s.overrides ==
        Written(before.overrides, w.jobs[0].id, was.version, Edit(was, w.jobs[0]), w.jobs[0].provenance)
  {
    hide Reachable, Latest, Written;
    s := Advance(w, before, 0, 0);
    if current != was.version {
      s := Advance(w, s, 0, 0);
      if current > was.version {
        s := Advance(w, s, 0, 0);
      }
    }
  }
}
