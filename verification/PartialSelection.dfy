/**
 Greedy set-cover selection of partially passing proposals.

 `SelectOrthogonalPartials` is the loop of the source. `IsGreedyRun` says, without a
 loop, what a run of it is; the coverage guarantee is proved about that relation.
 */
module PartialSelection {
  import opened Arithmetic
  import opened Collections
  import opened Wrappers
  import opened Events

  datatype CheckResult = CheckResult(index: nat, text: string, passed: bool)

  datatype PartialPass = PartialPass(proposalText: string, checkResults: seq<CheckResult>, score: real) {

    function PassedCheckIndices(): set<nat> {
      set r | r in checkResults && r.passed :: r.index
    }

    function PassedCount(): nat {
      CountPassed(checkResults)
    }
  }

  /** A constraint's slice `start .. start + count` of the flat list of checks. */
  datatype Offset = Offset(constraintId: string, start: nat, count: nat)

  function CountPassed(results: seq<CheckResult>): nat {
    if results == [] then 0
    else CountPassed(results[..|results| - 1]) + (if results[|results| - 1].passed then 1 else 0)
  }

  // ---------------------------------------------------------------------------
  // Building a candidate from an event
  // ---------------------------------------------------------------------------

  /** The first offset whose slice contains the check. */
  function Owner(offsets: seq<Offset>, index: nat): Option<Offset> {
    if offsets == [] then None
    else if offsets[0].start <= index < offsets[0].start + offsets[0].count then Some(offsets[0])
    else Owner(offsets[1..], index)
  }

  /** Collecting violations into a map keeps the last one for each constraint. */
  function LastViolation(violations: seq<ConstraintViolation>, id: string): Option<ConstraintViolation> {
    if violations == [] then None
    else if violations[|violations| - 1].constraintId == id then Some(violations[|violations| - 1])
    else LastViolation(violations[..|violations| - 1], id)
  }

  /** Round half away from zero, then the saturating conversion to an unsigned integer. */
  function RoundToNat(x: real): (n: nat)
    ensures x >= 0.0 ==> -0.5 < n as real - x <= 0.5
    ensures x < 0.0 ==> n == 0
  {
    if x <= 0.0 then 0 else (x + 0.5).Floor
  }

  /** How many checks of a slice are taken to pass when only the fractional score is known. */
  function InferredPasses(score: real, count: nat): nat {
    RoundToNat(score * count as real)
  }

  function CheckPasses(event: BranchPrunedEvent, offsets: seq<Offset>, index: nat): bool {
    match Owner(offsets, index)
    case None => true
    case Some(owner) =>
      match LastViolation(event.violatedConstraints, owner.constraintId)
      case None => true
      case Some(v) =>
        var local := index - owner.start;
        if v.checkVerdicts == [] then local < InferredPasses(v.score, owner.count)
        else 0 <= local < |v.checkVerdicts| && v.checkVerdicts[local]
  }

  function CheckResults(event: BranchPrunedEvent, checks: seq<string>, offsets: seq<Offset>): seq<CheckResult> {
    seq(|checks|, i requires 0 <= i < |checks| => CheckResult(i, checks[i], CheckPasses(event, offsets, i)))
  }

  function PartialPassFromEvent(event: BranchPrunedEvent, checks: seq<string>, offsets: seq<Offset>)
    : Option<PartialPass>
  {
    if checks == [] then None
    else
      var results := CheckResults(event, checks, offsets);
      var passed := CountPassed(results);
      if passed == 0 then None
      else Some(PartialPass(event.rawOutput, results, passed as real / |checks| as real))
  }

  function Candidates(events: seq<BranchPrunedEvent>, checks: seq<string>, offsets: seq<Offset>): seq<PartialPass> {
    if events == [] then []
    else
      var rest := Candidates(events[..|events| - 1], checks, offsets);
      match PartialPassFromEvent(events[|events| - 1], checks, offsets)
      case None => rest
      case Some(p) => if p.PassedCount() > 0 then rest + [p] else rest
  }

  predicate InSlice(offset: Offset, index: nat) {
    offset.start <= index < offset.start + offset.count
  }

  predicate IsOwner(offsets: seq<Offset>, k: nat, index: nat) {
    k < |offsets| && InSlice(offsets[k], index) && forall j :: 0 <= j < k ==> !InSlice(offsets[j], index)
  }

  predicate IsLastViolation(violations: seq<ConstraintViolation>, l: nat, id: string) {
    && l < |violations| && violations[l].constraintId == id
    && forall j :: l < j < |violations| ==> violations[j].constraintId != id
  }

  /** The verdict for a check of the slice; without verdicts the first score * count checks, rounded, pass. */
  predicate VerdictFails(v: ConstraintViolation, owner: Offset, index: nat)
    requires InSlice(owner, index)
  {
    var local := index - owner.start;
    if v.checkVerdicts == [] then v.score * owner.count as real < local as real + 0.5
    else local >= |v.checkVerdicts| || !v.checkVerdicts[local]
  }

  ghost predicate IsFailedBy(event: BranchPrunedEvent, offsets: seq<Offset>, index: nat, k: nat, l: nat) {
    && IsOwner(offsets, k, index)
    && IsLastViolation(event.violatedConstraints, l, offsets[k].constraintId)
    && VerdictFails(event.violatedConstraints[l], offsets[k], index)
  }

  /** Some violated constraint fails the check. */
  ghost predicate IsFailed(event: BranchPrunedEvent, offsets: seq<Offset>, index: nat) {
    exists k: nat, l: nat :: IsFailedBy(event, offsets, index, k, l)
  }

  lemma {:induction false} OwnerIsFirst(offsets: seq<Offset>, index: nat)
    ensures Owner(offsets, index).None? ==> forall k: nat :: !IsOwner(offsets, k, index)
    ensures Owner(offsets, index).Some? ==>
      exists k: nat :: IsOwner(offsets, k, index) && offsets[k] == Owner(offsets, index).value
    decreases |offsets|
  {
    if offsets != [] {
      if InSlice(offsets[0], index) {
        assert IsOwner(offsets, 0, index);
      } else {
        OwnerIsFirst(offsets[1..], index);
        forall k: nat
          ensures IsOwner(offsets, k + 1, index) ==> IsOwner(offsets[1..], k, index)
          ensures IsOwner(offsets[1..], k, index) ==> IsOwner(offsets, k + 1, index)
        {
          assert forall j :: 0 <= j < |offsets| - 1 ==> offsets[1..][j] == offsets[j + 1];
        }
        assert forall k: nat :: IsOwner(offsets, k, index) ==> k > 0 && IsOwner(offsets[1..], k - 1, index);
      }
    }
  }

  lemma {:induction false} LastViolationIsLast(violations: seq<ConstraintViolation>, id: string)
    ensures var v := LastViolation(violations, id);
      && (v.None? ==> forall l: nat :: !IsLastViolation(violations, l, id))
      && (v.Some? ==> exists l: nat :: IsLastViolation(violations, l, id) && violations[l] == v.value)
    decreases |violations|
  {
    if violations != [] {
      var n := |violations| - 1;
      if violations[n].constraintId == id {
        assert IsLastViolation(violations, n, id);
      } else {
        LastViolationIsLast(violations[..n], id);
        assert forall l: nat :: IsLastViolation(violations, l, id) <==> IsLastViolation(violations[..n], l, id);
      }
    }
  }

  lemma VerdictDecides(
    event: BranchPrunedEvent, offsets: seq<Offset>, index: nat, owner: Offset, v: ConstraintViolation)
    requires InSlice(owner, index) && Owner(offsets, index) == Some(owner)
    requires LastViolation(event.violatedConstraints, owner.constraintId) == Some(v)
    ensures !CheckPasses(event, offsets, index) <==> VerdictFails(v, owner, index)
  {
    hide InferredPasses;
    if v.checkVerdicts == [] {
      NoneInferred(v.score, owner.count, index - owner.start);
    }
  }

  /** A check fails exactly when the first slice with it belongs to a constraint whose last violation fails it. */
  lemma CheckFailsIffAttributed(event: BranchPrunedEvent, offsets: seq<Offset>, index: nat)
    ensures !CheckPasses(event, offsets, index) <==> IsFailed(event, offsets, index)
  {
    OwnerIsFirst(offsets, index);
    hide Owner, InferredPasses;
    var owner := Owner(offsets, index);
    if owner.Some? {
      var k: nat :| IsOwner(offsets, k, index) && offsets[k] == owner.value;
      assert forall other: nat :: IsOwner(offsets, other, index) ==> other == k;
      LastViolationIsLast(event.violatedConstraints, owner.value.constraintId);
      hide LastViolation;
      var v := LastViolation(event.violatedConstraints, owner.value.constraintId);
      if v.Some? {
        var l: nat :| IsLastViolation(event.violatedConstraints, l, owner.value.constraintId)
          && event.violatedConstraints[l] == v.value;
        VerdictDecides(event, offsets, index, owner.value, v.value);
        assert !CheckPasses(event, offsets, index) ==> IsFailedBy(event, offsets, index, k, l);
      }
    }
  }

  /** An owned check fails exactly by the verdict of its owner's last violation. */
  lemma OwnedCheckFails(event: BranchPrunedEvent, offsets: seq<Offset>, index: nat, k: nat, l: nat)
    requires IsOwner(offsets, k, index)
    requires IsLastViolation(event.violatedConstraints, l, offsets[k].constraintId)
    ensures !CheckPasses(event, offsets, index) <==> VerdictFails(event.violatedConstraints[l], offsets[k], index)
  {
    CheckFailsIffAttributed(event, offsets, index);
    hide CheckPasses, VerdictFails, InSlice;
    if !CheckPasses(event, offsets, index) {
      var other: nat, last: nat :| IsFailedBy(event, offsets, index, other, last);
      assert other == k && last == l;
    }
    if VerdictFails(event.violatedConstraints[l], offsets[k], index) {
      assert IsFailedBy(event, offsets, index, k, l);
    }
  }

  /** The first check that belongs to slice k and not to an earlier slice. */
  ghost predicate IsFirstOwned(offsets: seq<Offset>, k: nat, first: nat) {
    IsOwner(offsets, k, first) && forall index: nat :: IsOwner(offsets, k, index) ==> first <= index
  }

  /**
   A violated constraint without verdicts fails all its checks, as documented, exactly when its score
   times the number of its checks rounds to none that it owns: for a slice that owns its first check,
   when it is below one half.
   */
  lemma SliceFailsIffScoreRoundsToNone(
    event: BranchPrunedEvent, offsets: seq<Offset>, k: nat, l: nat, first: nat)
    requires IsFirstOwned(offsets, k, first)
    requires IsLastViolation(event.violatedConstraints, l, offsets[k].constraintId)
    requires event.violatedConstraints[l].checkVerdicts == []
    ensures (forall index: nat :: IsOwner(offsets, k, index) ==> !CheckPasses(event, offsets, index)) <==>
      event.violatedConstraints[l].score * offsets[k].count as real < (first - offsets[k].start) as real + 0.5
  {
    hide CheckPasses, InferredPasses, IsOwner;
    OwnedIsInSlice(offsets, k, first);
    var v, owner := event.violatedConstraints[l], offsets[k];
    NoneInferred(v.score, owner.count, first - owner.start);
    UnjudgedCheckFails(event, offsets, first, k, l);
    if InferredPasses(v.score, owner.count) <= first - owner.start {
      forall index: nat | IsOwner(offsets, k, index)
        ensures !CheckPasses(event, offsets, index)
      {
        UnjudgedCheckFails(event, offsets, index, k, l);
      }
    } else {
      assert IsOwner(offsets, k, first) && CheckPasses(event, offsets, first);
    }
  }

  lemma OwnedIsInSlice(offsets: seq<Offset>, k: nat, index: nat)
    requires IsOwner(offsets, k, index)
    ensures k < |offsets| && index >= offsets[k].start
  {
  }

  lemma UnjudgedCheckFails(event: BranchPrunedEvent, offsets: seq<Offset>, index: nat, k: nat, l: nat)
    requires IsOwner(offsets, k, index)
    requires IsLastViolation(event.violatedConstraints, l, offsets[k].constraintId)
    requires event.violatedConstraints[l].checkVerdicts == []
    ensures !CheckPasses(event, offsets, index) <==>
      index - offsets[k].start >= InferredPasses(event.violatedConstraints[l].score, offsets[k].count)
  {
    hide CheckPasses, InferredPasses;
    OwnedCheckFails(event, offsets, index, k, l);
    var v, owner := event.violatedConstraints[l], offsets[k];
    NoneInferred(v.score, owner.count, index - owner.start);
  }

  lemma NoneInferred(score: real, count: nat, n: nat)
    ensures InferredPasses(score, count) <= n <==> score * count as real < n as real + 0.5
  {
    hide RoundToNat;
    RoundsToAtMost(score * count as real, n);
  }

  lemma RoundsToAtMost(x: real, n: nat)
    ensures RoundToNat(x) <= n <==> x < n as real + 0.5
  {
  }

  /** Checks passed, counted over the results of an enumeration, is the size of the passed set. */
  lemma {:induction false} PassedCountIsSetSize(results: seq<CheckResult>, p: PartialPass)
    requires forall i :: 0 <= i < |results| ==> results[i].index == i
    requires p.checkResults == results
    ensures p.PassedCount() == |p.PassedCheckIndices()|
    ensures forall x :: x in p.PassedCheckIndices() ==> x < |results|
    decreases |results|
  {
    if results != [] {
      var n := |results| - 1;
      var shorter := p.(checkResults := results[..n]);
      PassedCountIsSetSize(results[..n], shorter);
      assert results == results[..n] + [results[n]];
      if results[n].passed {
        assert p.PassedCheckIndices() == shorter.PassedCheckIndices() + {results[n].index};
      } else {
        assert p.PassedCheckIndices() == shorter.PassedCheckIndices();
      }
    }
  }

  /** A candidate passes something, and its score is the fraction of all checks it passes. */
  ghost predicate ScoredByCoverage(c: PartialPass, checks: nat) {
    && checks > 0
    && c.PassedCheckIndices() != {}
    && (forall x :: x in c.PassedCheckIndices() ==> x < checks)
    && c.score * checks as real == |c.PassedCheckIndices()| as real
  }

  lemma CandidateIsScoredByCoverage(event: BranchPrunedEvent, checks: seq<string>, offsets: seq<Offset>)
    ensures var p := PartialPassFromEvent(event, checks, offsets); p.Some? ==> ScoredByCoverage(p.value, |checks|)
  {
    match PartialPassFromEvent(event, checks, offsets) {
      case None =>
      case Some(p) => PassedCountIsSetSize(p.checkResults, p);
    }
  }

  lemma {:induction false} CandidatesAreScoredByCoverage(
      events: seq<BranchPrunedEvent>, checks: seq<string>, offsets: seq<Offset>)
    ensures forall c :: c in Candidates(events, checks, offsets) ==> ScoredByCoverage(c, |checks|)
    decreases |events|
  {
    if events != [] {
      CandidatesAreScoredByCoverage(events[..|events| - 1], checks, offsets);
      CandidateIsScoredByCoverage(events[|events| - 1], checks, offsets);
    }
  }

  /** The report on an event: its text, and every check with its text, passed unless a constraint fails it. */
  ghost predicate IsReportOf(
    p: PartialPass, event: BranchPrunedEvent, checks: seq<string>, offsets: seq<Offset>)
  {
    && p.proposalText == event.rawOutput
    && |p.checkResults| == |checks|
    && (forall i: nat :: i < |checks| ==>
      p.checkResults[i].index == i && p.checkResults[i].text == checks[i]
      && (p.checkResults[i].passed <==> !IsFailed(event, offsets, i)))
    && forall i: nat :: i in p.PassedCheckIndices() <==> i < |checks| && !IsFailed(event, offsets, i)
  }

  /** Some check is not failed. */
  ghost predicate PassesSomething(event: BranchPrunedEvent, checks: seq<string>, offsets: seq<Offset>) {
    exists i: nat :: i < |checks| && !IsFailed(event, offsets, i)
  }

  lemma EventIsReported(event: BranchPrunedEvent, checks: seq<string>, offsets: seq<Offset>)
    ensures var p := PartialPassFromEvent(event, checks, offsets);
      && (p.Some? <==> PassesSomething(event, checks, offsets))
      && (p.Some? ==> IsReportOf(p.value, event, checks, offsets) && p.value.PassedCount() > 0)
  {
    var results := CheckResults(event, checks, offsets);
    var p := PartialPass(event.rawOutput, results, 0.0);
    hide CheckPasses, IsFailed;
    forall i: nat | i < |checks|
      ensures results[i].passed <==> !IsFailed(event, offsets, i)
    {
      CheckFailsIffAttributed(event, offsets, i);
    }
    PassedAreMarked(results, p);
    PassedCountIsSetSize(results, p);
    hide CountPassed;
    if PassesSomething(event, checks, offsets) {
      var i: nat :| i < |checks| && !IsFailed(event, offsets, i);
      assert i in p.PassedCheckIndices();
    }
    if p.PassedCheckIndices() != {} {
      var i :| i in p.PassedCheckIndices();
      assert !IsFailed(event, offsets, i);
    }
  }

  lemma PassedAreMarked(results: seq<CheckResult>, p: PartialPass)
    requires p.checkResults == results && forall i :: 0 <= i < |results| ==> results[i].index == i
    ensures forall i: nat :: i in p.PassedCheckIndices() <==> i < |results| && results[i].passed
  {
  }

  /** The events with the given positions, in order, are those that pass something, each once. */
  ghost predicate ArePassing(
    from: seq<nat>, events: seq<BranchPrunedEvent>, checks: seq<string>, offsets: seq<Offset>)
  {
    && Increasing(from)
    && forall e: nat :: e in from <==> e < |events| && PassesSomething(events[e], checks, offsets)
  }

  /** Entry j reports on event from[j]. */
  ghost predicate AreReports(
    partials: seq<PartialPass>, from: seq<nat>,
    events: seq<BranchPrunedEvent>, checks: seq<string>, offsets: seq<Offset>)
  {
    && |from| == |partials|
    && forall j :: 0 <= j < |from| ==>
      from[j] < |events| && IsReportOf(partials[j], events[from[j]], checks, offsets)
  }

  /** The candidates are, in event order, exactly the reports on the events that pass something. */
  lemma {:induction false} CandidatesAreReports(
    events: seq<BranchPrunedEvent>, checks: seq<string>, offsets: seq<Offset>) returns (from: seq<nat>)
    ensures ArePassing(from, events, checks, offsets)
    ensures AreReports(Candidates(events, checks, offsets), from, events, checks, offsets)
    decreases |events|
  {
    hide PartialPassFromEvent, PassesSomething, IsReportOf;
    if events == [] {
      from := [];
    } else {
      var n := |events| - 1;
      var before := CandidatesAreReports(events[..n], checks, offsets);
      EventIsReported(events[n], checks, offsets);
      from := if PassesSomething(events[n], checks, offsets) then before + [n] else before;
      PassingExtends(before, events, checks, offsets);
      hide Increasing;
    }
  }

  lemma PassingExtends(
    before: seq<nat>, events: seq<BranchPrunedEvent>, checks: seq<string>, offsets: seq<Offset>)
    requires events != [] && ArePassing(before, events[..|events| - 1], checks, offsets)
    ensures var n := |events| - 1;
      ArePassing(if PassesSomething(events[n], checks, offsets) then before + [n] else before, events, checks, offsets)
  {
    hide PassesSomething;
    var n := |events| - 1;
    assert forall j :: 0 <= j < |before| ==> before[j] in before;
    assert forall e: nat :: e < n ==> events[..n][e] == events[e];
  }

  // ---------------------------------------------------------------------------
  // What the greedy loop chooses
  // ---------------------------------------------------------------------------

  function Covers(cands: seq<PartialPass>): seq<set<nat>> {
    seq(|cands|, i requires 0 <= i < |cands| => cands[i].PassedCheckIndices())
  }

  function Scores(cands: seq<PartialPass>): seq<real> {
    seq(|cands|, i requires 0 <= i < |cands| => cands[i].score)
  }

  function Gain(cover: set<nat>, covered: set<nat>): nat {
    |cover - covered|
  }

  /** `max_by` order: gain, then score, and among equals the later candidate wins. */
  predicate AtMost(covers: seq<set<nat>>, scores: seq<real>, covered: set<nat>, j: nat, i: nat)
    requires i < |covers| == |scores| && j < |covers|
  {
    var gj, gi := Gain(covers[j], covered), Gain(covers[i], covered);
    gj < gi || (gj == gi && (scores[j] < scores[i] || (scores[j] == scores[i] && j <= i)))
  }

  predicate IsBestUnused(covers: seq<set<nat>>, scores: seq<real>, covered: set<nat>, used: set<nat>, i: nat)
    requires |covers| == |scores|
  {
    i < |covers| && i !in used && forall j: nat :: j < |covers| && j !in used ==> AtMost(covers, scores, covered, j, i)
  }

  predicate InRange(covers: seq<set<nat>>, picks: seq<nat>) {
    forall i :: 0 <= i < |picks| ==> picks[i] < |covers|
  }

  /** The checks covered by the first n picks. */
  function CoveredBy(covers: seq<set<nat>>, picks: seq<nat>, n: nat): set<nat>
    requires InRange(covers, picks) && n <= |picks|
  {
    if n == 0 then {} else CoveredBy(covers, picks, n - 1) + covers[picks[n - 1]]
  }

  function UsedBy(picks: seq<nat>, n: nat): set<nat>
    requires n <= |picks|
  {
    if n == 0 then {} else UsedBy(picks, n - 1) + {picks[n - 1]}
  }

  /** Pick n is the best candidate unused before it, and adds something unless nothing is covered yet. */
  ghost predicate IsGreedyPick(covers: seq<set<nat>>, scores: seq<real>, picks: seq<nat>, n: nat)
    requires |covers| == |scores| && InRange(covers, picks) && n < |picks|
  {
    && IsBestUnused(covers, scores, CoveredBy(covers, picks, n), UsedBy(picks, n), picks[n])
    && (Gain(covers[picks[n]], CoveredBy(covers, picks, n)) > 0 || CoveredBy(covers, picks, n) == {})
  }

  /** Why the loop ended: full, or no unused candidate adds anything. */
  ghost predicate MustStop(covers: seq<set<nat>>, k: nat, picks: seq<nat>)
    requires InRange(covers, picks)
  {
    || |picks| == k
    || (forall j: nat :: j < |covers| && j !in UsedBy(picks, |picks|) ==>
          Gain(covers[j], CoveredBy(covers, picks, |picks|)) == 0)
  }

  ghost predicate ArePicks(covers: seq<set<nat>>, scores: seq<real>, picks: seq<nat>) {
    && |covers| == |scores|
    && InRange(covers, picks)
    && (forall n {:trigger IsGreedyPick(covers, scores, picks, n)} ::
          0 <= n < |picks| ==> IsGreedyPick(covers, scores, picks, n))
  }

  ghost predicate IsGreedyRun(covers: seq<set<nat>>, scores: seq<real>, k: nat, picks: seq<nat>) {
    && |picks| <= k
    && ArePicks(covers, scores, picks)
    && MustStop(covers, k, picks)
  }

  /** The union of the checks passed by a set of candidates. */
  function UnionOf(covers: seq<set<nat>>, chosen: set<nat>): set<nat> {
    set i, x | i in chosen && i < |covers| && x in covers[i] :: x
  }

  // ---------------------------------------------------------------------------
  // The selection loop
  // ---------------------------------------------------------------------------

  method BestUnused(covers: seq<set<nat>>, scores: seq<real>, covered: set<nat>, used: set<nat>)
      returns (best: Option<nat>)
    requires |covers| == |scores|
    ensures best.None? <==> forall j: nat :: j < |covers| ==> j in used
    ensures best.Some? ==> IsBestUnused(covers, scores, covered, used, best.value)
  {
    best := None;
    for idx := 0 to |covers|
      invariant best.None? ==> forall j: nat :: j < idx ==> j in used
      invariant best.Some? ==> best.value < idx && best.value !in used
      invariant best.Some? ==> forall j: nat :: j < idx && j !in used ==> AtMost(covers, scores, covered, j, best.value)
    {
      if idx !in used {
        if best.None? || AtMost(covers, scores, covered, best.value, idx) {
          best := Some(idx);
        }
      }
    }
  }

  /** Extending the picks changes nothing about the picks already made. */
  lemma {:induction false} CoveredByPrefix(covers: seq<set<nat>>, picks: seq<nat>, more: seq<nat>, n: nat)
    requires InRange(covers, picks) && InRange(covers, picks + more) && n <= |picks|
    ensures CoveredBy(covers, picks + more, n) == CoveredBy(covers, picks, n)
    ensures UsedBy(picks + more, n) == UsedBy(picks, n)
  {
    if n > 0 {
      CoveredByPrefix(covers, picks, more, n - 1);
    }
  }

  lemma {:induction false} NoChecksNoCandidates(events: seq<BranchPrunedEvent>, offsets: seq<Offset>)
    ensures Candidates(events, [], offsets) == []
    decreases |events|
  {
    if events != [] {
      NoChecksNoCandidates(events[..|events| - 1], offsets);
    }
  }

  /** The partials picked, in order. */
  function Picked(cands: seq<PartialPass>, picks: seq<nat>): seq<PartialPass>
    requires InRange(Covers(cands), picks)
  {
    seq(|picks|, i requires 0 <= i < |picks| => cands[picks[i]])
  }

  ghost predicate IsGreedySelection(cands: seq<PartialPass>, k: nat, selected: seq<PartialPass>) {
    exists picks :: IsGreedyRun(Covers(cands), Scores(cands), k, picks) && selected == Picked(cands, picks)
  }

  lemma PickSurvives(covers: seq<set<nat>>, scores: seq<real>, picks: seq<nat>, more: seq<nat>, n: nat)
    requires |covers| == |scores| && InRange(covers, picks) && InRange(covers, picks + more)
    requires n < |picks| && IsGreedyPick(covers, scores, picks, n)
    ensures IsGreedyPick(covers, scores, picks + more, n)
  {
    CoveredByPrefix(covers, picks, more, n);
    hide IsBestUnused, Gain, CoveredBy, UsedBy;
  }

  lemma LastPickIsGreedy(covers: seq<set<nat>>, scores: seq<real>, picks: seq<nat>, next: nat)
    requires |covers| == |scores| && InRange(covers, picks) && next < |covers|
    requires IsBestUnused(covers, scores, CoveredBy(covers, picks, |picks|), UsedBy(picks, |picks|), next)
    requires Gain(covers[next], CoveredBy(covers, picks, |picks|)) > 0 || CoveredBy(covers, picks, |picks|) == {}
    ensures IsGreedyPick(covers, scores, picks + [next], |picks|)
    ensures CoveredBy(covers, picks + [next], |picks| + 1) == CoveredBy(covers, picks, |picks|) + covers[next]
    ensures UsedBy(picks + [next], |picks| + 1) == UsedBy(picks, |picks|) + {next}
  {
    CoveredByPrefix(covers, picks, [next], |picks|);
    NextCover(covers, picks + [next], |picks|);
    hide IsBestUnused, Gain, CoveredBy, UsedBy;
  }

  lemma NextCover(covers: seq<set<nat>>, picks: seq<nat>, n: nat)
    requires InRange(covers, picks) && n < |picks|
    ensures CoveredBy(covers, picks, n + 1) == CoveredBy(covers, picks, n) + covers[picks[n]]
    ensures UsedBy(picks, n + 1) == UsedBy(picks, n) + {picks[n]}
  {
  }

  lemma ExtendPicks(covers: seq<set<nat>>, scores: seq<real>, picks: seq<nat>, next: nat)
    requires ArePicks(covers, scores, picks)
    requires IsBestUnused(covers, scores, CoveredBy(covers, picks, |picks|), UsedBy(picks, |picks|), next)
    requires Gain(covers[next], CoveredBy(covers, picks, |picks|)) > 0 || CoveredBy(covers, picks, |picks|) == {}
    ensures ArePicks(covers, scores, picks + [next])
    ensures CoveredBy(covers, picks + [next], |picks| + 1) == CoveredBy(covers, picks, |picks|) + covers[next]
    ensures UsedBy(picks + [next], |picks| + 1) == UsedBy(picks, |picks|) + {next}
  {
    BestIsInRange(covers, scores, CoveredBy(covers, picks, |picks|), UsedBy(picks, |picks|), next);
    hide IsBestUnused, Gain, CoveredBy, UsedBy, IsGreedyPick;
    LastPickIsGreedy(covers, scores, picks, next);
    forall n | 0 <= n < |picks|
      ensures IsGreedyPick(covers, scores, picks + [next], n)
    {
      PickSurvives(covers, scores, picks, [next], n);
    }
  }

  lemma BestIsInRange(covers: seq<set<nat>>, scores: seq<real>, covered: set<nat>, used: set<nat>, best: nat)
    requires |covers| == |scores| && IsBestUnused(covers, scores, covered, used, best)
    ensures best < |covers|
  {
  }

  lemma NothingLeftToGain(covers: seq<set<nat>>, scores: seq<real>, k: nat, picks: seq<nat>, best: nat)
    requires ArePicks(covers, scores, picks)
    requires IsBestUnused(covers, scores, CoveredBy(covers, picks, |picks|), UsedBy(picks, |picks|), best)
    requires Gain(covers[best], CoveredBy(covers, picks, |picks|)) == 0
    ensures MustStop(covers, k, picks)
  {
    forall j: nat | j < |covers| && j !in UsedBy(picks, |picks|)
      ensures Gain(covers[j], CoveredBy(covers, picks, |picks|)) == 0
    {
      assert AtMost(covers, scores, CoveredBy(covers, picks, |picks|), j, best);
    }
  }

  method SelectOrthogonalPartials(events: seq<BranchPrunedEvent>, checks: seq<string>, offsets: seq<Offset>, maxK: nat)
    returns (selected: seq<PartialPass>)
    ensures IsGreedySelection(Candidates(events, checks, offsets), maxK, selected)
  {
    hide *;
    selected := [];
    if checks == [] || maxK == 0 {
      if checks == [] {
        NoChecksNoCandidates(events, offsets);
      }
      EmptySelection(Candidates(events, checks, offsets), maxK);
      return;
    }
    var candidates := Candidates(events, checks, offsets);
    ghost var picks: seq<nat> := [];
    ghost var covers, scores := Covers(candidates), Scores(candidates);
    var covered: set<nat> := {};
    var used: set<nat> := {};
    NothingPicked(candidates);
    while |selected| < maxK
      invariant |picks| == |selected| <= maxK && ArePicks(covers, scores, picks)
      invariant InRange(covers, picks) && selected == Picked(candidates, picks)
      invariant covered == CoveredBy(covers, picks, |picks|) && used == UsedBy(picks, |picks|)
    {
      var best := BestUnused(Covers(candidates), Scores(candidates), covered, used);
      match best {
        case None =>
          break;
        case Some(idx) =>
          CandidateAt(candidates, covered, used, idx);
          var candidate := candidates[idx];
          if Gain(candidate.PassedCheckIndices(), covered) == 0 && covered != {} {
            NothingLeftToGain(covers, scores, maxK, picks, idx);
            FinishSelection(candidates, maxK, picks);
            return;
          }
          ExtendPicks(covers, scores, picks, idx);
          PickOneMore(candidates, picks, idx);
          covered := covered + candidate.PassedCheckIndices();
          used := used + {idx};
          selected := selected + [candidate];
          picks := picks + [idx];
      }
    }
    FullOrExhausted(covers, maxK, picks);
    FinishSelection(candidates, maxK, picks);
  }

  lemma CandidateAt(cands: seq<PartialPass>, covered: set<nat>, used: set<nat>, i: nat)
    requires |Covers(cands)| == |Scores(cands)| && IsBestUnused(Covers(cands), Scores(cands), covered, used, i)
    ensures i < |Covers(cands)| == |cands| && Covers(cands)[i] == cands[i].PassedCheckIndices()
  {
  }

  lemma PickOneMore(cands: seq<PartialPass>, picks: seq<nat>, i: nat)
    requires InRange(Covers(cands), picks) && i < |cands|
    ensures InRange(Covers(cands), picks + [i])
    ensures Picked(cands, picks + [i]) == Picked(cands, picks) + [cands[i]]
  {
  }

  lemma NothingPicked(cands: seq<PartialPass>)
    ensures |Covers(cands)| == |Scores(cands)| == |cands|
    ensures InRange(Covers(cands), []) && ArePicks(Covers(cands), Scores(cands), []) && Picked(cands, []) == []
    ensures CoveredBy(Covers(cands), [], 0) == {} && UsedBy([], 0) == {}
  {
  }

  lemma FullOrExhausted(covers: seq<set<nat>>, k: nat, picks: seq<nat>)
    requires InRange(covers, picks)
    requires |picks| == k || forall j: nat :: j < |covers| ==> j in UsedBy(picks, |picks|)
    ensures MustStop(covers, k, picks)
  {
  }

  lemma FinishSelection(cands: seq<PartialPass>, k: nat, picks: seq<nat>)
    requires ArePicks(Covers(cands), Scores(cands), picks) && InRange(Covers(cands), picks) && |picks| <= k
    requires MustStop(Covers(cands), k, picks)
    ensures IsGreedySelection(cands, k, Picked(cands, picks))
  {
    assert IsGreedyRun(Covers(cands), Scores(cands), k, picks);
  }

  lemma EmptySelection(cands: seq<PartialPass>, k: nat)
    requires cands == [] || k == 0
    ensures IsGreedySelection(cands, k, [])
  {
    assert IsGreedyRun(Covers(cands), Scores(cands), k, []);
    assert Picked(cands, []) == [];
  }

  // ---------------------------------------------------------------------------
  // What a greedy run achieves
  // ---------------------------------------------------------------------------

  lemma {:induction false} PowNonNegative(b: int, e: nat)
    requires b >= 0
    ensures Pow(b, e) >= 0
  {
    if e > 0 {
      PowNonNegative(b, e - 1);
    }
  }

  lemma {:induction false} CoveredByIsUnion(covers: seq<set<nat>>, picks: seq<nat>, n: nat)
    requires InRange(covers, picks) && n <= |picks|
    ensures CoveredBy(covers, picks, n) == UnionOf(covers, UsedBy(picks, n))
  {
    if n > 0 {
      CoveredByIsUnion(covers, picks, n - 1);
    }
  }

  lemma UnionSplits(covers: seq<set<nat>>, chosen: set<nat>, i: nat)
    requires i in chosen && i < |covers|
    ensures UnionOf(covers, chosen) == UnionOf(covers, chosen - {i}) + covers[i]
  {
  }

  lemma SizeOfUnion(a: set<nat>, b: set<nat>)
    ensures |a + b| <= |a| + |b|
  {
    assert a + b == a + (b - a);
    SubsetSize(b - a, b);
  }

  lemma GainOfUnion(whole: set<nat>, rest: set<nat>, here: set<nat>, covered: set<nat>)
    requires whole == rest + here
    ensures |whole - covered| <= |rest - covered| + |here - covered|
  {
    assert whole - covered == (rest - covered) + (here - covered);
    SizeOfUnion(rest - covered, here - covered);
  }

  lemma OneMoreFactor(n: nat, m: nat, g: nat)
    requires m == n + 1
    ensures m * g == n * g + g
  {
  }

  /** The sum of the single gains of the chosen candidates below n. */
  function SumOfGains(covers: seq<set<nat>>, chosen: set<nat>, covered: set<nat>, n: nat): nat
    requires n <= |covers|
  {
    if n == 0 then 0
    else SumOfGains(covers, chosen, covered, n - 1) + if n - 1 in chosen then Gain(covers[n - 1], covered) else 0
  }

  function ChosenBelow(chosen: set<nat>, n: nat): set<nat> {
    set i | i in chosen && i < n
  }

  lemma OneMoreGain(covers: seq<set<nat>>, chosen: set<nat>, covered: set<nat>, n: nat)
    requires n < |covers| && n in chosen
    ensures |UnionOf(covers, ChosenBelow(chosen, n + 1)) - covered|
         <= |UnionOf(covers, ChosenBelow(chosen, n)) - covered| + Gain(covers[n], covered)
  {
    var below := ChosenBelow(chosen, n + 1);
    assert below - {n} == ChosenBelow(chosen, n);
    hide ChosenBelow;
    UnionSplits(covers, below, n);
    hide UnionOf;
    GainOfUnion(UnionOf(covers, below), UnionOf(covers, below - {n}), covers[n], covered);
  }

  lemma NothingGained(covers: seq<set<nat>>, chosen: set<nat>, covered: set<nat>)
    ensures UnionOf(covers, ChosenBelow(chosen, 0)) - covered == {}
  {
  }

  lemma ChosenBelowSkips(chosen: set<nat>, n: nat)
    requires n !in chosen
    ensures ChosenBelow(chosen, n + 1) == ChosenBelow(chosen, n)
  {
  }

  lemma {:induction false} GainBelow(covers: seq<set<nat>>, chosen: set<nat>, covered: set<nat>, n: nat)
    requires n <= |covers|
    ensures |UnionOf(covers, ChosenBelow(chosen, n)) - covered| <= SumOfGains(covers, chosen, covered, n)
  {
    hide Gain, UnionOf, ChosenBelow;
    if n == 0 {
      NothingGained(covers, chosen, covered);
    } else {
      GainBelow(covers, chosen, covered, n - 1);
      if n - 1 in chosen {
        OneMoreGain(covers, chosen, covered, n - 1);
      } else {
        ChosenBelowSkips(chosen, n - 1);
      }
    }
  }

  /** Submodularity: the union of any candidates gains at most the sum of their single gains. */
  lemma UnionGainAtMostSum(covers: seq<set<nat>>, chosen: set<nat>, covered: set<nat>)
    requires forall i :: i in chosen ==> i < |covers|
    ensures |UnionOf(covers, chosen) - covered| <= SumOfGains(covers, chosen, covered, |covers|)
  {
    GainBelow(covers, chosen, covered, |covers|);
    assert ChosenBelow(chosen, |covers|) == chosen;
  }

  /** Submodularity as the bound needs it: the union gains at most a common bound per candidate. */
  lemma {:induction false} UnionGain(covers: seq<set<nat>>, chosen: set<nat>, covered: set<nat>, g: nat)
    requires forall i :: i in chosen ==> i < |covers| && Gain(covers[i], covered) <= g
    ensures |UnionOf(covers, chosen) - covered| <= |chosen| * g
    decreases chosen
  {
    if chosen == {} {
      assert UnionOf(covers, chosen) == {};
    } else {
      var i :| i in chosen;
      var rest := chosen - {i};
      UnionGain(covers, rest, covered, g);
      UnionSplits(covers, chosen, i);
      GainOfUnion(UnionOf(covers, chosen), UnionOf(covers, rest), covers[i], covered);
      assert Gain(covers[i], covered) <= g;
      OneMoreFactor(|rest|, |chosen|, g);
    }
  }

  lemma UsedGainNothing(covers: seq<set<nat>>, picks: seq<nat>, n: nat, j: nat)
    requires InRange(covers, picks) && n <= |picks| && j < |covers| && j in UsedBy(picks, n)
    ensures Gain(covers[j], CoveredBy(covers, picks, n)) == 0
  {
    CoveredByIsUnion(covers, picks, n);
    assert covers[j] - CoveredBy(covers, picks, n) == {};
  }

  /** No candidate, used or not, gains more than the greedy pick does. */
  lemma GreedyPickDominates(covers: seq<set<nat>>, scores: seq<real>, picks: seq<nat>, n: nat, j: nat)
    requires |covers| == |scores| && InRange(covers, picks) && n < |picks| && j < |covers|
    requires IsGreedyPick(covers, scores, picks, n)
    ensures Gain(covers[j], CoveredBy(covers, picks, n)) <= Gain(covers[picks[n]], CoveredBy(covers, picks, n))
  {
    if j in UsedBy(picks, n) {
      UsedGainNothing(covers, picks, n, j);
    } else {
      assert AtMost(covers, scores, CoveredBy(covers, picks, n), j, picks[n]);
    }
  }

  /** Among unused candidates that gain as much, the pick has the best score and then the last position. */
  lemma GreedyPickWinsTies(covers: seq<set<nat>>, scores: seq<real>, picks: seq<nat>, n: nat, j: nat)
    requires |covers| == |scores| && InRange(covers, picks) && n < |picks| && j < |covers|
    requires IsGreedyPick(covers, scores, picks, n) && forall m :: 0 <= m < n ==> picks[m] != j
    requires |covers[j] - CoveredBy(covers, picks, n)| == |covers[picks[n]] - CoveredBy(covers, picks, n)|
    ensures scores[j] < scores[picks[n]] || (scores[j] == scores[picks[n]] && j <= picks[n])
  {
    UsedOnlyEarlier(picks, n, j);
    assert AtMost(covers, scores, CoveredBy(covers, picks, n), j, picks[n]);
  }

  lemma {:induction false} UsedOnlyEarlier(picks: seq<nat>, n: nat, j: nat)
    requires n <= |picks| && forall m :: 0 <= m < n ==> picks[m] != j
    ensures j !in UsedBy(picks, n)
  {
    if n > 0 {
      UsedOnlyEarlier(picks, n - 1, j);
    }
  }

  lemma IntMulMonotone(a: int, x: int, y: int)
    requires a >= 0 && x <= y
    ensures a * x <= a * y
  {
  }

  lemma GreedyStepArithmetic(k: nat, a: int, b: int, opt: int, c: int, g: int)
    requires k >= 1 && a >= 0 && a * (opt - c) <= b * opt && opt - c <= k * g
    ensures (k * a) * (opt - (c + g)) <= ((k - 1) * b) * opt
  {
    var d := opt - c;
    calc {
      (k * a) * (d - g);
      a * (k * d - k * g);
    <= { IntMulMonotone(a, k * d - k * g, k * d - d); }
      a * (k * d - d);
      (k - 1) * (a * d);
    <= { IntMulMonotone(k - 1, a * d, b * opt); }
      (k - 1) * (b * opt);
      ((k - 1) * b) * opt;
    }
  }

  lemma SizeSplits(whole: set<nat>, covered: set<nat>)
    ensures |whole| - |covered| <= |whole - covered|
  {
    assert whole == (whole * covered) + (whole - covered);
    SubsetSize(whole * covered, covered);
  }

  lemma WidenFactor(gap: int, n: nat, k: nat, g: nat, growth: int)
    requires gap <= n * g && n <= k && growth == g
    ensures gap <= k * growth
  {
  }

  lemma CoverageGrowsByGain(covered: set<nat>, cover: set<nat>)
    ensures |covered + cover| == |covered| + Gain(cover, covered)
  {
    assert covered + cover == covered + (cover - covered);
  }

  lemma PickBoundsEveryChoice(covers: seq<set<nat>>, scores: seq<real>, picks: seq<nat>, n: nat, chosen: set<nat>)
    requires |covers| == |scores| && InRange(covers, picks) && n < |picks| && IsGreedyPick(covers, scores, picks, n)
    requires forall c :: c in chosen ==> c < |covers|
    ensures var covered := CoveredBy(covers, picks, n);
      |UnionOf(covers, chosen) - covered| <= |chosen| * Gain(covers[picks[n]], covered)
  {
    forall c | c in chosen
      ensures Gain(covers[c], CoveredBy(covers, picks, n)) <= Gain(covers[picks[n]], CoveredBy(covers, picks, n))
    {
      GreedyPickDominates(covers, scores, picks, n, c);
    }
    UnionGain(covers, chosen, CoveredBy(covers, picks, n), Gain(covers[picks[n]], CoveredBy(covers, picks, n)));
  }

  /** One pick closes at least a k-th of the gap to any choice of at most k candidates. */
  lemma PickClosesGap(covers: seq<set<nat>>, scores: seq<real>, k: nat, picks: seq<nat>, n: nat, chosen: set<nat>)
    requires |covers| == |scores| && InRange(covers, picks) && n < |picks| && IsGreedyPick(covers, scores, picks, n)
    requires |chosen| <= k && forall c :: c in chosen ==> c < |covers|
    ensures |UnionOf(covers, chosen)| - |CoveredBy(covers, picks, n)|
         <= k * (|CoveredBy(covers, picks, n + 1)| - |CoveredBy(covers, picks, n)|)
  {
    PickBoundsEveryChoice(covers, scores, picks, n, chosen);
    CoverageArithmetic(CoveredBy(covers, picks, n), covers[picks[n]], UnionOf(covers, chosen), |chosen|, k);
  }

  lemma CoverageArithmetic(covered: set<nat>, cover: set<nat>, target: set<nat>, n: nat, k: nat)
    requires |target - covered| <= n * Gain(cover, covered) && n <= k
    ensures |target| - |covered| <= k * (|covered + cover| - |covered|)
  {
    SizeSplits(target, covered);
    CoverageGrowsByGain(covered, cover);
    WidenFactor(|target| - |covered|, n, k, Gain(cover, covered), |covered + cover| - |covered|);
  }

  /** After n picks the uncovered part of any k-candidate optimum has shrunk by ((k-1)/k)^n. */
  lemma {:induction false} GreedyProgress(
    covers: seq<set<nat>>, scores: seq<real>, k: nat, picks: seq<nat>, chosen: set<nat>, n: nat)
    requires k >= 1 && IsGreedyRun(covers, scores, k, picks) && n <= |picks|
    requires |chosen| <= k && forall c :: c in chosen ==> c < |covers|
    ensures Pow(k, n) * (|UnionOf(covers, chosen)| - |CoveredBy(covers, picks, n)|)
         <= Pow(k - 1, n) * |UnionOf(covers, chosen)|
  {
    if n > 0 {
      GreedyProgress(covers, scores, k, picks, chosen, n - 1);
      PickClosesGap(covers, scores, k, picks, n - 1, chosen);
      PowNonNegative(k, n - 1);
      var before := |CoveredBy(covers, picks, n - 1)|;
      GreedyStepArithmetic(k, Pow(k, n - 1), Pow(k - 1, n - 1), |UnionOf(covers, chosen)|, before,
                           |CoveredBy(covers, picks, n)| - before);
    }
  }

  /** A run that stops below its budget has covered everything any candidate covers. */
  lemma EarlyStopCoversAll(covers: seq<set<nat>>, scores: seq<real>, k: nat, picks: seq<nat>)
    requires IsGreedyRun(covers, scores, k, picks) && |picks| < k
    ensures forall i :: 0 <= i < |covers| ==> covers[i] <= CoveredBy(covers, picks, |picks|)
  {
    forall i: nat | i < |covers|
      ensures covers[i] <= CoveredBy(covers, picks, |picks|)
    {
      if i in UsedBy(picks, |picks|) {
        UsedGainNothing(covers, picks, |picks|, i);
      }
      NoGainIsCovered(covers[i], CoveredBy(covers, picks, |picks|));
    }
  }

  lemma NoGainIsCovered(cover: set<nat>, covered: set<nat>)
    requires Gain(cover, covered) == 0
    ensures cover <= covered
  {
    forall x | x in cover
      ensures x in covered
    {
      assert x !in cover - covered;
    }
  }

  /** The share ((k-1)/k)^k of the optimum that greedy selection may miss, cleared of fractions. */
  ghost predicate WithinGuarantee(k: nat, opt: nat, covered: nat)
    requires k >= 1
  {
    Pow(k, k) * (opt - covered) <= Pow(k - 1, k) * opt
  }

  lemma SignArithmetic(a: int, x: int, b: int, y: int)
    requires a >= 0 && b >= 0 && x <= 0 && y >= 0
    ensures a * x <= b * y
  {
  }

  /**
   Nemhauser, Wolsey and Fisher's guarantee: against any choice of at most k candidates
   covering OPT checks, the run covers G with k^k (OPT - G) <= (k-1)^k OPT.
   */
  lemma GreedyApproximation(covers: seq<set<nat>>, scores: seq<real>, k: nat, picks: seq<nat>, chosen: set<nat>)
    requires k >= 1 && IsGreedyRun(covers, scores, k, picks)
    requires |chosen| <= k && forall c :: c in chosen ==> c < |covers|
    ensures WithinGuarantee(k, |UnionOf(covers, chosen)|, |CoveredBy(covers, picks, |picks|)|)
  {
    if |picks| == k {
      GreedyProgress(covers, scores, k, picks, chosen, k);
    } else {
      EarlyStopCoversAll(covers, scores, k, picks);
      SubsetSize(UnionOf(covers, chosen), CoveredBy(covers, picks, |picks|));
      PowNonNegative(k, k);
      PowNonNegative(k - 1, k);
      SignArithmetic(Pow(k, k), |UnionOf(covers, chosen)| - |CoveredBy(covers, picks, |picks|)|,
                     Pow(k - 1, k), |UnionOf(covers, chosen)|);
    }
  }

  // ---------------------------------------------------------------------------
  // What the selection returned to the caller is worth
  // ---------------------------------------------------------------------------

  /** The checks that some selected partial passes. */
  function Coverage(selected: seq<PartialPass>): set<nat> {
    if selected == [] then {}
    else Coverage(selected[..|selected| - 1]) + selected[|selected| - 1].PassedCheckIndices()
  }

  lemma {:induction false} CoverageOfPicks(cands: seq<PartialPass>, picks: seq<nat>, n: nat)
    requires InRange(Covers(cands), picks) && n <= |picks|
    ensures Coverage(Picked(cands, picks)[..n]) == CoveredBy(Covers(cands), picks, n)
  {
    if n > 0 {
      CoverageOfPicks(cands, picks, n - 1);
      assert Picked(cands, picks)[..n][..n - 1] == Picked(cands, picks)[..n - 1];
    }
  }

  /**
   Against any choice of at most k candidate partials covering OPT checks, the selection
   covers G checks with k^k (OPT - G) <= (k-1)^k OPT.
   */
  lemma SelectionGuarantee(cands: seq<PartialPass>, k: nat, selected: seq<PartialPass>, chosen: set<nat>)
    requires k >= 1 && IsGreedySelection(cands, k, selected)
    requires |chosen| <= k && forall c :: c in chosen ==> c < |cands|
    ensures |selected| <= k
    ensures WithinGuarantee(k, |UnionOf(Covers(cands), chosen)|, |Coverage(selected)|)
    ensures |selected| < k ==> forall c :: c in cands ==> c.PassedCheckIndices() <= Coverage(selected)
  {
    var picks :| IsGreedyRun(Covers(cands), Scores(cands), k, picks) && selected == Picked(cands, picks);
    CoverageOfPicks(cands, picks, |picks|);
    assert selected[..|picks|] == selected;
    hide WithinGuarantee, IsGreedyRun, CoveredBy, Coverage, UnionOf;
    GreedyApproximation(Covers(cands), Scores(cands), k, picks, chosen);
    if |selected| < k {
      EarlyStopCoversAll(Covers(cands), Scores(cands), k, picks);
      forall c | c in cands
        ensures c.PassedCheckIndices() <= Coverage(selected)
      {
        var i :| 0 <= i < |cands| && cands[i] == c;
        assert Covers(cands)[i] <= Coverage(selected);
      }
    }
  }

  /** Selected partial n is a candidate, and no candidate is selected twice. */
  lemma SelectedOnce(cands: seq<PartialPass>, k: nat, selected: seq<PartialPass>) returns (picks: seq<nat>)
    requires IsGreedySelection(cands, k, selected)
    ensures |picks| == |selected| <= k && Distinct(picks)
    ensures forall n :: 0 <= n < |picks| ==> picks[n] < |cands| && selected[n] == cands[picks[n]]
  {
    picks :| IsGreedyRun(Covers(cands), Scores(cands), k, picks) && selected == Picked(cands, picks);
    hide CoveredBy, Gain;
    forall m, n | 0 <= m < n < |picks|
      ensures picks[m] != picks[n]
    {
      assert IsGreedyPick(Covers(cands), Scores(cands), picks, n);
      UsedAreEarlier(picks, n, m);
    }
  }

  lemma {:induction false} UsedAreEarlier(picks: seq<nat>, n: nat, m: nat)
    requires m < n <= |picks|
    ensures picks[m] in UsedBy(picks, n)
  {
    if m < n - 1 {
      UsedAreEarlier(picks, n - 1, m);
    }
  }

  /** What is returned are reports on different events, each of which passes something. */
  lemma SelectedAreReports(
    events: seq<BranchPrunedEvent>, checks: seq<string>, offsets: seq<Offset>, k: nat, selected: seq<PartialPass>)
      returns (of: seq<nat>)
    requires IsGreedySelection(Candidates(events, checks, offsets), k, selected)
    ensures |selected| <= k && Distinct(of) && AreReports(selected, of, events, checks, offsets)
    ensures forall n :: 0 <= n < |of| ==> PassesSomething(events[of[n]], checks, offsets)
  {
    hide IsGreedySelection, IsReportOf, PassesSomething, Candidates;
    var from := CandidatesAreReports(events, checks, offsets);
    var picks := SelectedOnce(Candidates(events, checks, offsets), k, selected);
    of := seq(|picks|, n requires 0 <= n < |picks| => from[picks[n]]);
    forall n | 0 <= n < |of|
      ensures PassesSomething(events[of[n]], checks, offsets)
    {
      assert of[n] in from;
    }
  }

  /** The checks that some chosen event passes. */
  ghost function PassedByEvents(
    events: seq<BranchPrunedEvent>, checks: seq<string>, offsets: seq<Offset>, chosen: set<nat>): set<nat>
  {
    set i: nat, e | e in chosen && e < |events| && i < |checks| && !IsFailed(events[e], offsets, i) :: i
  }

  /** The candidates that report on chosen events: no more than these, and they pass the same checks. */
  lemma ChosenCandidates(
    events: seq<BranchPrunedEvent>, checks: seq<string>, offsets: seq<Offset>, chosen: set<nat>)
      returns (indices: set<nat>)
    ensures |indices| <= |chosen| && forall j :: j in indices ==> j < |Candidates(events, checks, offsets)|
    ensures UnionOf(Covers(Candidates(events, checks, offsets)), indices)
         == PassedByEvents(events, checks, offsets, chosen)
  {
    hide Candidates, ArePassing, AreReports, PassedByEvents, UnionOf, Covers;
    var from := CandidatesAreReports(events, checks, offsets);
    indices := set j: nat | j < |from| && from[j] in chosen;
    assert Increasing(from) && |from| == |Candidates(events, checks, offsets)| by {
      ReportsAreIncreasing(Candidates(events, checks, offsets), from, events, checks, offsets);
    }
    IndicesOfChosen(from, chosen, indices);
    forall x: nat
      ensures x in UnionOf(Covers(Candidates(events, checks, offsets)), indices) <==>
        x in PassedByEvents(events, checks, offsets, chosen)
    {
      if x in UnionOf(Covers(Candidates(events, checks, offsets)), indices) {
        PassedByReports(Candidates(events, checks, offsets), from, events, checks, offsets, chosen, indices, x);
      }
      if x in PassedByEvents(events, checks, offsets, chosen) {
        PassedByChosen(Candidates(events, checks, offsets), from, events, checks, offsets, chosen, indices, x);
      }
    }
  }

  lemma ReportsAreIncreasing(
    cands: seq<PartialPass>, from: seq<nat>, events: seq<BranchPrunedEvent>, checks: seq<string>, offsets: seq<Offset>)
    requires ArePassing(from, events, checks, offsets) && AreReports(cands, from, events, checks, offsets)
    ensures Increasing(from) && |from| == |cands|
  {
    hide IsReportOf, PassesSomething, Increasing;
  }

  lemma PassedByReports(
    cands: seq<PartialPass>, from: seq<nat>, events: seq<BranchPrunedEvent>, checks: seq<string>, offsets: seq<Offset>,
    chosen: set<nat>, indices: set<nat>, x: nat)
    requires AreReports(cands, from, events, checks, offsets)
    requires indices == set j: nat | j < |from| && from[j] in chosen
    requires x in UnionOf(Covers(cands), indices)
    ensures x in PassedByEvents(events, checks, offsets, chosen)
  {
    hide IsFailed;
    var j :| j in indices && j < |cands| && x in Covers(cands)[j];
    assert IsReportOf(cands[j], events[from[j]], checks, offsets);
  }

  lemma PassedByChosen(
    cands: seq<PartialPass>, from: seq<nat>, events: seq<BranchPrunedEvent>, checks: seq<string>, offsets: seq<Offset>,
    chosen: set<nat>, indices: set<nat>, x: nat)
    requires ArePassing(from, events, checks, offsets) && AreReports(cands, from, events, checks, offsets)
    requires indices == set j: nat | j < |from| && from[j] in chosen
    requires x in PassedByEvents(events, checks, offsets, chosen)
    ensures x in UnionOf(Covers(cands), indices)
  {
    hide IsFailed, Increasing;
    var e :| e in chosen && e < |events| && x < |checks| && !IsFailed(events[e], offsets, x);
    assert e in from;
    var j: nat :| j < |from| && from[j] == e;
    assert IsReportOf(cands[j], events[e], checks, offsets);
    assert x in Covers(cands)[j];
  }

  /** Different positions hold different events, so chosen events are at no more positions. */
  lemma {:induction false} IndicesOfChosen(from: seq<nat>, chosen: set<nat>, indices: set<nat>)
    requires Increasing(from) && indices == set j: nat | j < |from| && from[j] in chosen
    ensures |indices| <= |chosen|
    decreases chosen
  {
    if indices != {} {
      var j :| j in indices;
      var fewer := set i: nat | i < |from| && from[i] in chosen - {from[j]};
      assert indices == fewer + {j};
      IndicesOfChosen(from, chosen - {from[j]}, fewer);
    }
  }

  /**
   Against any choice of at most k events, of whose checks OPT are not failed by a constraint, the
   returned partials pass G checks with k^k (OPT - G) <= (k-1)^k OPT.
   */
  lemma SelectionGuaranteeOverEvents(
    events: seq<BranchPrunedEvent>, checks: seq<string>, offsets: seq<Offset>, k: nat,
    selected: seq<PartialPass>, chosen: set<nat>)
    requires k >= 1 && IsGreedySelection(Candidates(events, checks, offsets), k, selected) && |chosen| <= k
    ensures WithinGuarantee(k, |PassedByEvents(events, checks, offsets, chosen)|, |Coverage(selected)|)
    ensures |selected| < k ==> PassedByEvents(events, checks, offsets, chosen) <= Coverage(selected)
  {
    hide IsGreedySelection, WithinGuarantee, Candidates, PassedByEvents, Coverage;
    var indices := ChosenCandidates(events, checks, offsets, chosen);
    SelectionGuarantee(Candidates(events, checks, offsets), k, selected, indices);
  }

  /** The candidates and the budget determine the selection; its first element is the widest candidate. */
  lemma SelectionIsDetermined(cands: seq<PartialPass>, k: nat, selected: seq<PartialPass>, again: seq<PartialPass>)
    requires IsGreedySelection(cands, k, selected) && IsGreedySelection(cands, k, again)
    requires forall c :: c in cands ==> c.PassedCheckIndices() != {}
    ensures selected == again
    ensures selected != [] ==> forall c :: c in cands ==>
      |c.PassedCheckIndices()| <= |selected[0].PassedCheckIndices()|
  {
    var covers, scores := Covers(cands), Scores(cands);
    var p :| IsGreedyRun(covers, scores, k, p) && selected == Picked(cands, p);
    var q :| IsGreedyRun(covers, scores, k, q) && again == Picked(cands, q);
    hide IsGreedyRun;
    GreedyRunIsUnique(covers, scores, k, p, q);
    if p != [] {
      forall j: nat | j < |cands|
        ensures |cands[j].PassedCheckIndices()| <= |selected[0].PassedCheckIndices()|
      {
        BackboneIsWidest(covers, scores, k, p, j);
      }
    }
  }

  /** The first pick is the backbone: no candidate passes more checks. */
  lemma BackboneIsWidest(covers: seq<set<nat>>, scores: seq<real>, k: nat, picks: seq<nat>, j: nat)
    requires IsGreedyRun(covers, scores, k, picks) && picks != [] && j < |covers|
    ensures |covers[j]| <= |covers[picks[0]]|
  {
    GreedyPickDominates(covers, scores, picks, 0, j);
    assert covers[j] - {} == covers[j];
    assert covers[picks[0]] - {} == covers[picks[0]];
  }

  /** Every selected partial passes a check that none selected before it passes. */
  lemma EveryPickCoversSomethingNew(covers: seq<set<nat>>, scores: seq<real>, k: nat, picks: seq<nat>, n: nat)
    requires IsGreedyRun(covers, scores, k, picks) && n < |picks|
    requires forall c :: c in covers ==> c != {}
    ensures CoveredBy(covers, picks, n) < CoveredBy(covers, picks, n + 1)
  {
    var covered, mine := CoveredBy(covers, picks, n), covers[picks[n]];
    assert IsGreedyPick(covers, scores, picks, n);
    assert covers[picks[n]] in covers;
    if covered == {} {
      assert mine - covered == mine;
    }
    var x :| x in mine - covered;
    assert x in CoveredBy(covers, picks, n + 1);
  }

  lemma GreedyPickIsUnique(covers: seq<set<nat>>, scores: seq<real>, p: seq<nat>, q: seq<nat>, n: nat)
    requires |covers| == |scores| && InRange(covers, p) && InRange(covers, q) && n < |p| && n < |q|
    requires CoveredBy(covers, p, n) == CoveredBy(covers, q, n) && UsedBy(p, n) == UsedBy(q, n)
    requires IsGreedyPick(covers, scores, p, n) && IsGreedyPick(covers, scores, q, n)
    ensures p[n] == q[n]
  {
    var covered := CoveredBy(covers, p, n);
    assert AtMost(covers, scores, covered, p[n], q[n]) && AtMost(covers, scores, covered, q[n], p[n]);
  }

  /** Ties are broken the same way every time: two runs make the same picks while both go on. */
  lemma {:induction false} GreedyRunsAgree(
    covers: seq<set<nat>>, scores: seq<real>, k: nat, p: seq<nat>, q: seq<nat>, n: nat)
    requires IsGreedyRun(covers, scores, k, p) && IsGreedyRun(covers, scores, k, q) && n <= |p| && n <= |q|
    ensures forall i :: 0 <= i < n ==> p[i] == q[i]
    ensures CoveredBy(covers, p, n) == CoveredBy(covers, q, n) && UsedBy(p, n) == UsedBy(q, n)
  {
    hide IsGreedyPick, MustStop;
    if n > 0 {
      GreedyRunsAgree(covers, scores, k, p, q, n - 1);
      assert IsGreedyPick(covers, scores, p, n - 1) && IsGreedyPick(covers, scores, q, n - 1);
      GreedyPickIsUnique(covers, scores, p, q, n - 1);
    }
  }

  lemma GreedyRunIsNoLonger(covers: seq<set<nat>>, scores: seq<real>, k: nat, p: seq<nat>, q: seq<nat>)
    requires IsGreedyRun(covers, scores, k, p) && IsGreedyRun(covers, scores, k, q)
    requires forall c :: c in covers ==> c != {}
    ensures |q| <= |p|
  {
    var n := |p|;
    if n < |q| {
      GreedyRunsAgree(covers, scores, k, p, q, n);
      EarlyStopCoversAll(covers, scores, k, p);
      EveryPickCoversSomethingNew(covers, scores, k, q, n);
    }
  }

  /** The candidates and the budget determine the run. */
  lemma GreedyRunIsUnique(covers: seq<set<nat>>, scores: seq<real>, k: nat, p: seq<nat>, q: seq<nat>)
    requires IsGreedyRun(covers, scores, k, p) && IsGreedyRun(covers, scores, k, q)
    requires forall c :: c in covers ==> c != {}
    ensures p == q
  {
    GreedyRunIsNoLonger(covers, scores, k, p, q);
    GreedyRunIsNoLonger(covers, scores, k, q, p);
    GreedyRunsAgree(covers, scores, k, p, q, |p|);
  }
}
