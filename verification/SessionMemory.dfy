/**
 Durable session memory: optimistic appends to one revisioned cell.

 `CommitNewMemories` is the retry loop of one caller against whatever rivals commit
 between its reads and its compare-and-sets. The second half runs any number of callers
 as interleaved steps over the same cell.
 */
module SessionMemory {
  import opened Collections
  import opened Wrappers

  type Memory = string

  const MAX_TRIES: nat := 8

  datatype Cell = Absent | Present(value: seq<Memory>, revision: nat)

  function Contents(cell: Cell): seq<Memory> {
    if cell.Present? then cell.value else []
  }

  function Revision(cell: Cell): Option<nat> {
    if cell.Present? then Some(cell.revision) else None
  }

  /** `create` needs the key to be absent, `update` needs its revision to be the one read. */
  predicate CasHolds(cell: Cell, seen: Option<nat>) {
    Revision(cell) == seen
  }

  /** A revision the store may hand out next. */
  predicate FreshRevision(cell: Cell, revision: nat) {
    cell.Present? ==> revision > cell.revision
  }

  /** Whether a compare-and-set against the earlier cell is too late. */
  predicate Outdates(cell: Cell, earlier: Cell) {
    cell.Present? && FreshRevision(earlier, cell.revision)
  }

  lemma OutdatesAgain(cell: Cell, between: Cell, earlier: Cell)
    requires Outdates(cell, between) && (between == earlier || Outdates(between, earlier))
    ensures Outdates(cell, earlier)
  {
  }

  lemma CasHoldsUnlessOutdated(cell: Cell, read: Cell)
    ensures cell == read ==> CasHolds(cell, Revision(read))
    ensures Outdates(cell, read) ==> !CasHolds(cell, Revision(read))
  {
  }

  // ---------------------------------------------------------------------------
  // One caller
  // ---------------------------------------------------------------------------

  datatype CommitError = TooManyWriters

  /** What rivals commit between the read and the write of one try; nothing once the schedule ends. */
  function RivalsOf(rivals: seq<seq<seq<Memory>>>, tryNo: nat): seq<seq<Memory>> {
    if tryNo < |rivals| then rivals[tryNo] else []
  }

  /** Everything rivals commit during the first n tries. */
  function RivalsUpTo(rivals: seq<seq<seq<Memory>>>, n: nat): seq<Memory> {
    if n == 0 then [] else RivalsUpTo(rivals, n - 1) + Flatten(RivalsOf(rivals, n - 1))
  }

  lemma RivalsUpToNothing(rivals: seq<seq<seq<Memory>>>)
    ensures RivalsUpTo(rivals, 0) == []
  {
  }

  lemma RivalsUpToNext(rivals: seq<seq<seq<Memory>>>, n: nat)
    ensures RivalsUpTo(rivals, n + 1) == RivalsUpTo(rivals, n) + Flatten(RivalsOf(rivals, n))
  {
  }

  /** Nobody commits between the read and the write of this try. */
  predicate Uncontested(rivals: seq<seq<seq<Memory>>>, tryNo: nat) {
    tryNo < |rivals| ==> rivals[tryNo] == []
  }

  lemma UncontestedHasNoRivals(rivals: seq<seq<seq<Memory>>>)
    ensures forall i: nat :: Uncontested(rivals, i) <==> RivalsOf(rivals, i) == []
  {
  }

  /** What the rivals of the first n tries commit is the batches of the schedule, one after the other. */
  lemma {:induction false} RivalsAreTheSchedule(rivals: seq<seq<seq<Memory>>>, n: nat)
    requires n <= |rivals|
    ensures RivalsUpTo(rivals, n) == Flatten(Flatten(rivals[..n]))
  {
    hide Flatten, RivalsUpTo;
    if n == 0 {
      RivalsUpToNothing(rivals);
      NothingFlattened(rivals);
      NoLists<Memory>();
    } else {
      RivalsUpToNext(rivals, n - 1);
      RivalsAreTheSchedule(rivals, n - 1);
      FlattenExtends(rivals, n - 1);
      FlattenConcat(Flatten(rivals[..n - 1]), rivals[n - 1]);
    }
  }

  /** The loop's answer, and the contents before and after it, against a schedule of rivals. */
  ghost predicate LoopOutcome(
    before: seq<Memory>, after: seq<Memory>, memories: seq<Memory>, rivals: seq<seq<seq<Memory>>>,
    r: Result<nat, CommitError>)
  {
    match r
    case Ok(n) =>
      && n < MAX_TRIES && RivalsOf(rivals, n) == []
      && (forall i: nat :: i < n ==> RivalsOf(rivals, i) != [])
      && after == before + RivalsUpTo(rivals, n) + memories
    case Err(_) =>
      && (forall i: nat :: i < MAX_TRIES ==> RivalsOf(rivals, i) != [])
      && after == before + RivalsUpTo(rivals, MAX_TRIES)
  }

  lemma SucceedsAt(
    before: seq<Memory>, after: seq<Memory>, memories: seq<Memory>, rivals: seq<seq<seq<Memory>>>, n: nat)
    requires n < MAX_TRIES && RivalsOf(rivals, n) == []
    requires forall i: nat :: i < n ==> RivalsOf(rivals, i) != []
    requires after == before + RivalsUpTo(rivals, n) + memories
    ensures LoopOutcome(before, after, memories, rivals, Ok(n))
  {
  }

  lemma FailsAfterAll(
    before: seq<Memory>, after: seq<Memory>, memories: seq<Memory>, rivals: seq<seq<seq<Memory>>>)
    requires forall i: nat :: i < MAX_TRIES ==> RivalsOf(rivals, i) != []
    requires after == before + RivalsUpTo(rivals, MAX_TRIES)
    ensures LoopOutcome(before, after, memories, rivals, Err(TooManyWriters))
  {
  }

  class KvCell {
    var cell: Cell

    constructor ()
      ensures cell == Absent
    {
      cell := Absent;
    }

    method Entry() returns (value: seq<Memory>, revision: Option<nat>)
      ensures value == Contents(cell) && revision == Revision(cell)
    {
      return Contents(cell), Revision(cell);
    }

    /** Compare-and-set; a successful write gets a revision above every earlier one. */
    method Cas(value: seq<Memory>, seen: Option<nat>) returns (ok: bool)
      modifies this
      ensures ok <==> CasHolds(old(cell), seen)
      ensures ok ==> Contents(cell) == value && Outdates(cell, old(cell))
      ensures !ok ==> cell == old(cell)
    {
      ok := CasHolds(cell, seen);
      if ok {
        cell := Present(value, if cell.Present? then cell.revision + 1 else 1);
      }
    }

    /** Other callers' appends, each of which won its own compare-and-set. */
    method CommitRivals(batches: seq<seq<Memory>>)
      modifies this
      ensures Contents(cell) == Contents(old(cell)) + Flatten(batches)
      ensures batches == [] ==> cell == old(cell)
      ensures batches != [] ==> Outdates(cell, old(cell))
    {
      hide Flatten, Contents, Revision, Outdates;
      NothingFlattened(batches);
      for i := 0 to |batches|
        invariant Contents(cell) == Contents(old(cell)) + Flatten(batches[..i])
        invariant i == 0 ==> cell == old(cell)
        invariant i > 0 ==> Outdates(cell, old(cell))
      {
        FlattenExtends(batches, i);
        ghost var before := cell;
        var value, revision := Entry();
        var won := Cas(value + batches[i], revision);
        OutdatesAgain(cell, before, old(cell));
      }
      assert batches[..|batches|] == batches;
    }

    /**
     The call succeeds at its first try without a rival and then its batch follows everything
     committed before it; after eight contested tries it gives up and leaves only the rivals' batches.
     */
    method CommitNewMemories(memories: seq<Memory>, rivals: seq<seq<seq<Memory>>>) returns (r: Result<nat, CommitError>)
      modifies this
      ensures r.Ok? <==> exists i: nat :: i < 8 && Uncontested(rivals, i)
      ensures LoopOutcome(Contents(old(cell)), Contents(cell), memories, rivals, r)
    {
      hide Flatten, RivalsUpTo, RivalsOf, Uncontested, Contents, Revision, CasHolds, Outdates, LoopOutcome;
      UncontestedHasNoRivals(rivals);
      RivalsUpToNothing(rivals);
      for tries := 0 to MAX_TRIES
        invariant forall i: nat :: i < tries ==> RivalsOf(rivals, i) != []
        invariant Contents(cell) == Contents(old(cell)) + RivalsUpTo(rivals, tries)
      {
        RivalsUpToNext(rivals, tries);
        ghost var read := cell;
        var existing, revision := Entry();
        CommitRivals(RivalsOf(rivals, tries));
        CasHoldsUnlessOutdated(cell, read);
        existing := existing + memories;
        var won := Cas(existing, revision);
        if won {
          SucceedsAt(Contents(old(cell)), Contents(cell), memories, rivals, tries);
          return Ok(tries);
        }
        assert RivalsOf(rivals, tries) != [];
      }
      FailsAfterAll(Contents(old(cell)), Contents(cell), memories, rivals);
      return Err(TooManyWriters);
    }

    /** The last `limit` entries, oldest first. */
    method GetRecentHistory(limit: nat) returns (recent: seq<Memory>)
      ensures recent == LastEntries(Contents(cell), limit)
    {
      var all := Contents(cell);
      var start := if |all| > limit then |all| - limit else 0;
      return all[start..];
    }
  }

  function LastEntries(all: seq<Memory>, limit: nat): seq<Memory> {
    if |all| <= limit then all else all[|all| - limit..]
  }

  // ---------------------------------------------------------------------------
  // The sequential counterpart
  // ---------------------------------------------------------------------------

  function Reverse(s: seq<Memory>): (r: seq<Memory>)
    ensures |r| == |s|
    ensures forall i :: 0 <= i < |s| ==> r[i] == s[|s| - 1 - i]
  {
    if s == [] then [] else [s[|s| - 1]] + Reverse(s[..|s| - 1])
  }

  class InMemoryCache {
    var store: map<string, seq<Memory>>

    constructor ()
      ensures store == map[]
    {
      store := map[];
    }

    function SessionContents(session: string): seq<Memory>
      reads this
    {
      if session in store then store[session] else []
    }

    method CommitNewMemories(session: string, memories: seq<Memory>)
      modifies this
      ensures SessionContents(session) == old(SessionContents(session)) + memories
      ensures forall other :: other != session ==> SessionContents(other) == old(SessionContents(other))
    {
      store := store[session := SessionContents(session) + memories];
    }

    /** The newest `limit` entries, newest first. */
    method GetRecentHistory(session: string, limit: nat) returns (recent: seq<Memory>)
      ensures recent == Newest(SessionContents(session), limit)
    {
      recent := [];
      var all := SessionContents(session);
      for i := 0 to if |all| < limit then |all| else limit
        invariant recent == Reverse(all)[..i]
      {
        recent := recent + [all[|all| - 1 - i]];
      }
    }
  }

  function Newest(all: seq<Memory>, limit: nat): seq<Memory> {
    var newestFirst := Reverse(all);
    if |newestFirst| <= limit then newestFirst else newestFirst[..limit]
  }

  /** Both stores return the latest entries, as many as there are up to the limit. */
  lemma RecentAreTheLatest(all: seq<Memory>, limit: nat)
    ensures var n := if limit < |all| then limit else |all|;
      && |LastEntries(all, limit)| == |Newest(all, limit)| == n
      && (forall i :: 0 <= i < n ==> LastEntries(all, limit)[i] == all[|all| - n + i])
      && forall i :: 0 <= i < n ==> Newest(all, limit)[i] == all[|all| - 1 - i]
  {
    hide Reverse;
  }

  /** The two stores return the same entries in opposite orders. */
  lemma RecentHistoriesAreReversed(all: seq<Memory>, limit: nat)
    ensures Newest(all, limit) == Reverse(LastEntries(all, limit))
  {
    hide Reverse;
    var newest, reversed := Newest(all, limit), Reverse(LastEntries(all, limit));
    assert |newest| == |reversed|;
    assert forall i :: 0 <= i < |newest| ==> newest[i] == all[|all| - 1 - i] == reversed[i];
  }

  // ---------------------------------------------------------------------------
  // Any number of callers
  // ---------------------------------------------------------------------------

  /** Where a call is. `at` is the number of commits that had landed when it last read. */
  datatype Phase =
    | Ready(tries: nat)
    | Loaded(tries: nat, existing: seq<Memory>, seen: Option<nat>, at: nat)
    | Committed
    | GaveUp

  /**
   The cell and the calls, with three records for the statements below: which calls
   committed in revision order, the revisions they got, and how many commits had landed
   when each call first read.
   */
  datatype State = State(
    cell: Cell,
    phases: seq<Phase>,
    log: seq<nat>,
    revisions: seq<nat>,
    since: seq<nat>)

  /** The cell before any call, and the batch of each call. */
  datatype World = World(start: Cell, batches: seq<seq<Memory>>)

  function Init(w: World): State {
    State(w.start, seq(|w.batches|, _ => Ready(0)), [], [], seq(|w.batches|, _ => 0))
  }

  function Load(s: State, c: nat): State
    requires c < |s.phases| == |s.since| && s.phases[c].Ready?
  {
    var k := s.phases[c].tries;
    s.(phases := s.phases[c := Loaded(k, Contents(s.cell), Revision(s.cell), |s.log|)],
       since := if k == 0 then s.since[c := |s.log|] else s.since)
  }

  function Commit(w: World, s: State, c: nat, revision: nat): State
    requires c < |s.phases| == |w.batches| && s.phases[c].Loaded?
  {
    s.(cell := Present(s.phases[c].existing + w.batches[c], revision),
       phases := s.phases[c := Committed],
       log := s.log + [c],
       revisions := s.revisions + [revision])
  }

  function Miss(s: State, c: nat): State
    requires c < |s.phases| && s.phases[c].Loaded?
  {
    var k := s.phases[c].tries + 1;
    s.(phases := s.phases[c := if k < MAX_TRIES then Ready(k) else GaveUp])
  }

  /** One atomic action of call c. */
  ghost predicate Step(w: World, s: State, next: State, c: nat) {
    && c < |s.phases| == |w.batches| == |s.since|
    && match s.phases[c]
       case Ready(_) => next == Load(s, c)
       case Loaded(_, _, seen, _) =>
         if CasHolds(s.cell, seen)
         then exists revision :: FreshRevision(s.cell, revision) && next == Commit(w, s, c, revision)
         else next == Miss(s, c)
       case Committed => false
       case GaveUp => false
  }

  ghost predicate Steps(w: World, s: State, next: State) {
    exists c: nat :: Step(w, s, next, c)
  }

  ghost predicate IsRun(w: World, run: seq<State>) {
    && run != []
    && run[0] == Init(w)
    && forall i :: 0 < i < |run| ==> Steps(w, run[i - 1], run[i])
  }

  ghost predicate Reachable(w: World, s: State) {
    exists run :: IsRun(w, run) && run[|run| - 1] == s
  }

  // ---------------------------------------------------------------------------
  // What every step keeps
  // ---------------------------------------------------------------------------

  function BatchOf(w: World, c: nat): seq<Memory> {
    if c < |w.batches| then w.batches[c] else []
  }

  /** What the cell held before any call, followed by the batches of the logged calls, in order. */
  function Concat(w: World, log: seq<nat>): seq<Memory> {
    if log == [] then Contents(w.start) else Concat(w, log[..|log| - 1]) + BatchOf(w, log[|log| - 1])
  }

  /** The revision the cell has once the given revisions have been handed out. */
  function LastOf(w: World, revisions: seq<nat>): Option<nat> {
    if revisions == [] then Revision(w.start) else Some(revisions[|revisions| - 1])
  }

  /** Revisions only go up, from the one the cell had before any call. */
  ghost predicate Rising(w: World, revisions: seq<nat>) {
    Increasing(revisions) && forall i :: 0 <= i < |revisions| ==> FreshRevision(w.start, revisions[i])
  }

  /** Exactly the committed calls are logged, each once. */
  ghost predicate LogIsSound(phases: seq<Phase>, log: seq<nat>) {
    && Distinct(log)
    && (forall i :: 0 <= i < |log| ==> log[i] < |phases|)
    && forall c: nat :: c < |phases| ==> (phases[c].Committed? <==> c in log)
  }

  /** The cell holds the logged batches at the last revision handed out. */
  ghost predicate CellIsLog(w: World, cell: Cell, log: seq<nat>, revisions: seq<nat>) {
    && Contents(cell) == Concat(w, log)
    && Revision(cell) == LastOf(w, revisions)
  }

  /** A call's tries are paid for by commits that landed since it first read. */
  ghost predicate PhaseIsSound(w: World, log: seq<nat>, revisions: seq<nat>, phase: Phase, since: nat) {
    match phase
    case Ready(k) => k < MAX_TRIES && (k > 0 ==> since + k <= |log|)
    case Loaded(k, existing, seen, at) =>
      && k < MAX_TRIES && since + k <= at <= |log| == |revisions|
      && existing == Concat(w, log[..at])
      && seen == LastOf(w, revisions[..at])
    case Committed => true
    case GaveUp => since + MAX_TRIES <= |log|
  }

  ghost predicate Inv(w: World, s: State) {
    && |s.phases| == |w.batches| == |s.since|
    && |s.revisions| == |s.log|
    && LogIsSound(s.phases, s.log)
    && Rising(w, s.revisions)
    && CellIsLog(w, s.cell, s.log, s.revisions)
    && forall c: nat :: c < |w.batches| ==> PhaseIsSound(w, s.log, s.revisions, s.phases[c], s.since[c])
  }

  /** A compare-and-set against the revision read succeeds exactly when nothing landed since. */
  lemma CasHoldsIffNothingLanded(w: World, s: State, c: nat)
    requires Inv(w, s) && c < |w.batches| && s.phases[c].Loaded?
    ensures s.phases[c].at <= |s.log|
    ensures CasHolds(s.cell, s.phases[c].seen) <==> s.phases[c].at == |s.log|
    ensures s.phases[c].at == |s.log| ==> s.phases[c].existing == Contents(s.cell)
  {
    hide Concat, LogIsSound;
    assert PhaseIsSound(w, s.log, s.revisions, s.phases[c], s.since[c]);
    var at := s.phases[c].at;
    assert s.log[..|s.log|] == s.log && s.revisions[..|s.log|] == s.revisions;
    if 0 < at < |s.log| {
      assert s.revisions[..at][at - 1] == s.revisions[at - 1] < s.revisions[|s.log| - 1];
    }
  }

  lemma PhaseStaysSound(
    w: World, log: seq<nat>, revisions: seq<nat>, phase: Phase, since: nat, c: nat, revision: nat)
    requires PhaseIsSound(w, log, revisions, phase, since)
    ensures PhaseIsSound(w, log + [c], revisions + [revision], phase, since)
  {
    hide Concat;
    if phase.Loaded? {
      assert (log + [c])[..phase.at] == log[..phase.at];
      assert (revisions + [revision])[..phase.at] == revisions[..phase.at];
    }
  }

  lemma ConcatExtends(w: World, log: seq<nat>, c: nat)
    ensures Concat(w, log + [c]) == Concat(w, log) + BatchOf(w, c)
  {
    assert (log + [c])[..|log|] == log;
  }

  lemma LogStaysSound(phases: seq<Phase>, log: seq<nat>, c: nat)
    requires LogIsSound(phases, log) && c < |phases| && !phases[c].Committed?
    ensures LogIsSound(phases[c := Committed], log + [c])
  {
    assert c !in log;
    forall d: nat | d < |phases|
      ensures phases[c := Committed][d].Committed? <==> d in log + [c]
    {
      assert d in log + [c] <==> d in log || d == c;
    }
  }

  lemma LogIgnoresOpenCalls(phases: seq<Phase>, log: seq<nat>, c: nat, phase: Phase)
    requires LogIsSound(phases, log) && c < |phases| && !phases[c].Committed? && !phase.Committed?
    ensures LogIsSound(phases[c := phase], log)
  {
  }

  lemma RevisionsKeepRising(w: World, cell: Cell, revisions: seq<nat>, revision: nat)
    requires Rising(w, revisions) && Revision(cell) == LastOf(w, revisions) && FreshRevision(cell, revision)
    ensures Rising(w, revisions + [revision])
  {
  }

  lemma CommitKeepsInv(w: World, s: State, c: nat, revision: nat)
    requires Inv(w, s) && c < |w.batches| && s.phases[c].Loaded?
    requires CasHolds(s.cell, s.phases[c].seen) && FreshRevision(s.cell, revision)
    ensures Inv(w, Commit(w, s, c, revision))
  {
    hide Concat, LogIsSound, PhaseIsSound, Rising, FreshRevision, CasHolds;
    CasHoldsIffNothingLanded(w, s, c);
    var next := Commit(w, s, c, revision);
    LogStaysSound(s.phases, s.log, c);
    RevisionsKeepRising(w, s.cell, s.revisions, revision);
    ConcatExtends(w, s.log, c);
    assert CellIsLog(w, next.cell, next.log, next.revisions);
    forall d: nat | d < |w.batches|
      ensures PhaseIsSound(w, next.log, next.revisions, next.phases[d], next.since[d])
    {
      if d == c {
        CommittedIsSound(w, next.log, next.revisions, next.since[d]);
      } else {
        PhaseStaysSound(w, s.log, s.revisions, s.phases[d], s.since[d], c, revision);
      }
    }
  }

  lemma CommittedIsSound(w: World, log: seq<nat>, revisions: seq<nat>, since: nat)
    ensures PhaseIsSound(w, log, revisions, Committed, since)
  {
  }

  lemma LoadKeepsInv(w: World, s: State, c: nat)
    requires Inv(w, s) && c < |w.batches| && s.phases[c].Ready?
    ensures Inv(w, Load(s, c))
  {
    hide Concat, LogIsSound, Rising;
    var next := Load(s, c);
    LogIgnoresOpenCalls(s.phases, s.log, c, next.phases[c]);
    assert s.log[..|s.log|] == s.log && s.revisions[..|s.log|] == s.revisions;
    assert PhaseIsSound(w, s.log, s.revisions, s.phases[c], s.since[c]);
    assert PhaseIsSound(w, s.log, s.revisions, next.phases[c], next.since[c]);
    OthersStaySound(w, s, next, c);
  }

  lemma MissKeepsInv(w: World, s: State, c: nat)
    requires Inv(w, s) && c < |w.batches| && s.phases[c].Loaded?
    requires !CasHolds(s.cell, s.phases[c].seen)
    ensures Inv(w, Miss(s, c))
  {
    hide Concat, LogIsSound, Rising, CasHolds, CellIsLog;
    var next := Miss(s, c);
    CasHoldsIffNothingLanded(w, s, c);
    LogIgnoresOpenCalls(s.phases, s.log, c, next.phases[c]);
    assert PhaseIsSound(w, s.log, s.revisions, s.phases[c], s.since[c]);
    assert PhaseIsSound(w, s.log, s.revisions, next.phases[c], next.since[c]);
    OthersStaySound(w, s, next, c);
  }

  lemma OthersStaySound(w: World, s: State, next: State, c: nat)
    requires Inv(w, s) && c < |w.batches|
    requires next.log == s.log && next.revisions == s.revisions
    requires |next.phases| == |next.since| == |w.batches|
    requires forall d: nat :: d < |w.batches| && d != c ==> next.phases[d] == s.phases[d] && next.since[d] == s.since[d]
    requires PhaseIsSound(w, s.log, s.revisions, next.phases[c], next.since[c])
    ensures forall d: nat :: d < |w.batches| ==>
      PhaseIsSound(w, next.log, next.revisions, next.phases[d], next.since[d])
  {
    hide Concat, LogIsSound, Rising, CellIsLog, PhaseIsSound;
  }

  lemma StepKeepsInv(w: World, s: State, next: State, c: nat)
    requires Inv(w, s) && Step(w, s, next, c)
    ensures Inv(w, next)
  {
    hide Inv, Load, Commit, Miss, CasHolds, FreshRevision;
    if s.phases[c].Ready? {
      LoadKeepsInv(w, s, c);
    } else if CasHolds(s.cell, s.phases[c].seen) {
      var revision :| FreshRevision(s.cell, revision) && next == Commit(w, s, c, revision);
      CommitKeepsInv(w, s, c, revision);
    } else {
      MissKeepsInv(w, s, c);
    }
  }

  lemma {:induction false} RunsKeepInv(w: World, run: seq<State>)
    requires IsRun(w, run)
    ensures Inv(w, run[|run| - 1])
    decreases |run|
  {
    hide Step;
    var n := |run| - 1;
    if n > 0 {
      hide Inv, Init;
      assert run[..n][n - 1] == run[n - 1];
      forall i | 0 < i < n
        ensures Steps(w, run[..n][i - 1], run[..n][i])
      {
        assert Steps(w, run[i - 1], run[i]);
      }
      RunsKeepInv(w, run[..n]);
      assert Steps(w, run[n - 1], run[n]);
      var c: nat :| Step(w, run[n - 1], run[n], c);
      StepKeepsInv(w, run[n - 1], run[n], c);
    }
  }

  lemma ReachableIsSound(w: World, s: State)
    requires Reachable(w, s)
    ensures Inv(w, s)
  {
    hide Inv, Init, Steps;
    var run :| IsRun(w, run) && run[|run| - 1] == s;
    RunsKeepInv(w, run);
  }

  // ---------------------------------------------------------------------------
  // Safety and progress
  // ---------------------------------------------------------------------------

  /** In every interleaving the stored history is the committed batches, each once, in revision order. */
  lemma HistoryIsCommittedBatches(w: World, s: State)
    requires Reachable(w, s)
    ensures |s.phases| == |w.batches| && |s.revisions| == |s.log|
    ensures forall c: nat :: c < |w.batches| ==> (s.phases[c].Committed? <==> c in s.log)
    ensures Distinct(s.log) && Rising(w, s.revisions)
    ensures forall i :: 0 <= i < |s.log| ==> s.log[i] < |w.batches|
    ensures Contents(s.cell) == Concat(w, s.log) && Revision(s.cell) == LastOf(w, s.revisions)
  {
    hide Reachable, PhaseIsSound, Concat, Rising, Distinct;
    ReachableIsSound(w, s);
  }

  lemma {:induction false} ConcatSplits(w: World, log: seq<nat>, i: nat)
    requires i < |log|
    ensures exists after :: Concat(w, log) == Concat(w, log[..i]) + BatchOf(w, log[i]) + after
    decreases |log|
  {
    hide BatchOf;
    var n := |log| - 1;
    if i == n {
      assert Concat(w, log) == Concat(w, log[..i]) + BatchOf(w, log[i]) + [];
    } else {
      ConcatSplits(w, log[..n], i);
      assert log[..n][..i] == log[..i];
      var after :| Concat(w, log[..n]) == Concat(w, log[..i]) + BatchOf(w, log[i]) + after;
      assert Concat(w, log)
          == Concat(w, log[..i]) + BatchOf(w, log[i]) + (after + BatchOf(w, log[n]));
    }
  }

  /** A committed batch is contiguous, right behind everything committed before it. */
  lemma CommittedBatchIsContiguous(w: World, s: State, i: nat)
    requires Reachable(w, s) && i < |s.log|
    ensures s.log[i] < |w.batches|
    ensures exists after :: Contents(s.cell) == Concat(w, s.log[..i]) + w.batches[s.log[i]] + after
  {
    hide Reachable, Concat, Rising, Distinct;
    HistoryIsCommittedBatches(w, s);
    ConcatSplits(w, s.log, i);
  }

  /** A call that gives up saw at least eight commits, each of another call, land while it ran. */
  lemma GivingUpMeansEightRivals(w: World, s: State, c: nat)
    requires Reachable(w, s) && c < |s.phases| && s.phases[c].GaveUp?
    ensures |s.since| == |s.phases| && s.since[c] + 8 <= |s.log|
    ensures Distinct(s.log) && c !in s.log
  {
    hide Reachable, Concat, Rising, Distinct, CellIsLog;
    ReachableIsSound(w, s);
    assert PhaseIsSound(w, s.log, s.revisions, s.phases[c], s.since[c]);
  }

  lemma {:induction false} DistinctBelow(s: seq<nat>, n: nat)
    requires forall i :: 0 <= i < |s| ==> s[i] < n
    requires Distinct(s)
    ensures |s| <= n
    decreases n
  {
    if s == [] {
      return;
    }
    assert 0 <= s[0] < n;
    if n - 1 in s {
      var k :| 0 <= k < |s| && s[k] == n - 1;
      var rest := s[..k] + s[k + 1..];
      assert forall i :: 0 <= i < |rest| ==> rest[i] == if i < k then s[i] else s[i + 1];
      DistinctBelow(rest, n - 1);
    } else {
      DistinctBelow(s, n - 1);
    }
  }

  /** With at most eight calls in total none gives up. */
  lemma EightCallsAllSucceed(w: World, s: State, c: nat)
    requires Reachable(w, s) && |w.batches| <= 8 && c < |s.phases|
    ensures !s.phases[c].GaveUp?
  {
    hide Reachable, Concat, Rising;
    HistoryIsCommittedBatches(w, s);
    if s.phases[c].GaveUp? {
      GivingUpMeansEightRivals(w, s, c);
      DistinctBelow(s.log + [c], |w.batches|);
    }
  }

  lemma ReachableStep(w: World, s: State, next: State, c: nat)
    requires Reachable(w, s) && Step(w, s, next, c)
    ensures Reachable(w, next)
  {
    hide Init, Step;
    var run :| IsRun(w, run) && run[|run| - 1] == s;
    var longer := run + [next];
    assert Steps(w, run[|run| - 1], next);
    forall i | 0 < i < |longer|
      ensures Steps(w, longer[i - 1], longer[i])
    {
      if i < |run| {
        assert Steps(w, run[i - 1], run[i]);
      }
    }
    assert IsRun(w, longer) && longer[|longer| - 1] == next;
  }

  /** A call that nobody contests reads and commits behind what the cell holds, at a newer revision. */
  lemma WinningATry(w: World, s: State, c: nat) returns (next: State)
    requires Reachable(w, s) && c < |s.phases| == |w.batches| == |s.since| && s.phases[c].Ready?
    ensures Reachable(w, next) && |next.since| == |w.batches| && next.phases == s.phases[c := Committed]
    ensures Contents(next.cell) == Contents(s.cell) + w.batches[c]
    ensures Outdates(next.cell, s.cell)
  {
    hide Reachable;
    var read := Load(s, c);
    ReachableStep(w, s, read, c);
    var revision := if s.cell.Present? then s.cell.revision + 1 else 1;
    assert FreshRevision(read.cell, revision);
    next := Commit(w, read, c, revision);
    ReachableStep(w, read, next, c);
  }

  /** No call from the given one on has started. */
  ghost predicate Pending(w: World, s: State, from: nat) {
    && Reachable(w, s) && |s.phases| == |w.batches| == |s.since|
    && forall d :: from <= d < |w.batches| ==> s.phases[d] == Ready(0)
  }

  function AfterTries(k: nat): Phase {
    if k < MAX_TRIES then Ready(k) else GaveUp
  }

  /** Calls `from` to `until` commit between the read and the write of call 0. */
  lemma LosingATry(w: World, s: State, from: nat, until: nat) returns (next: State)
    requires Pending(w, s, from) && 0 < from < until <= |w.batches| && s.phases[0].Ready?
    ensures Pending(w, next, until) && next.phases[0] == AfterTries(s.phases[0].tries + 1)
    ensures Contents(next.cell) == Contents(s.cell) + Flatten(w.batches[from..until])
  {
    hide Reachable, Contents, Flatten;
    var read := Load(s, 0);
    ReachableStep(w, s, read, 0);
    var committed := read;
    NothingFlattened(w.batches[from..]);
    assert w.batches[from..][..0] == w.batches[from..from];
    for c := from to until
      invariant Pending(w, committed, c) && committed.phases[0] == read.phases[0]
      invariant Contents(committed.cell) == Contents(s.cell) + Flatten(w.batches[from..c])
      invariant committed.cell == s.cell || Outdates(committed.cell, s.cell)
      invariant c > from ==> Outdates(committed.cell, s.cell)
    {
      committed := WinningATry(w, committed, c);
      FlattenSlice(w.batches, from, c);
    }
    next := Miss(committed, 0);
    ReachableStep(w, committed, next, 0);
  }

  lemma FlattenSlice(batches: seq<seq<Memory>>, from: nat, i: nat)
    requires from <= i < |batches|
    ensures Flatten(batches[from..i + 1]) == Flatten(batches[from..i]) + batches[i]
  {
    assert batches[from..i + 1][..i - from] == batches[from..i];
  }

  lemma NothingStarted(w: World)
    ensures Pending(w, Init(w), 0)
  {
    hide Step;
    var s := Init(w);
    assert IsRun(w, [s]) && [s][|[s]| - 1] == s;
  }

  /** Eight calls is the most that is safe: among nine or more one may give up. */
  lemma NineCallsCanFail(w: World) returns (s: State)
    requires |w.batches| > 8
    ensures Reachable(w, s) && |s.phases| == |w.batches| && s.phases[0].GaveUp?
  {
    hide Reachable, Flatten;
    s := Init(w);
    NothingStarted(w);
    for k := 0 to MAX_TRIES
      invariant Pending(w, s, k + 1) && s.phases[0] == AfterTries(k)
    {
      s := LosingATry(w, s, k + 1, k + 2);
    }
  }

  // ---------------------------------------------------------------------------
  // The loop of one caller as steps
  // ---------------------------------------------------------------------------

  /** One call with the given memories, and one call for every batch of the schedule. */
  function Contest(start: Cell, memories: seq<Memory>, rivals: seq<seq<seq<Memory>>>): World {
    World(start, [memories] + Flatten(rivals))
  }

  /** The first call of the schedule that is not part of the first k tries. */
  function FirstAfter(rivals: seq<seq<seq<Memory>>>, k: nat): (c: nat)
    requires k <= |rivals|
    ensures c > 0
  {
    1 + |Flatten(rivals[..k])|
  }

  /** The calls of a try are neighbours. */
  lemma CallsOfATry(start: Cell, memories: seq<Memory>, rivals: seq<seq<seq<Memory>>>, k: nat)
    requires k < |rivals|
    ensures var from, until := FirstAfter(rivals, k), FirstAfter(rivals, k + 1);
      var batches := Contest(start, memories, rivals).batches;
      until == from + |rivals[k]| && until <= |batches| && batches[from..until] == rivals[k]
  {
    hide Flatten;
    FlattenExtends(rivals, k);
    FlattenedPrefix(rivals, k + 1);
    SliceOf([memories] + Flatten(rivals[..k]), rivals[k], Contest(start, memories, rivals).batches);
  }

  lemma SliceOf<T>(before: seq<T>, part: seq<T>, all: seq<T>)
    requires before + part <= all
    ensures all[|before|..|before| + |part|] == part
  {
    assert all[..|before| + |part|] == before + part;
    assert all[..|before| + |part|][|before|..] == part;
  }

  /** Call 0 has lost k tries, each to all rivals of that try, and the calls behind them have not started. */
  ghost predicate HasLost(w: World, rivals: seq<seq<seq<Memory>>>, s: State, k: nat) {
    && k <= |rivals| && w.batches != []
    && Pending(w, s, FirstAfter(rivals, k)) && s.phases[0] == AfterTries(k)
    && Contents(s.cell) == Contents(w.start) + RivalsUpTo(rivals, k)
  }

  lemma NothingLost(start: Cell, memories: seq<Memory>, rivals: seq<seq<seq<Memory>>>)
    ensures HasLost(Contest(start, memories, rivals), rivals, Init(Contest(start, memories, rivals)), 0)
  {
    hide Reachable, RivalsUpTo, Flatten;
    NothingStarted(Contest(start, memories, rivals));
    RivalsUpToNothing(rivals);
  }

  lemma OneMoreLost(start: Cell, memories: seq<Memory>, rivals: seq<seq<seq<Memory>>>, s: State, k: nat)
      returns (next: State)
    requires k < MAX_TRIES && RivalsOf(rivals, k) != []
    requires HasLost(Contest(start, memories, rivals), rivals, s, k)
    ensures HasLost(Contest(start, memories, rivals), rivals, next, k + 1)
  {
    hide Reachable, RivalsUpTo, Contents, Flatten, FirstAfter, Contest;
    CallsOfATry(start, memories, rivals, k);
    next := LosingATry(Contest(start, memories, rivals), s, FirstAfter(rivals, k), FirstAfter(rivals, k + 1));
    RivalsUpToNext(rivals, k);
  }

  /**
   Against every schedule of rivals the steps of call 0, with the rivals of each try committing
   between its read and its write, end as `CommitNewMemories` does.
   */
  lemma LoopIsARun(start: Cell, memories: seq<Memory>, rivals: seq<seq<seq<Memory>>>)
      returns (s: State, r: Result<nat, CommitError>)
    ensures Reachable(Contest(start, memories, rivals), s) && s.phases != []
    ensures s.phases[0] == if r.Ok? then Committed else GaveUp
    ensures LoopOutcome(Contents(start), Contents(s.cell), memories, rivals, r)
  {
    hide Reachable, RivalsUpTo, Contents, Flatten, FirstAfter, Init;
    var w := Contest(start, memories, rivals);
    s := Init(w);
    NothingLost(start, memories, rivals);
    for k := 0 to MAX_TRIES
      invariant HasLost(w, rivals, s, k)
      invariant forall i: nat :: i < k ==> RivalsOf(rivals, i) != []
    {
      if RivalsOf(rivals, k) == [] {
        s := WinningATry(w, s, 0);
        return s, Ok(k);
      }
      s := OneMoreLost(start, memories, rivals, s, k);
    }
    r := Err(TooManyWriters);
  }
}
