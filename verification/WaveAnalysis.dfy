/** Regressions and oscillations across the waves of pruned proposals. */
module WaveAnalysis {
  import opened Collections
  import opened Events
  import opened Text

  // ---------------------------------------------------------------------------
  // Waves and their violations
  // ---------------------------------------------------------------------------

  predicate HasWave(pruned: seq<BranchPrunedEvent>, wave: nat) {
    exists i :: 0 <= i < |pruned| && pruned[i].retryCount == wave
  }

  /** Violation j of event i names the constraint, and the event belongs to the wave. */
  predicate IsViolation(pruned: seq<BranchPrunedEvent>, i: nat, j: nat, wave: nat, id: string) {
    && i < |pruned| && pruned[i].retryCount == wave
    && j < |pruned[i].violatedConstraints| && pruned[i].violatedConstraints[j].constraintId == id
  }

  ghost predicate Violates(pruned: seq<BranchPrunedEvent>, wave: nat, id: string) {
    exists i: nat, j: nat :: IsViolation(pruned, i, j, wave, id)
  }

  function ViolationsAt(pruned: seq<BranchPrunedEvent>, wave: nat): (ids: set<string>)
    ensures forall id :: id in ids <==> Violates(pruned, wave, id)
  {
    var ids := set i: nat, j: nat |
      i < |pruned| && pruned[i].retryCount == wave && j < |pruned[i].violatedConstraints| ::
      pruned[i].violatedConstraints[j].constraintId;
    assert forall id :: id in ids <==> Violates(pruned, wave, id) by {
      forall id
        ensures id in ids <==> Violates(pruned, wave, id)
      {
        if Violates(pruned, wave, id) {
          var i: nat, j: nat :| IsViolation(pruned, i, j, wave, id);
          assert pruned[i].violatedConstraints[j].constraintId in ids;
        }
        if id in ids {
          var i: nat, j: nat :| i < |pruned| && pruned[i].retryCount == wave && j < |pruned[i].violatedConstraints|
            && pruned[i].violatedConstraints[j].constraintId == id;
          assert IsViolation(pruned, i, j, wave, id);
        }
      }
    }
    ids
  }

  /** Every wave once, ascending. */
  ghost predicate IsWaveList(pruned: seq<BranchPrunedEvent>, waves: seq<nat>) {
    && Increasing(waves)
    && forall wave: nat :: wave in waves <==> HasWave(pruned, wave)
  }

  function InsertWave(waves: seq<nat>, wave: nat): seq<nat> {
    if waves == [] then [wave]
    else
      var n := |waves| - 1;
      if waves[n] < wave then waves + [wave]
      else if waves[n] == wave then waves
      else InsertWave(waves[..n], wave) + [waves[n]]
  }

  lemma {:induction false} InsertWaveKeepsOrder(waves: seq<nat>, wave: nat)
    requires Increasing(waves)
    ensures Increasing(InsertWave(waves, wave))
    ensures forall w :: w in InsertWave(waves, wave) <==> w in waves || w == wave
    decreases |waves|
  {
    if waves != [] && waves[|waves| - 1] > wave {
      var n := |waves| - 1;
      InsertWaveKeepsOrder(waves[..n], wave);
      assert waves == waves[..n] + [waves[n]];
      AppendGreater(InsertWave(waves[..n], wave), waves[n]);
    }
  }

  lemma AppendGreater(waves: seq<nat>, last: nat)
    requires Increasing(waves) && forall w :: w in waves ==> w < last
    ensures Increasing(waves + [last])
  {
    forall i, j | 0 <= i < j < |waves + [last]|
      ensures (waves + [last])[i] < (waves + [last])[j]
    {
      if j == |waves| {
        assert waves[i] in waves;
      }
    }
  }

  method DistinctWaves(pruned: seq<BranchPrunedEvent>) returns (waves: seq<nat>)
    ensures IsWaveList(pruned, waves)
  {
    waves := [];
    for i := 0 to |pruned|
      invariant Increasing(waves)
      invariant forall wave: nat :: wave in waves <==> HasWave(pruned[..i], wave)
    {
      InsertWaveKeepsOrder(waves, pruned[i].retryCount);
      waves := InsertWave(waves, pruned[i].retryCount);
      HasWaveExtends(pruned, i);
    }
    assert pruned[..|pruned|] == pruned;
  }

  lemma HasWaveExtends(pruned: seq<BranchPrunedEvent>, n: nat)
    requires n < |pruned|
    ensures forall wave: nat :: HasWave(pruned[..n + 1], wave) <==>
      HasWave(pruned[..n], wave) || wave == pruned[n].retryCount
  {
    var shorter, longer := pruned[..n], pruned[..n + 1];
    forall wave: nat
      ensures HasWave(longer, wave) <==> HasWave(shorter, wave) || wave == pruned[n].retryCount
    {
      assert forall i :: 0 <= i < n ==> longer[i] == shorter[i];
      assert longer[n] == pruned[n];
    }
  }

  // ---------------------------------------------------------------------------
  // Violation history
  // ---------------------------------------------------------------------------

  type History = map<string, seq<nat>>

  function HistoryOf(history: History, id: string): seq<nat> {
    if id in history then history[id] else []
  }

  /** One entry of the wave per violation of the constraint among the first k of an event. */
  function Repeats(event: BranchPrunedEvent, id: string, k: nat): seq<nat>
    requires k <= |event.violatedConstraints|
  {
    if k == 0 then []
    else
      Repeats(event, id, k - 1)
      + if event.violatedConstraints[k - 1].constraintId == id then [event.retryCount] else []
  }

  /** All waves at which the constraint was violated, in event order, with repetitions. */
  function WavesOf(pruned: seq<BranchPrunedEvent>, id: string, n: nat): seq<nat>
    requires n <= |pruned|
  {
    if n == 0 then []
    else WavesOf(pruned, id, n - 1) + Repeats(pruned[n - 1], id, |pruned[n - 1].violatedConstraints|)
  }

  ghost predicate NoEmptyLists(history: History) {
    forall id :: id in history ==> history[id] != []
  }

  /** Exactly the constraints violated in the first n events have an entry. */
  ghost predicate IsHistoryOf(pruned: seq<BranchPrunedEvent>, history: History, n: nat)
    requires n <= |pruned|
  {
    && (forall id :: HistoryOf(history, id) == WavesOf(pruned, id, n))
    && NoEmptyLists(history)
  }

  ghost predicate IsHistory(pruned: seq<BranchPrunedEvent>, history: History) {
    IsHistoryOf(pruned, history, |pruned|)
  }

  /** The lists of `before`, each followed by one entry per violation among the first k of the event. */
  ghost predicate Extends(recorded: History, before: History, event: BranchPrunedEvent, k: nat)
    requires k <= |event.violatedConstraints|
  {
    && NoEmptyLists(recorded)
    && forall id :: HistoryOf(recorded, id) == HistoryOf(before, id) + Repeats(event, id, k)
  }

  method RecordEvent(history: History, event: BranchPrunedEvent) returns (recorded: History)
    requires NoEmptyLists(history)
    ensures Extends(recorded, history, event, |event.violatedConstraints|)
  {
    hide *;
    recorded := history;
    NothingRecorded(history, event);
    for k := 0 to |event.violatedConstraints|
      invariant Extends(recorded, history, event, k)
    {
      var violated := event.violatedConstraints[k].constraintId;
      ViolationRecorded(recorded, history, event, k);
      recorded := recorded[violated := HistoryOf(recorded, violated) + [event.retryCount]];
    }
  }

  lemma NothingRecorded(history: History, event: BranchPrunedEvent)
    requires NoEmptyLists(history)
    ensures Extends(history, history, event, 0)
  {
  }

  /** Recording violation k extends the list of its constraint as one more repetition. */
  lemma ViolationRecorded(recorded: History, before: History, event: BranchPrunedEvent, k: nat)
    requires k < |event.violatedConstraints| && Extends(recorded, before, event, k)
    ensures var violated := event.violatedConstraints[k].constraintId;
      Extends(recorded[violated := HistoryOf(recorded, violated) + [event.retryCount]], before, event, k + 1)
  {
    hide *;
    var violated, wave := event.violatedConstraints[k].constraintId, event.retryCount;
    var more := recorded[violated := HistoryOf(recorded, violated) + [wave]];
    StaysNonEmpty(recorded, before, event, k, violated, HistoryOf(recorded, violated), wave);
    forall id
      ensures HistoryOf(more, id) == HistoryOf(before, id) + Repeats(event, id, k + 1)
    {
      ListBefore(recorded, before, event, k, id);
      ListAfter(recorded, event, k, id);
      Appended(HistoryOf(before, id), Repeats(event, id, k), if violated == id then [wave] else [],
               HistoryOf(recorded, id), Repeats(event, id, k + 1), HistoryOf(more, id));
    }
    ListsAreExtended(more, before, event, k + 1);
  }

  lemma Appended(before: seq<nat>, some: seq<nat>, last: seq<nat>, list: seq<nat>, all: seq<nat>, longer: seq<nat>)
    requires list == before + some && all == some + last && longer == list + last
    ensures longer == before + all
  {
  }

  lemma StaysNonEmpty(
    recorded: History, before: History, event: BranchPrunedEvent, k: nat, id: string, list: seq<nat>, wave: nat)
    requires k <= |event.violatedConstraints| && Extends(recorded, before, event, k)
    ensures NoEmptyLists(recorded[id := list + [wave]])
  {
    hide Repeats, HistoryOf;
  }

  lemma ListBefore(recorded: History, before: History, event: BranchPrunedEvent, k: nat, id: string)
    requires k <= |event.violatedConstraints| && Extends(recorded, before, event, k)
    ensures HistoryOf(recorded, id) == HistoryOf(before, id) + Repeats(event, id, k)
  {
    hide Repeats, HistoryOf;
  }

  lemma ListsAreExtended(recorded: History, before: History, event: BranchPrunedEvent, k: nat)
    requires k <= |event.violatedConstraints| && NoEmptyLists(recorded)
    requires forall id :: HistoryOf(recorded, id) == HistoryOf(before, id) + Repeats(event, id, k)
    ensures Extends(recorded, before, event, k)
  {
    hide Repeats, HistoryOf;
  }

  lemma ListAfter(recorded: History, event: BranchPrunedEvent, k: nat, id: string)
    requires k < |event.violatedConstraints|
    ensures var violated := event.violatedConstraints[k].constraintId;
      && HistoryOf(recorded[violated := HistoryOf(recorded, violated) + [event.retryCount]], id)
         == HistoryOf(recorded, id) + (if violated == id then [event.retryCount] else [])
      && Repeats(event, id, k + 1) == Repeats(event, id, k) + (if violated == id then [event.retryCount] else [])
  {
  }

  method WaveViolationHistory(pruned: seq<BranchPrunedEvent>) returns (history: History)
    ensures IsHistory(pruned, history)
  {
    hide Repeats;
    history := map[];
    for n := 0 to |pruned|
      invariant IsHistoryOf(pruned, history, n)
    {
      history := RecordEvent(history, pruned[n]);
    }
  }

  lemma {:induction false} RepeatsAreViolations(event: BranchPrunedEvent, id: string, k: nat, wave: nat)
    requires k <= |event.violatedConstraints|
    ensures wave in Repeats(event, id, k) <==>
      wave == event.retryCount && exists j: nat :: j < k && event.violatedConstraints[j].constraintId == id
  {
    if k > 0 {
      RepeatsAreViolations(event, id, k - 1, wave);
    }
  }

  lemma {:induction false} WavesAreViolations(pruned: seq<BranchPrunedEvent>, id: string, n: nat, wave: nat)
    requires n <= |pruned|
    ensures wave in WavesOf(pruned, id, n) <==> exists i: nat, j: nat :: i < n && IsViolation(pruned, i, j, wave, id)
  {
    if n > 0 {
      WavesAreViolations(pruned, id, n - 1, wave);
      RepeatsAreViolations(pruned[n - 1], id, |pruned[n - 1].violatedConstraints|, wave);
      if wave in Repeats(pruned[n - 1], id, |pruned[n - 1].violatedConstraints|) {
        var j: nat :|
          j < |pruned[n - 1].violatedConstraints| && pruned[n - 1].violatedConstraints[j].constraintId == id;
        assert IsViolation(pruned, n - 1, j, wave, id);
      }
    }
  }

  /** The history lists exactly the waves at which a constraint is violated. */
  lemma HistoryIsViolations(pruned: seq<BranchPrunedEvent>, history: History, id: string, wave: nat)
    requires IsHistory(pruned, history)
    ensures wave in HistoryOf(history, id) <==> Violates(pruned, wave, id)
  {
    WavesAreViolations(pruned, id, |pruned|, wave);
  }

  function Least(waves: seq<nat>): (least: nat)
    requires waves != []
    ensures least in waves && forall w :: w in waves ==> least <= w
    decreases |waves|
  {
    var n := |waves| - 1;
    if n == 0 then waves[0]
    else
      var rest := Least(waves[..n]);
      assert forall w :: w in waves ==> w in waves[..n] || w == waves[n];
      if waves[n] < rest then waves[n] else rest
  }

  // ---------------------------------------------------------------------------
  // Divergences
  // ---------------------------------------------------------------------------

  datatype DivergenceEvent = DivergenceEvent(constraintId: string, passedWave: nat, failedWave: nat)

  /** The wave is the first at which the constraint is violated. */
  ghost predicate FirstViolatedAt(pruned: seq<BranchPrunedEvent>, id: string, wave: nat) {
    Violates(pruned, wave, id) && forall w: nat :: w < wave ==> !Violates(pruned, w, id)
  }

  /** The constraint fails for the first time at wave k + 1 of the list, right after wave k. */
  ghost predicate DivergesAt(pruned: seq<BranchPrunedEvent>, waves: seq<nat>, k: nat, e: DivergenceEvent) {
    && k + 1 < |waves| && e.passedWave == waves[k] && e.failedWave == waves[k + 1]
    && FirstViolatedAt(pruned, e.constraintId, e.failedWave)
  }

  /** The divergences between one wave and the next, in some order. */
  method WindowDivergences(pruned: seq<BranchPrunedEvent>, history: History, w0: nat, w1: nat)
    returns (found: seq<DivergenceEvent>)
    requires IsHistory(pruned, history) && w0 < w1
    ensures Distinct(found)
    ensures forall e :: e in found <==>
      e.passedWave == w0 && e.failedWave == w1 && FirstViolatedAt(pruned, e.constraintId, w1)
  {
    hide IsHistory;
    var newlyFailed := ViolationsAt(pruned, w1) - ViolationsAt(pruned, w0);
    found := [];
    var todo := newlyFailed;
    while todo != {}
      invariant todo <= newlyFailed && Distinct(found)
      invariant forall e :: e in found <==>
        && e.passedWave == w0 && e.failedWave == w1 && e.constraintId in newlyFailed - todo
        && FirstViolatedAt(pruned, e.constraintId, w1)
    {
      var id :| id in todo;
      HistoryStartsAt(pruned, history, id, w1);
      var firstSeen := if id in history && history[id] != [] then Least(history[id]) else w1;
      if firstSeen == w1 {
        found := found + [DivergenceEvent(id, w0, w1)];
      }
      todo := todo - {id};
    }
  }

  lemma HistoryStartsAt(pruned: seq<BranchPrunedEvent>, history: History, id: string, wave: nat)
    requires IsHistory(pruned, history) && Violates(pruned, wave, id)
    ensures id in history && history[id] != []
    ensures Least(history[id]) == wave <==> FirstViolatedAt(pruned, id, wave)
  {
    HistoryIsViolations(pruned, history, id, wave);
    var least := Least(history[id]);
    HistoryIsViolations(pruned, history, id, least);
    forall w: nat | w < wave && Violates(pruned, w, id)
      ensures least < wave
    {
      HistoryIsViolations(pruned, history, id, w);
    }
  }

  ghost predicate AreDivergences(
    pruned: seq<BranchPrunedEvent>, waves: seq<nat>, n: nat, events: seq<DivergenceEvent>)
  {
    && Distinct(events)
    && forall e :: e in events <==> exists k: nat :: k < n && DivergesAt(pruned, waves, k, e)
  }

  method DivergenceEvents(pruned: seq<BranchPrunedEvent>) returns (events: seq<DivergenceEvent>)
    ensures exists waves :: IsWaveList(pruned, waves) && AreDivergences(pruned, waves, |waves|, events)
  {
    hide FirstViolatedAt, AreDivergences;
    var history := WaveViolationHistory(pruned);
    var waves := DistinctWaves(pruned);
    events := [];
    NoWindowYet(pruned, waves, 0);
    if |waves| < 2 {
      NoWindowYet(pruned, waves, |waves|);
      return;
    }
    for n := 0 to |waves| - 1
      invariant AreDivergences(pruned, waves, n, events)
    {
      var found := WindowDivergences(pruned, history, waves[n], waves[n + 1]);
      WindowIsAdded(pruned, waves, n, events, found);
      events := events + found;
    }
    LastWindow(pruned, waves, events);
  }

  lemma NoWindowYet(pruned: seq<BranchPrunedEvent>, waves: seq<nat>, n: nat)
    requires n == 0 || |waves| < 2
    ensures AreDivergences(pruned, waves, n, [])
  {
  }

  lemma LastWindow(pruned: seq<BranchPrunedEvent>, waves: seq<nat>, events: seq<DivergenceEvent>)
    requires |waves| > 0 && AreDivergences(pruned, waves, |waves| - 1, events)
    ensures AreDivergences(pruned, waves, |waves|, events)
  {
    hide FirstViolatedAt;
    assert forall k: nat, e :: DivergesAt(pruned, waves, k, e) ==> k < |waves| - 1;
  }

  lemma WindowIsAdded(
    pruned: seq<BranchPrunedEvent>, waves: seq<nat>, n: nat, events: seq<DivergenceEvent>, found: seq<DivergenceEvent>)
    requires Increasing(waves) && n + 1 < |waves| && AreDivergences(pruned, waves, n, events)
    requires Distinct(found)
    requires forall e :: e in found <==>
      e.passedWave == waves[n] && e.failedWave == waves[n + 1] && FirstViolatedAt(pruned, e.constraintId, waves[n + 1])
    ensures AreDivergences(pruned, waves, n + 1, events + found)
  {
    hide FirstViolatedAt;
    assert forall e :: e in found <==> DivergesAt(pruned, waves, n, e);
    forall e | e in events
      ensures e !in found
    {
      var k: nat :| k < n && DivergesAt(pruned, waves, k, e);
    }
    ConcatIsDistinct(events, found);
    assert forall e :: e in events + found <==> e in events || e in found;
  }

  lemma ConcatIsDistinct<T>(s: seq<T>, t: seq<T>)
    requires Distinct(s) && Distinct(t) && forall x :: x in s ==> x !in t
    ensures Distinct(s + t)
  {
    forall i, j | 0 <= i < j < |s + t|
      ensures (s + t)[i] != (s + t)[j]
    {
      if i < |s| <= j {
        assert s[i] in s && t[j - |s|] in t;
      }
    }
  }

  /** A violation belongs to a listed wave. */
  lemma ViolationHasWave(pruned: seq<BranchPrunedEvent>, waves: seq<nat>, wave: nat, id: string)
    requires IsWaveList(pruned, waves) && Violates(pruned, wave, id)
    ensures wave in waves
  {
    var i: nat, j: nat :| IsViolation(pruned, i, j, wave, id);
    assert HasWave(pruned, wave);
  }

  /**
   A constraint first violated after the earliest wave is reported exactly once, between that wave
   and the one right before it; a constraint first violated at the earliest wave, or never, is not.
   */
  lemma EachRegressionOnce(
    pruned: seq<BranchPrunedEvent>, waves: seq<nat>, events: seq<DivergenceEvent>, id: string, first: nat)
    requires IsWaveList(pruned, waves) && AreDivergences(pruned, waves, |waves|, events)
    requires FirstViolatedAt(pruned, id, first)
    ensures waves != [] && first in waves
    ensures first == waves[0] ==> forall e :: e in events ==> e.constraintId != id
    ensures first != waves[0] ==>
      exists k: nat :: k + 1 < |waves| && waves[k + 1] == first && DivergenceEvent(id, waves[k], first) in events
    ensures forall i, j :: 0 <= i < j < |events| ==> events[i].constraintId != id || events[j].constraintId != id
  {
    ViolationHasWave(pruned, waves, first, id);
    hide Violates, HasWave;
    var at :| 0 <= at < |waves| && waves[at] == first;
    if at > 0 {
      assert DivergesAt(pruned, waves, at - 1, DivergenceEvent(id, waves[at - 1], first));
    }
    forall e | e in events && e.constraintId == id
      ensures at > 0 && e == DivergenceEvent(id, waves[at - 1], first)
    {
      var k: nat :| k < |waves| && DivergesAt(pruned, waves, k, e);
      assert e.failedWave == first;
      assert k + 1 == at;
    }
  }

  // ---------------------------------------------------------------------------
  // Oscillations
  // ---------------------------------------------------------------------------

  /** a fails, passes and fails again over three consecutive waves, and b newly fails in the middle. */
  ghost predicate Oscillates(pruned: seq<BranchPrunedEvent>, waves: seq<nat>, k: nat, a: string, b: string) {
    && k + 2 < |waves|
    && Violates(pruned, waves[k], a) && !Violates(pruned, waves[k + 1], a) && Violates(pruned, waves[k + 2], a)
    && Violates(pruned, waves[k + 1], b) && !Violates(pruned, waves[k], b)
  }

  ghost predicate OscillatesBefore(pruned: seq<BranchPrunedEvent>, waves: seq<nat>, n: nat, p: (string, string)) {
    exists k: nat, a, b :: k < n && Oscillates(pruned, waves, k, a, b) && p == CanonicalPair(a, b)
  }

  /** Without repeats, exactly the canonical pairs witnessed by one of the first n triples. */
  ghost predicate AreOscillations(
    pruned: seq<BranchPrunedEvent>, waves: seq<nat>, n: nat, pairs: seq<(string, string)>)
  {
    && Distinct(pairs)
    && forall p :: p in pairs <==> OscillatesBefore(pruned, waves, n, p)
  }

  ghost predicate FromProduct(fixed: set<string>, broken: set<string>, p: (string, string)) {
    exists a, b :: a in fixed && b in broken && p == CanonicalPair(a, b)
  }

  /** Adds the canonical pairs of a product that have not been seen yet. */
  method AddPairs(pairs: seq<(string, string)>, seen: set<(string, string)>, fixed: set<string>, broken: set<string>)
    returns (more: seq<(string, string)>, nowSeen: set<(string, string)>)
    requires Distinct(pairs) && forall p :: p in seen <==> p in pairs
    ensures Distinct(more) && forall p :: p in nowSeen <==> p in more
    ensures forall p :: p in more <==> p in pairs || FromProduct(fixed, broken, p)
  {
    hide CanonicalPair;
    more, nowSeen := pairs, seen;
    var todo := fixed;
    while todo != {}
      invariant todo <= fixed && Distinct(more) && forall p :: p in nowSeen <==> p in more
      invariant forall p :: p in more <==> p in pairs || FromProduct(fixed - todo, broken, p)
    {
      var a :| a in todo;
      more, nowSeen := AddPairsOf(more, nowSeen, a, broken);
      ProductGrows(fixed - todo, broken, a);
      assert fixed - (todo - {a}) == fixed - todo + {a};
      todo := todo - {a};
    }
    assert fixed - {} == fixed;
  }

  lemma ProductGrows(fixed: set<string>, broken: set<string>, a: string)
    ensures forall p :: FromProduct(fixed + {a}, broken, p) <==>
      FromProduct(fixed, broken, p) || FromProduct({a}, broken, p)
  {
    hide CanonicalPair;
  }

  method AddPairsOf(pairs: seq<(string, string)>, seen: set<(string, string)>, a: string, broken: set<string>)
    returns (more: seq<(string, string)>, nowSeen: set<(string, string)>)
    requires Distinct(pairs) && forall p :: p in seen <==> p in pairs
    ensures Distinct(more) && forall p :: p in nowSeen <==> p in more
    ensures forall p :: p in more <==> p in pairs || FromProduct({a}, broken, p)
  {
    hide CanonicalPair;
    more, nowSeen := pairs, seen;
    var todo := broken;
    while todo != {}
      invariant todo <= broken && Distinct(more) && forall p :: p in nowSeen <==> p in more
      invariant forall p :: p in more <==> p in pairs || FromProduct({a}, broken - todo, p)
    {
      var b :| b in todo;
      var pair := CanonicalPair(a, b);
      ghost var before := more;
      if pair !in nowSeen {
        more, nowSeen := more + [pair], nowSeen + {pair};
      }
      RowGrows(a, broken - todo, b);
      assert broken - (todo - {b}) == broken - todo + {b};
      todo := todo - {b};
    }
    assert broken - {} == broken;
  }

  lemma RowGrows(a: string, broken: set<string>, b: string)
    ensures forall p :: FromProduct({a}, broken + {b}, p) <==> FromProduct({a}, broken, p) || p == CanonicalPair(a, b)
  {
    hide CanonicalPair;
    forall p
      ensures FromProduct({a}, broken + {b}, p) <==> FromProduct({a}, broken, p) || p == CanonicalPair(a, b)
    {
      if p == CanonicalPair(a, b) {
        assert a in {a} && b in broken + {b};
      }
    }
  }

  method FindOscillationPairs(pruned: seq<BranchPrunedEvent>) returns (pairs: seq<(string, string)>)
    ensures exists waves :: IsWaveList(pruned, waves) && AreOscillations(pruned, waves, |waves|, pairs)
  {
    hide CanonicalPair, Violates, OscillatesBefore, FromProduct, Distinct;
    var waves := DistinctWaves(pruned);
    pairs := [];
    NoTripleYet(pruned, waves, 0);
    if |waves| < 3 {
      NoTripleYet(pruned, waves, |waves|);
      return;
    }
    var seen: set<(string, string)> := {};
    for n := 0 to |waves| - 2
      invariant AreOscillations(pruned, waves, n, pairs)
      invariant forall p :: p in seen <==> p in pairs
    {
      var v0, v1 := ViolationsAt(pruned, waves[n]), ViolationsAt(pruned, waves[n + 1]);
      var v2 := ViolationsAt(pruned, waves[n + 2]);
      var fixedThenBroke := set c | c in v0 * v2 && c !in v1;
      var newlyBroken := v1 - v0;
      TripleIsProduct(pruned, waves, n, fixedThenBroke, newlyBroken);
      pairs, seen := AddPairs(pairs, seen, fixedThenBroke, newlyBroken);
    }
    TailHasNoOscillation(pruned, waves, pairs);
  }

  lemma NoTripleYet(pruned: seq<BranchPrunedEvent>, waves: seq<nat>, n: nat)
    requires n == 0 || |waves| < 3
    ensures AreOscillations(pruned, waves, n, [])
  {
  }

  lemma TailHasNoOscillation(pruned: seq<BranchPrunedEvent>, waves: seq<nat>, pairs: seq<(string, string)>)
    requires |waves| >= 2 && AreOscillations(pruned, waves, |waves| - 2, pairs)
    ensures AreOscillations(pruned, waves, |waves|, pairs)
  {
    hide CanonicalPair, Violates;
  }

  lemma TripleIsProduct(
    pruned: seq<BranchPrunedEvent>, waves: seq<nat>, n: nat, fixed: set<string>, broken: set<string>)
    requires n + 2 < |waves|
    requires forall a :: a in fixed <==>
      Violates(pruned, waves[n], a) && !Violates(pruned, waves[n + 1], a) && Violates(pruned, waves[n + 2], a)
    requires forall b :: b in broken <==> Violates(pruned, waves[n + 1], b) && !Violates(pruned, waves[n], b)
    ensures forall p :: OscillatesBefore(pruned, waves, n + 1, p) <==>
      OscillatesBefore(pruned, waves, n, p) || FromProduct(fixed, broken, p)
  {
    hide CanonicalPair, Violates;
    forall p
      ensures OscillatesBefore(pruned, waves, n + 1, p) <==>
        OscillatesBefore(pruned, waves, n, p) || FromProduct(fixed, broken, p)
    {
      if FromProduct(fixed, broken, p) {
        var a, b :| a in fixed && b in broken && p == CanonicalPair(a, b);
        assert Oscillates(pruned, waves, n, a, b);
      }
      if OscillatesBefore(pruned, waves, n + 1, p) {
        var k: nat, a, b :| k < n + 1 && Oscillates(pruned, waves, k, a, b) && p == CanonicalPair(a, b);
        assert k == n ==> a in fixed && b in broken;
      }
    }
  }

  /** The second constraint fails for the first time, as documented, iff it failed at no wave before the triple. */
  lemma FirstFailureIffNotBefore(pruned: seq<BranchPrunedEvent>, waves: seq<nat>, k: nat, a: string, b: string)
    requires IsWaveList(pruned, waves) && Oscillates(pruned, waves, k, a, b)
    ensures FirstViolatedAt(pruned, b, waves[k + 1]) <==> forall j :: 0 <= j < k ==> !Violates(pruned, waves[j], b)
  {
    hide Violates, HasWave;
    if forall j :: 0 <= j < k ==> !Violates(pruned, waves[j], b) {
      forall wave: nat | wave < waves[k + 1]
        ensures !Violates(pruned, wave, b)
      {
        if wave in waves {
          var at :| 0 <= at < |waves| && waves[at] == wave;
          assert at <= k;
        } else {
          NoWaveNoViolation(pruned, waves, wave, b);
        }
      }
    }
  }

  /** In the first triple a constraint that newly fails has never failed before: with three waves it is always so. */
  lemma FirstTripleIsFirstFailure(pruned: seq<BranchPrunedEvent>, waves: seq<nat>, a: string, b: string)
    requires IsWaveList(pruned, waves) && Oscillates(pruned, waves, 0, a, b)
    ensures FirstViolatedAt(pruned, b, waves[1])
  {
    hide Violates, FirstViolatedAt;
    FirstFailureIffNotBefore(pruned, waves, 0, a, b);
  }

  lemma NoWaveNoViolation(pruned: seq<BranchPrunedEvent>, waves: seq<nat>, wave: nat, id: string)
    requires IsWaveList(pruned, waves) && wave !in waves
    ensures !Violates(pruned, wave, id)
  {
    if Violates(pruned, wave, id) {
      ViolationHasWave(pruned, waves, wave, id);
    }
  }

  function Failure(wave: nat, id: string): BranchPrunedEvent {
    BranchPrunedEvent([], [ConstraintViolation(id, 0.0, [])], wave)
  }

  /** a fails at waves 0, 1 and 3, and b at waves 0 and 2. */
  function FourWaves(a: string, b: string): seq<BranchPrunedEvent> {
    [Failure(0, a), Failure(0, b), Failure(1, a), Failure(2, b), Failure(3, a)]
  }

  lemma FailuresOfFourWaves(a: string, b: string, wave: nat, id: string)
    requires a != b
    ensures Violates(FourWaves(a, b), wave, id) <==>
      || (id == a && (wave == 0 || wave == 1 || wave == 3))
      || (id == b && (wave == 0 || wave == 2))
  {
    var pruned := FourWaves(a, b);
    assert IsViolation(pruned, 0, 0, 0, a) && IsViolation(pruned, 1, 0, 0, b) && IsViolation(pruned, 2, 0, 1, a);
    assert IsViolation(pruned, 3, 0, 2, b) && IsViolation(pruned, 4, 0, 3, a);
  }

  lemma WavesOfFourWaves(a: string, b: string)
    ensures IsWaveList(FourWaves(a, b), [0, 1, 2, 3])
  {
    var pruned := FourWaves(a, b);
    assert pruned[0].retryCount == 0 && pruned[2].retryCount == 1;
    assert pruned[3].retryCount == 2 && pruned[4].retryCount == 3;
  }

  /**
   From the fourth wave on a pair can be reported although its second constraint has failed before:
   in none of the triples of these waves does a constraint fail for the first time in the middle.
   */
  lemma RepeatedFailureIsReported(a: string, b: string)
    requires a != b
    ensures IsWaveList(FourWaves(a, b), [0, 1, 2, 3])
    ensures OscillatesBefore(FourWaves(a, b), [0, 1, 2, 3], 4, CanonicalPair(a, b))
    ensures forall k: nat, x, y :: Oscillates(FourWaves(a, b), [0, 1, 2, 3], k, x, y) ==>
      !FirstViolatedAt(FourWaves(a, b), y, k + 1)
  {
    var pruned, waves: seq<nat> := FourWaves(a, b), [0, 1, 2, 3];
    hide Violates, CanonicalPair, FourWaves, IsWaveList;
    WavesOfFourWaves(a, b);
    FailuresOfFourWaves(a, b, 1, a);
    FailuresOfFourWaves(a, b, 2, a);
    FailuresOfFourWaves(a, b, 3, a);
    FailuresOfFourWaves(a, b, 2, b);
    FailuresOfFourWaves(a, b, 1, b);
    assert Oscillates(pruned, waves, 1, a, b);
    forall k: nat, x, y | Oscillates(pruned, waves, k, x, y)
      ensures !FirstViolatedAt(pruned, y, k + 1)
    {
      assert waves[k + 1] == k + 1;
      FailuresOfFourWaves(a, b, k + 1, y);
      FailuresOfFourWaves(a, b, 0, y);
    }
  }
}
