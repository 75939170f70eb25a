# A verified model of the h2ai control plane

These Dafny modules model the algorithms and protocols by which the h2ai control plane selects,
repairs, ranks, merges and remembers, and prove properties of them. `f32` and `f64` are exact
`real`; integers are unbounded. `dafny verify dfyconfig.toml` checks the whole project.

| Module | What it models |
|---|---|
| `PartialSelection` | greedy set-cover selection of partially passing proposals |
| `PageRank`, `KnowledgeGraph` | personalised PageRank: the mathematics over neighbour sets, and the loops over arrays that compute it |
| `NormalInverseGamma`, `ChangepointHistories`, `ChangepointFilter`, `Bocpd` | the Bayesian changepoint detector, and the model over 2^t histories that it filters |
| `Ddm` | the sliding-window drift detector |
| `SessionMemory` | optimistic appends to one revisioned cell by any number of callers, and the in-memory store |
| `VersionedSource`, `SpecRepair` | versioned constraint specs, and concurrent repairs of single checks |
| `ConstraintTypes`, `Evaluation`, `ConflictGraph`, `Clustering` | predicate trees, their scores, conflicts between documents, connected components |
| `Similarity`, `ReasonDedup` | Jaccard similarity of word sets, and greedy deduplication on top of it |
| `Tournament` | pairwise merging, round by round |
| `Compaction` | shortening a context to a token budget |
| `Bm25Plus` | BM25+ ranking |
| `WaveAnalysis` | regressions and oscillations across waves |
| `UslFit`, `WilsonInterval` | the scalability-law fit with its inversion, and the credible interval |
| `Arithmetic`, `RealVectors`, `Ranking`, `Text`, `Collections`, `Events`, `Wrappers` | shared definitions |

Loops over mutable state are methods or classes, each proved against a function or relation of its
inputs; the theorems are about those functions and relations. The three concurrent or long-lived
parts are state machines: every step keeps an invariant, and the theorems hold in every reachable
state.

What comes from outside is a parameter: the predictive density (positive on proper parameters),
`ln_1p` (positive and increasing on positive arguments), `sqrt` (a function for the drift detector, a witness
`root * root == x` for the interval), regular expressions, case folding, number parsing and schema
validation (nothing assumed), the merge operator (may fail), the probe scores of repair candidates,
and the clock.

## Findings

Where the code and its documentation or callers could be read differently, the model follows the
code:

- A hazard rate of 0 works until the run-length bound is first exceeded; the step that truncates
  then drops the only run with mass, all masses become NaN, and the detector is silent until it is
  reset. Every observation of a history can be normalised if and only if the rate is positive or the
  history is shorter than the bound (`MassSurvivesIffHazardIsPositive`).
- A repair whose `current_version` is newer than the source's can overwrite another repair's edit.
  Beside a repair with the current version an edit can be lost if and only if the version given is
  newer (`EditCanBeLostIffAhead`); with older versions none is ever lost (`OldVersionsLoseNothing`).
- Nine callers of the append loop are enough for one of them to give up (`NineCallsCanFail`); eight
  are not.
- Compaction can exceed the token budget; `BudgetIsMetIff` gives the condition for every input. With
  room for a body the overrun is at most three times that room (`OverrunBound`), and non-ASCII texts
  reach it: a cut text costs up to three times the body budget more (`CutBound`,
  `WideTextExceedsBudget`), a bare head up to the body budget less five more (`HeadBound`,
  `WideHeadExceedsBudget`). Without room for a body the result is the keywords alone, which exceed the
  budget if and only if they have more than four bytes a token (`NoBudgetIsFilledByKeywords`).
- With room for a body, a context that does not fit loses text without a marker if and only if it has
  more than two but at most four characters per token of that room (`UnmarkedLossIff`); such a context
  has characters outside ASCII (`AsciiIsAlwaysMarked`, `WideTextLosesItsTail`).
- `top_k_unique_reasons` returns one reason for `k = 0`.
- The in-memory store returns recent history newest first, the durable one oldest first.
- The PageRank mass starts at 1 if and only if no seed is repeated: a repeated seed's weight is
  assigned, not added (`PersonalMassIsOneIffDistinct`).
- `find_oscillation_pairs` is documented to pair with a constraint violated for the first time, but it
  only compares with the wave before, as its inline comment at line 778 says. The failure is the
  first if and only if the constraint is violated at no wave before the triple
  (`FirstFailureIffNotBefore`), so always in the first triple (`FirstTripleIsFirstFailure`) but not
  from the fourth wave on (`RepeatedFailureIsReported`).
- `partial_pass_from_event` documents a violated constraint without verdicts as failing all its
  checks; it does if and only if its score times their number is less than one half above the position
  in its slice of the first check that no earlier slice covers: below one half if no slice before
  overlaps (`SliceFailsIffScoreRoundsToNone`).

## Model

| member | source | states |
|---|---|---|
| `PartialSelection.CheckFailsIffAttributed` | crates/h2ai-autonomic/src/repair.rs:95-122 | a check fails iff the first slice containing it belongs to a constraint whose last violation has a failing or missing verdict for it, or has no verdicts and the check lies beyond the passes inferred from its score |
| `PartialSelection.SliceFailsIffScoreRoundsToNone` | crates/h2ai-autonomic/src/repair.rs:77-78 | a violated constraint without verdicts fails every check attributed to it, as documented, iff its score times the number of its checks is less than one half above the position of the first such check in its slice |
| `PartialSelection.RoundToNat` | crates/h2ai-autonomic/src/repair.rs:115 | the inferred number of passes is the nearest natural number, halves rounded up, and 0 for negative scores |
| `PartialSelection.PassedCountIsSetSize` | crates/h2ai-autonomic/src/repair.rs:33-45 | the passed count of enumerated results is the size of the passed index set, and all its indices are in range |
| `PartialSelection.CandidatesAreReports` | crates/h2ai-autonomic/src/repair.rs:95-141 | the candidates are, in event order, exactly the reports on the events with a check that no constraint fails: their text, and every check with its text, passed iff none of the event's violations fails it |
| `PartialSelection.CandidatesAreScoredByCoverage` | crates/h2ai-autonomic/src/repair.rs:124-141 | every candidate passes at least one check, and its score times the number of checks is the number it passes |
| `PartialSelection.BestUnused` | crates/h2ai-autonomic/src/repair.rs:169-183 | the maximum by new coverage, then score, then position among unused candidates; none iff all are used |
| `PartialSelection.SelectOrthogonalPartials` | crates/h2ai-autonomic/src/repair.rs:150-201 | the result is the list of picks of a greedy run: each pick best among the unused, each adding something once anything is covered, stopping only when full or when nothing adds |
| `PartialSelection.UnionGain` | crates/h2ai-autonomic/src/repair.rs:173-174 | the union of any chosen candidates gains at most their number times any common bound on their single gains |
| `PartialSelection.UnionGainAtMostSum` | crates/h2ai-autonomic/src/repair.rs:173-174 | submodularity: the union of any chosen candidates gains at most the sum of their single gains |
| `PartialSelection.GreedyProgress` | crates/h2ai-autonomic/src/repair.rs:168-199 | after n picks the uncovered part of any choice of at most k candidates has shrunk by ((k-1)/k)^n |
| `PartialSelection.GreedyPickWinsTies` | crates/h2ai-autonomic/src/repair.rs:169-183 | among unused candidates that gain as much as the pick none has a better score, or the same score and a later position |
| `PartialSelection.GreedyApproximation` | crates/h2ai-autonomic/src/repair.rs:168-199 | against any choice of at most k candidates covering OPT checks a greedy run covers G with k^k (OPT - G) <= (k-1)^k OPT |
| `PartialSelection.EarlyStopCoversAll` | crates/h2ai-autonomic/src/repair.rs:190-197 | stopping below the budget, by break or exhaustion, means that everything any candidate covers is covered |
| `PartialSelection.SelectionGuarantee` | crates/h2ai-autonomic/src/repair.rs:143-201 | the same guarantee and early-stop result for the returned partials of any events, checks and offsets |
| `PartialSelection.SelectedAreReports` | crates/h2ai-autonomic/src/repair.rs:95-201 | what is returned are reports on different events, each of which passes something |
| `PartialSelection.SelectionGuaranteeOverEvents` | crates/h2ai-autonomic/src/repair.rs:95-201 | against any choice of at most k events, of whose checks OPT are not failed, the returned partials pass G with k^k (OPT - G) <= (k-1)^k OPT, and below the budget they pass all of them |
| `PartialSelection.SelectionIsDetermined` | crates/h2ai-autonomic/src/repair.rs:143-201 | candidates and budget determine the returned list, ties included |
| `PartialSelection.BackboneIsWidest` | crates/h2ai-autonomic/src/repair.rs:147-149 | no candidate passes more checks than the first pick |
| `PartialSelection.EveryPickCoversSomethingNew` | crates/h2ai-autonomic/src/repair.rs:186-193 | every pick of a run over non-empty candidates covers a check that no earlier pick covers |
| `KnowledgeGraph.IndexIds` | crates/h2ai-knowledge/src/graph.rs:33-38 | the index holds exactly the node ids, each at its last position |
| `KnowledgeGraph.BuildRaw` | crates/h2ai-knowledge/src/graph.rs:40-68 | two positions are adjacent iff either node names the other among known ids, self-references excluded |
| `KnowledgeGraph.Normalise` | crates/h2ai-knowledge/src/graph.rs:70-84 | one edge per neighbour, each of weight 1/degree, in whatever order the set is iterated |
| `KnowledgeGraph.Build` | crates/h2ai-knowledge/src/graph.rs:31-91 | the graph holds the ids in order, is symmetric, deduplicated and normalised, and has exactly the declared edges |
| `KnowledgeGraph.ScatterAll` | crates/h2ai-knowledge/src/graph.rs:155-165 | the scattering loops, skipping sources without mass, accumulate the damped inflow of every node |
| `KnowledgeGraph.PowerStep` | crates/h2ai-knowledge/src/graph.rs:152-170 | the array loops of one round compute one update of the iteration |
| `KnowledgeGraph.Ppr` | crates/h2ai-knowledge/src/graph.rs:117-189 | the result is the sorted top k of the hits after max_iter updates |
| `KnowledgeGraph.SeedsAreResolved` | crates/h2ai-knowledge/src/graph.rs:130-138 | the seeds are exactly the positions of the known seed ids, one for each time an id is given |
| `KnowledgeGraph.HitsAreTheReachableNonSeeds` | crates/h2ai-knowledge/src/graph.rs:117-183 | before truncation the hits are, in node order and each once, exactly the non-seed nodes within max_iter edges of a valid seed, scored by the iteration with alpha itself, or with 0.01 or 0.99 if alpha is below or above that range |
| `PageRank.ColumnSum` | crates/h2ai-knowledge/src/graph.rs:70-84 | every column of the adjacency sums to 1, or to 0 at an isolated node |
| `PageRank.StepContracts` | crates/h2ai-knowledge/src/graph.rs:151-173 | one update brings any two vectors closer by the factor 1 - alpha in the L1 norm |
| `PageRank.IteratesContract` | crates/h2ai-knowledge/src/graph.rs:151-173 | successive iterates differ by at most (1 - alpha)^t times the first difference |
| `PageRank.IteratesApproachFixedPoint` | crates/h2ai-knowledge/src/graph.rs:151-173 | the iterates approach every fixed point at the same geometric rate |
| `PageRank.FixedPointIsUnique` | crates/h2ai-knowledge/src/graph.rs:151-173 | for alpha > 0 at most one vector is left unchanged by an update |
| `PageRank.StepMass` | crates/h2ai-knowledge/src/graph.rs:152-170 | an update conserves the restart share and the linked part of the mass |
| `PageRank.MassNeverGrows` | crates/h2ai-knowledge/src/graph.rs:147-173 | no iterate has more mass than the personalisation vector |
| `PageRank.IsolatedNodes` | crates/h2ai-knowledge/src/graph.rs:155-170 | from the first update on an isolated node holds alpha times its entry of the personalisation vector |
| `PageRank.MassIsConservedIffNoSeedIsolated` | crates/h2ai-knowledge/src/graph.rs:147-173 | from the first update on the mass equals the initial mass iff no seed is isolated |
| `PageRank.PersonalMassAtMostOne` | crates/h2ai-knowledge/src/graph.rs:140-145 | the personalisation vector has mass at most 1, repeated seeds included |
| `PageRank.PersonalMassIsOneIffDistinct` | crates/h2ai-knowledge/src/graph.rs:140-145 | for seeds in range that mass is 1 iff no seed is repeated |
| `PageRank.ScoresAreSubProbability` | crates/h2ai-knowledge/src/graph.rs:140-173 | scores are non-negative and total at most 1 |
| `PageRank.PositiveIffWithinReach` | crates/h2ai-knowledge/src/graph.rs:147-173 | after t updates a node has a positive score iff a walk of at most t edges leads to it from a seed |
| `NormalInverseGamma.FoldIsProper` | crates/h2ai-autonomic/src/drift.rs:124-141 | every folded state has the positive parameters its predictive density needs |
| `NormalInverseGamma.FoldIsBatch` | crates/h2ai-autonomic/src/drift.rs:124-133 | folding observations one at a time gives the closed batch form in their count, sum and sum of squares |
| `NormalInverseGamma.FoldIgnoresOrder` | crates/h2ai-autonomic/src/drift.rs:124-133 | two orderings of the same observations lead to the same parameters |
| `ChangepointHistories.HistoriesAreAll` | crates/h2ai-autonomic/src/drift.rs:194-202 | the reference model sums over all 2^t changepoint histories of length t, each once |
| `ChangepointHistories.NoHistoryIsTruncated` | crates/h2ai-autonomic/src/drift.rs:214-216 | below the bound every history counts with its full weight |
| `ChangepointHistories.EvidenceIsSum` | crates/h2ai-autonomic/src/drift.rs:218-223 | the total weight is the sum of the weights per run length |
| `ChangepointHistories.NothingAboveBound` | crates/h2ai-autonomic/src/drift.rs:214-216 | no history that was never truncated ends in a run at or above the bound |
| `ChangepointHistories.GroupByRunLength` | crates/h2ai-autonomic/src/drift.rs:194-210 | summing history by history equals summing run length by run length |
| `ChangepointHistories.ExactChangepoint` | crates/h2ai-autonomic/src/drift.rs:201-210 | over all histories, run length 0 gets the hazard's share of the predicted weight, and below the bound the total weight after an observation is the predicted weight |
| `ChangepointHistories.ExactGrowth` | crates/h2ai-autonomic/src/drift.rs:197-216 | over all histories, run length r + 1 gets the weight of r, predicted and surviving, if it is below the bound, and nothing otherwise |
| `ChangepointFilter.AdvanceKeepsValid` | crates/h2ai-autonomic/src/drift.rs:187-226 | a step with a positive hazard rate, or one that truncates nothing, yields non-negative masses that sum to 1 over at most MAX_RUN_LENGTH states |
| `ChangepointFilter.ChangepointMass` | crates/h2ai-autonomic/src/drift.rs:204-226 | after such a step the mass at run length 0 is the hazard rate until truncation and at least it afterwards |
| `ChangepointFilter.StatesAreFolds` | crates/h2ai-autonomic/src/drift.rs:194-226 | state i is the prior folded over the last i observations, whether or not anything was truncated |
| `ChangepointFilter.FilterIsExact` | crates/h2ai-autonomic/src/drift.rs:187-226 | for hazard rates from 0 to 1, while nothing has been truncated, the mass at run length r is the weight of those of the 2^t histories that end in run length r, divided by the positive weight of all 2^t |
| `ChangepointFilter.TruncatedFilterIsExact` | crates/h2ai-autonomic/src/drift.rs:187-226 | past truncation the masses are still exact: the weights of the histories whose run never reached the bound, divided by their positive total |
| `Bocpd.AlarmIsExactPosterior` | crates/h2ai-autonomic/src/drift.rs:228-251 | truncating or not, a changepoint is reported iff five observations were made and the histories with a changepoint within the last five outweigh the threshold's share of all histories that were never truncated; the reported mass is exactly the share of these histories |
| `ChangepointFilter.ZeroHazardStaysOnLongestRun` | crates/h2ai-autonomic/src/drift.rs:187-226 | with hazard 0 the run keeps all mass on its longest run length until the bound is reached |
| `ChangepointFilter.ZeroHazardLosesAllMass` | crates/h2ai-autonomic/src/drift.rs:214-226 | with hazard 0 a step leaves no mass below the longest run, and so none at all if it truncates |
| `ChangepointFilter.MassSurvivesIffHazardIsPositive` | crates/h2ai-autonomic/src/drift.rs:187-226 | for every history, each of its observations can be normalised iff the hazard rate is positive or the history is shorter than the bound |
| `Bocpd.BocpdDetector.constructor` | crates/h2ai-autonomic/src/drift.rs:163-179 | for every hazard rate from 0 to 1 the detector starts from the fixed prior with all mass at run length 0 |
| `Bocpd.BocpdDetector.Observe` | crates/h2ai-autonomic/src/drift.rs:187-251 | the states are the filter applied to the whole history since the last reset; the report is the exact posterior mass of a changepoint within the last five observations, above the threshold and at most 1; once a step has no mass to normalise by, nothing is reported until a reset |
| `Bocpd.BocpdDetector.Reset` | crates/h2ai-autonomic/src/drift.rs:254-259 | the history is forgotten |
| `Ddm.DdmDetector.constructor` | crates/h2ai-autonomic/src/drift.rs:22-31 | an empty history and a window of at least two |
| `Ddm.DdmDetector.Observe` | crates/h2ai-autonomic/src/drift.rs:34-65 | a warning iff more than a window has been observed and the last window's mean is more than k reference deviations from that of the first window since the last reset |
| `Ddm.DdmDetector.Reset` | crates/h2ai-autonomic/src/drift.rs:68-71 | the history, and with it the reference, is forgotten |
| `Ddm.DriftIsShiftInvariant` | crates/h2ai-autonomic/src/drift.rs:39-54 | adding a constant to every observation does not change the drift |
| `Ddm.DeviationMeasuresPairs` | crates/h2ai-autonomic/src/drift.rs:40-45 | with an honest square root the deviation squared, times 2n(n - 1), is the sum of the squared differences of all pairs of the window, unless that is below the floor of 0.01 |
| `Ddm.DriftMeasuresShift` | crates/h2ai-autonomic/src/drift.rs:40-54 | the drift times the deviation times n is the distance between the sums of the last and the first n observations |
| `SessionMemory.KvCell.CommitNewMemories` | crates/h2ai-memory/src/nats_kv.rs:60-116 | against any schedule of rivals the call succeeds iff one of its eight tries is uncontested, and then its batch follows everything committed before |
| `SessionMemory.KvCell.GetRecentHistory` | crates/h2ai-memory/src/nats_kv.rs:41-58 | the last entries, oldest first |
| `SessionMemory.InMemoryCache.CommitNewMemories` | crates/h2ai-memory/src/in_memory.rs:39-49 | appends to one session and leaves the others alone |
| `SessionMemory.InMemoryCache.GetRecentHistory` | crates/h2ai-memory/src/in_memory.rs:27-37 | the newest entries, newest first |
| `SessionMemory.RecentHistoriesAreReversed` | crates/h2ai-memory/src/in_memory.rs:27-37 | the two stores return the same entries in opposite orders |
| `SessionMemory.RecentAreTheLatest` | crates/h2ai-memory/src/in_memory.rs:27-37 | both stores return exactly the latest entries, as many as there are up to the limit |
| `SessionMemory.CasHoldsIffNothingLanded` | crates/h2ai-memory/src/nats_kv.rs:88-110 | in every sound state a compare-and-set succeeds iff no commit landed since the call's read |
| `SessionMemory.StepKeepsInv` | crates/h2ai-memory/src/nats_kv.rs:69-111 | every load, commit and miss of any call keeps the protocol's invariant |
| `SessionMemory.HistoryIsCommittedBatches` | crates/h2ai-memory/src/nats_kv.rs:60-116 | from any cell and in every reachable state the history is what the cell held, followed, in revision order, by exactly the batches whose call returned Ok, each once |
| `SessionMemory.CommittedBatchIsContiguous` | crates/h2ai-memory/src/nats_kv.rs:80-93 | a committed batch is contiguous, right behind everything committed before it |
| `SessionMemory.GivingUpMeansEightRivals` | crates/h2ai-memory/src/nats_kv.rs:67-115 | a call that gives up saw at least eight commits, each of a different other call, land after its first read |
| `SessionMemory.EightCallsAllSucceed` | crates/h2ai-memory/src/nats_kv.rs:67-115 | with at most eight calls in total none gives up |
| `SessionMemory.NineCallsCanFail` | crates/h2ai-memory/src/nats_kv.rs:67-115 | with more than eight calls a state is reachable in which one has given up |
| `SessionMemory.LoopIsARun` | crates/h2ai-memory/src/nats_kv.rs:69-115 | against every schedule of rivals, any number in each try, the interleaved steps of one call end as `CommitNewMemories` does: the same answer and the same contents |
| `VersionedSource.Source.LoadAll` | crates/h2ai-constraints/src/nats_versioned.rs:52-61 | every spec whose id has an override is replaced by it, the others are unchanged, and the first spec of each id is its latest version |
| `VersionedSource.Source.LoadLatestVersioned` | crates/h2ai-constraints/src/nats_versioned.rs:66-111 | the override if there is one, else the first inner spec with the id, else the error |
| `VersionedSource.Source.CreateNextVersion` | crates/h2ai-constraints/src/nats_versioned.rs:115-166 | succeeds iff the expected version is the current one; stores version expected + 1 with its provenance, or changes nothing and reports the conflict |
| `VersionedSource.WriteThenLoad` | crates/h2ai-constraints/src/nats_versioned.rs:66-147 | what is written, with its new version and provenance, is what the next reader finds under its id, and no other id changes |
| `SpecRepair.BestCandidate` | crates/h2ai-autonomic/src/spec_repair.rs:53-67 | the first candidate of the highest score, if that is positive |
| `SpecRepair.Advisor.Run` | crates/h2ai-autonomic/src/spec_repair.rs:41-148 | a repair alone succeeds iff a candidate is acceptable, the spec is found and the check exists; a caller behind the source writes nothing, any other stores the loaded spec with only that check, the version and the provenance changed, and touches no other id |
| `SpecRepair.StepKeepsInv` | crates/h2ai-autonomic/src/spec_repair.rs:78-147 | every step of any repair that started with a version no newer than the source's keeps the invariant |
| `SpecRepair.NoEditIsLost` | crates/h2ai-autonomic/src/spec_repair.rs:78-147 | in every reachable state the stored spec of each id is the original with all successful edits applied in order, each call's at most once |
| `SpecRepair.VersionsCountEdits` | crates/h2ai-constraints/src/nats_versioned.rs:122-146 | the version of an id is the original's plus one per successful call |
| `SpecRepair.EveryVersionHasOneCreator` | crates/h2ai-constraints/src/nats_versioned.rs:126-146 | every version above the original was written by exactly one call |
| `SpecRepair.ChecksHoldTheirLastEdit` | crates/h2ai-autonomic/src/spec_repair.rs:83-88 | each check of the stored spec reads as its last successful edit left it, or as in the original |
| `SpecRepair.ReplayKeepsTheRest` | crates/h2ai-autonomic/src/spec_repair.rs:77-101 | successful edits leave the id and every other field alone, and the provenance is that of the last of them |
| `SpecRepair.RepairsTouchOnlyChecks` | crates/h2ai-autonomic/src/spec_repair.rs:77-148 | in every reachable state, whatever versions the callers are given, the stored spec has the id, the number of checks and the other fields of the original |
| `SpecRepair.RepairedIsNewer` | crates/h2ai-autonomic/src/spec_repair.rs:101-127 | every reported version is above the caller's, and was written by some call if the caller's was at or above the original's |
| `SpecRepair.RepairedIsEarned` | crates/h2ai-autonomic/src/spec_repair.rs:101-148 | whatever versions the callers are given, a call that reports success has written, or reports a version newer than its own |
| `SpecRepair.RetryIsUnreachable` | crates/h2ai-autonomic/src/spec_repair.rs:128-142 | with versions read from the source no call reaches its second compare-and-set |
| `SpecRepair.CallerAheadLosesAnEdit` | crates/h2ai-autonomic/src/spec_repair.rs:78-142 | a caller given any version newer than the source's can overwrite another's edit, by the first compare-and-set or by the second |
| `SpecRepair.OldVersionsLoseNothing` | crates/h2ai-autonomic/src/spec_repair.rs:78-147 | in any world, if every call was given a version no newer than the original, no edit is lost |
| `SpecRepair.EditCanBeLostIffAhead` | crates/h2ai-autonomic/src/spec_repair.rs:78-147 | beside a repair of another check with the current version, an edit can be lost iff the version given is newer than the source's |
| `SpecRepair.SoloRunIsSolo` | crates/h2ai-autonomic/src/spec_repair.rs:78-147 | the steps of a single repair end in the outcome and the overrides that the contract of `Advisor.Run` states |
| `Clustering.BuildAdjacency` | crates/h2ai-constraints/src/clustering.rs:8-20 | the lists hold exactly the known ids and, both ways, the references between them |
| `Clustering.Search` | crates/h2ai-constraints/src/clustering.rs:30-46 | one search terminates with everything connected to its start, each id once, and nothing visited before |
| `Clustering.BuildClusters` | crates/h2ai-constraints/src/clustering.rs:7-50 | the clusters partition the distinct ids, and two ids share a cluster iff a path of references read both ways connects them |
| `Clustering.ComponentIsConnectivity` | crates/h2ai-constraints/src/clustering.rs:30-46 | membership in a component is connectedness to any of its members |
| `Clustering.IndicesAreExact` | crates/h2ai-constraints/src/clustering.rs:54-68 | ascending, exactly the checks whose prefix before the first colon is a cluster id |
| `Clustering.Prefix` | crates/h2ai-constraints/src/clustering.rs:52-68 | the part before the first colon, all of a check without one |
| `Clustering.ChecksOfClustersAreDisjoint` | crates/h2ai-constraints/src/clustering.rs:52-68 | no check index belongs to two clusters |
| `Clustering.KnownChecksHaveTheirCluster` | crates/h2ai-constraints/src/clustering.rs:52-68 | a check formatted after a known id without a colon is in the cluster of that id |
| `Evaluation.EvalVocabulary` | crates/h2ai-constraints/src/eval.rs:83-108 | in [0, 1]; 1 without terms; all-of is 1 iff all hit, any-of and none-of are 0 or 1 by whether any hits |
| `Evaluation.EvalNumeric` | crates/h2ai-constraints/src/eval.rs:110-140 | 1 iff the field can be measured and the number satisfies the comparison, otherwise 0 |
| `Evaluation.EvalSync` | crates/h2ai-constraints/src/eval.rs:8-80 | every tree scores in [0, 1] |
| `Evaluation.LeafScoresOneIffItHolds` | crates/h2ai-constraints/src/eval.rs:13-66 | each kind of leaf scores 1 iff the output does what it asks: terms, pattern, threshold, schema or length; asynchronous leaves pass, oracles fail; anything but a share of terms scores 0 otherwise |
| `Evaluation.VocabularyScoresShare` | crates/h2ai-constraints/src/eval.rs:83-94 | asked for all terms, a leaf scores the share of them that occur, ignoring case |
| `Evaluation.CompositeScores` | crates/h2ai-constraints/src/eval.rs:68-79 | a conjunction scores its least child, a disjunction its greatest, and a negation what its first child lacks |
| `Evaluation.CrispTreesArePropositions` | crates/h2ai-constraints/src/eval.rs:68-78 | without partial credit the score is 1 or 0 as the tree, read as a proposition over its leaves, is true or false |
| `Evaluation.EnforcedBoundsScore` | crates/h2ai-constraints/src/eval.rs:68-71 | no tree scores above a predicate it reaches through conjunctions |
| `Evaluation.IncompatibleBoundsExclude` | crates/h2ai-constraints/src/eval.rs:110-140 | an enforced upper bound below an enforced lower bound on one field leaves no output on which both trees score above 0 |
| `Evaluation.BoundsExcludeIffInfeasible` | crates/h2ai-constraints/src/eval.rs:110-140 | where every value can be measured, an upper and a lower bound exclude each other on every output iff the lower is above the upper |
| `Text.CanonicalPairIsUnordered` | crates/h2ai-constraints/src/conflict.rs:92-100 | the key is in lexicographic order whatever the order of the ids, and determines them |
| `ConflictGraph.CollectPredicates` | crates/h2ai-constraints/src/conflict.rs:102-138 | appends the orderings and thresholds of the tree, left to right, to what was collected before |
| `ConflictGraph.OrderingsAreEnforced` | crates/h2ai-constraints/src/conflict.rs:109-137 | exactly the orderings reached through conjunctions are collected |
| `ConflictGraph.ThresholdsAreEnforced` | crates/h2ai-constraints/src/conflict.rs:112-137 | exactly the thresholds on a field reached through conjunctions are collected |
| `ConflictGraph.OrderingPairs` | crates/h2ai-constraints/src/conflict.rs:25-34 | exactly the keys of two different opposed orderings |
| `ConflictGraph.FieldPairs` | crates/h2ai-constraints/src/conflict.rs:37-53 | exactly the keys of a lower bound above an upper bound on the field |
| `ConflictGraph.ReferencePairs` | crates/h2ai-constraints/src/conflict.rs:55-60 | exactly the keys of explicit references |
| `ConflictGraph.Build` | crates/h2ai-constraints/src/conflict.rs:15-63 | the pairs are the canonical keys of exactly the ids in conflict: opposed orderings, infeasible bounds either way round, or a reference either way round |
| `ConflictGraph.GraphIsSymmetric` | crates/h2ai-constraints/src/conflict.rs:65-84 | the relation is symmetric, and the list of an id holds exactly the ids in conflict with it |
| `ConflictGraph.OrderingConflictIsOpposition` | crates/h2ai-constraints/src/conflict.rs:25-34 | different ids clash by order iff one enforces x before y and the other y before x |
| `ConflictGraph.BoundsConflictIsInfeasibility` | crates/h2ai-constraints/src/conflict.rs:37-53 | ids clash by bounds iff one enforces an upper bound and the other a greater lower bound on one field |
| `ConflictGraph.BoundsConflictIsSound` | crates/h2ai-constraints/src/conflict.rs:37-53 | for a pair reported by bounds every output scores exactly 0 on at least one of two documents with those ids |
| `Similarity.SplitYieldsMaximalRuns` | crates/h2ai-constraints/src/ambiguity.rs:223-224 | the words are exactly the maximal runs without whitespace |
| `Similarity.JaccardIsASimilarity` | crates/h2ai-constraints/src/ambiguity.rs:222-230 | in [0, 1], symmetric, and 1 iff the word sets are equal |
| `Similarity.DistanceIsDifference` | crates/h2ai-constraints/src/ambiguity.rs:222-230 | 1 - jaccard times the size of the union is the number of words in exactly one of the sets |
| `Similarity.TriangleInequality` | crates/h2ai-constraints/src/ambiguity.rs:222-230 | 1 - jaccard satisfies the triangle inequality on all word sets |
| `Similarity.SimilarToTheSame` | crates/h2ai-autonomic/src/retry.rs:90-94 | two reasons more than θ similar to a third are more than 2θ - 1 similar to each other |
| `Similarity.MostDivergentPair` | crates/h2ai-constraints/src/ambiguity.rs:232-253 | the first pair of least similarity in row order; none iff there are fewer than two reasons |
| `Ranking.StableSortDescCorrect` | crates/h2ai-autonomic/src/retry.rs:100-101 | the sort is a descending permutation that keeps equal scores in order |
| `Ranking.TopKKeepsTheBest` | crates/h2ai-knowledge/src/bm25plus.rs:111-117 | truncation leaves out nothing that scores above anything kept |
| `Ranking.TopKKeepsTheEarliest` | crates/h2ai-knowledge/src/bm25plus.rs:111-117 | among equal scores truncation keeps the earliest, in their order |
| `ReasonDedup.TopKUniqueReasons` | crates/h2ai-autonomic/src/retry.rs:95-116 | the loop with its early exit returns the first max(k, 1) survivors of greedy deduplication of the whole sorted list |
| `ReasonDedup.KeptArePairwiseDistinct` | crates/h2ai-autonomic/src/retry.rs:104-110 | survivors are pairwise at most θ similar |
| `ReasonDedup.DroppedAreCovered` | crates/h2ai-autonomic/src/retry.rs:104-110 | every dropped reason is more than θ similar to a survivor of at least its score |
| `ReasonDedup.ResultCoversInput` | crates/h2ai-autonomic/src/retry.rs:90-116 | every input reason is returned, covered by a returned one of at least its score, or cut off by a full result none of which scores less |
| `Tournament.SplitPairs` | crates/h2ai-adapters/src/chain.rs:80-95 | neighbours in order, and the odd last item as the bye |
| `Tournament.PlayRound` | crates/h2ai-adapters/src/chain.rs:46-74 | all merges of a round are made; the outcomes are those of the next round's brackets, or the error is that of the first merge in order to fail |
| `Tournament.TournamentMerge` | crates/h2ai-adapters/src/chain.rs:29-78 | succeeds iff every merge of the bracket does, with the bracket's outcome, in ⌈log₂ n⌉ rounds and n - 1 merges; otherwise returns the error of the first failure, by round and in order within it; empty without proposals |
| `Tournament.FirstFailureIsUnique` | crates/h2ai-adapters/src/chain.rs:64-68 | there is one first failure, so the returned error is determined |
| `Tournament.TournamentShape` | crates/h2ai-adapters/src/chain.rs:41-74 | the bracket's leaves are the proposals, once each and in order, with n - 1 merges, and its depth is exactly the round count ⌈log₂ n⌉ |
| `Tournament.CeilLog2IsLeast` | crates/h2ai-adapters/src/chain.rs:43 | the round count is the least k with n <= 2^k |
| `Tournament.AnyBracketIsTheFold` | crates/h2ai-adapters/src/chain.rs:41-77 | for an associative merge that never fails any bracket, so the tournament's, equals the left fold over its leaves |
| `Compaction.MissingIsExact` | crates/h2ai-context/src/compaction.rs:87-99 | the missing keywords are exactly those that do not occur in the text |
| `Compaction.MissingKeepsOrder` | crates/h2ai-context/src/compaction.rs:87-93 | each missing keyword appears once, in the order of first occurrence |
| `Compaction.JoinHasPartsInOrder` | crates/h2ai-context/src/compaction.rs:93-98 | joined keywords are the keywords in order with one blank between neighbours |
| `Compaction.WidthIsLeast` | crates/h2ai-context/src/compaction.rs:6-8 | a character costs the fewest bytes that carry its code point in UTF-8 |
| `Compaction.KeywordsSurvive` | crates/h2ai-context/src/compaction.rs:18-85 | every keyword occurs in the result on every path |
| `Compaction.FittingStaysInBudget` | crates/h2ai-context/src/compaction.rs:19-36 | a text that fits is returned whole, its missing keywords on a line of their own behind it, and stays in budget |
| `Compaction.ShortTextIsUnchanged` | crates/h2ai-context/src/compaction.rs:19-36 | a text of at most four bytes a token in which every keyword occurs is returned unchanged |
| `Compaction.FitsIffBytes` | crates/h2ai-context/src/compaction.rs:19-31 | without missing keywords a text fits iff it has at most four bytes a token; otherwise iff text and keywords fit into two parts of the budget with one token between |
| `Compaction.BodyBudgetIsTheRest` | crates/h2ai-context/src/compaction.rs:38-53 | at least t tokens are left for the body iff they are once the marker has five and all keywords a quarter of their bytes and one for their line |
| `Compaction.TruncationIsMarkedIffCut` | crates/h2ai-context/src/compaction.rs:60-84 | with a positive body budget the result is a disjoint prefix, marker and suffix, plus missing keywords, iff the text has more characters than the budget's ASCII worth; otherwise it is a bare prefix |
| `Compaction.AsciiIsAlwaysMarked` | crates/h2ai-context/src/compaction.rs:66-72 | for ASCII the head-only branch is unreachable |
| `Compaction.CutBound` | crates/h2ai-context/src/compaction.rs:66-84 | a cut text meets the budget if it keeps one byte per character, exceeds it by at most three times the body budget, and without keywords meets it iff it keeps at most one byte more |
| `Compaction.HeadBound` | crates/h2ai-context/src/compaction.rs:74-84 | a text of which only the head is left exceeds the budget by at most five tokens less than the body budget, and without keywords meets it iff the head has at most twenty bytes more than four per token of the body budget |
| `Compaction.OverrunBound` | crates/h2ai-context/src/compaction.rs:18-85 | with a positive body budget no result exceeds the token budget by more than three times the body budget |
| `Compaction.BudgetIsMetIff` | crates/h2ai-context/src/compaction.rs:10-85 | the budget is met iff the text fits or the bytes of its path (kept characters, marker and missing keywords; the head and missing keywords; or the keywords alone) are at most four per token |
| `Compaction.UnmarkedLossIff` | crates/h2ai-context/src/compaction.rs:66-76 | text is lost without a marker iff the context has more than two but at most four characters per token of the body budget |
| `Compaction.AsciiStaysInBudget` | crates/h2ai-context/src/compaction.rs:10-17 | for ASCII the token estimate of the result never exceeds the budget if the text fits or the body budget is positive |
| `Compaction.NoBudgetIsFilledByKeywords` | crates/h2ai-context/src/compaction.rs:52-58 | without a body budget the result is the same for every text that does not fit, misses no keyword, leaves at most six tokens of the budget unused, and meets it iff the keywords alone have at most four bytes per token |
| `Compaction.WideTextLosesItsTail` | crates/h2ai-context/src/compaction.rs:66-72 | a text that is too long in bytes and has more than two but at most four characters per token of the body budget is returned as its bare head, unmarked |
| `Compaction.WideTextExceedsBudget` | crates/h2ai-context/src/compaction.rs:60-84 | a long enough text of four-byte characters exceeds the token budget by exactly three times the body budget |
| `Compaction.WideHeadExceedsBudget` | crates/h2ai-context/src/compaction.rs:74-76 | a bare head of four-byte characters costs exactly twice the body budget, the most `HeadBound` allows |
| `Bm25Plus.Build` | crates/h2ai-knowledge/src/bm25plus.rs:44-85 | the index holds the average length and, for exactly the terms that occur, ln(1 + (N - n + 1/2) / (n + 1/2)) for the n of N documents with the term, or 0 if that is negative |
| `Bm25Plus.RarerTermsWeighMore` | crates/h2ai-knowledge/src/bm25plus.rs:66-78 | for an increasing logarithm a term in fewer documents has a strictly greater idf |
| `Bm25Plus.TfNorm` | crates/h2ai-knowledge/src/bm25plus.rs:132-133 | term frequency saturates strictly between 0 and K1 + 1 |
| `Bm25Plus.TfNormIsMonotone` | crates/h2ai-knowledge/src/bm25plus.rs:132-133 | it grows strictly with the frequency, falls strictly with the length, and is tf (k1 + 1) / (k1 + tf) at the average length |
| `Bm25Plus.Score` | crates/h2ai-knowledge/src/bm25plus.rs:121-139 | the loop over the query terms, in whatever order, computes the sum of their contributions |
| `Bm25Plus.ScoreInAnyOrder` | crates/h2ai-knowledge/src/bm25plus.rs:124-137 | the sum does not depend on the order of the terms |
| `Bm25Plus.ScoreBounds` | crates/h2ai-knowledge/src/bm25plus.rs:121-139 | 0 without a shared term, otherwise strictly between δ and δ + K1 + 1 times the idf sum of the shared terms |
| `Bm25Plus.ContributionIsFormula` | crates/h2ai-knowledge/src/bm25plus.rs:122-136 | a shared term adds idf (δ + tf (k1 + 1) / (k1 (1 - b + b len / avg) + tf)) with k1 = 1.5, b = 0.75, δ = 1 and the average at least 1 |
| `Bm25Plus.PositiveIffSharesTerm` | crates/h2ai-knowledge/src/bm25plus.rs:5-8 | a document scores above 0 iff it shares a query term |
| `Bm25Plus.RarerMatchScoresHigher` | crates/h2ai-knowledge/src/bm25plus.rs:66-139 | of two documents of one length that match one query term each, equally often, the one with the rarer term scores higher |
| `Bm25Plus.Query` | crates/h2ai-knowledge/src/bm25plus.rs:92-118 | the sorted top k of all documents with a positive score |
| `Bm25Plus.HitsShareATerm` | crates/h2ai-knowledge/src/bm25plus.rs:101-109 | the hits are, in corpus order and each once, exactly the documents that share a query term, with their scores |
| `Bm25Plus.AnswerIsBest` | crates/h2ai-knowledge/src/bm25plus.rs:111-117 | the answer is sorted, has at most k hits, and nothing left out outscores anything returned |
| `WaveAnalysis.DistinctWaves` | crates/h2ai-autonomic/src/meta_observer.rs:36-38 | every wave of an event once, ascending |
| `WaveAnalysis.WaveViolationHistory` | crates/h2ai-autonomic/src/meta_observer.rs:16-29 | per violated constraint the waves of its violations, in event order with repetitions |
| `WaveAnalysis.HistoryIsViolations` | crates/h2ai-autonomic/src/meta_observer.rs:14-29 | the history lists exactly the waves at which a constraint is violated |
| `WaveAnalysis.DivergenceEvents` | crates/h2ai-autonomic/src/meta_observer.rs:33-85 | without repeats, exactly the events of a constraint first violated at a wave, paired with the wave right before it |
| `WaveAnalysis.EachRegressionOnce` | crates/h2ai-autonomic/src/meta_observer.rs:31-85 | exactly one event per constraint whose first violating wave is not the earliest, and none for the others |
| `WaveAnalysis.FindOscillationPairs` | crates/h2ai-autonomic/src/repair.rs:734-796 | without repeats, exactly the canonical pairs witnessed by three consecutive distinct waves |
| `WaveAnalysis.FirstFailureIffNotBefore` | crates/h2ai-autonomic/src/repair.rs:730-779 | in any triple the newly failing constraint of a reported pair fails for the first time, as documented, iff it is violated at no wave before the triple |
| `WaveAnalysis.FirstTripleIsFirstFailure` | crates/h2ai-autonomic/src/repair.rs:730-733 | in the first triple of waves the second constraint of a reported pair has never failed before, as documented |
| `WaveAnalysis.RepeatedFailureIsReported` | crates/h2ai-autonomic/src/repair.rs:730-779 | over four waves a pair is reported although in no triple does a constraint fail for the first time in the middle |
| `UslFit.OnlyRawFitPasses` | crates/h2ai-autonomic/src/calibration.rs:380-388 | the unclamped fit is the only law through both measured points |
| `UslFit.FitRecoversLaw` | crates/h2ai-autonomic/src/calibration.rs:392-419 | on non-degenerate timings generated by the law, with parameters in range and m >= 3, the fit returns exactly those parameters |
| `UslFit.FitIsClosestLaw` | crates/h2ai-autonomic/src/calibration.rs:401-418 | the fit is the fallback for degenerate timings or if the law through both points has a negative parameter, and otherwise that law moved into [0.05, 0.5] and [1e-6, 0.1] |
| `UslFit.FitPassesIffUnclamped` | crates/h2ai-autonomic/src/calibration.rs:411-418 | a fit that does not fall back passes through both points iff no clamp acts |
| `UslFit.InverseIsUnique` | crates/h2ai-autonomic/src/calibration.rs:673-680 | among laws without a serial part exactly one has throughput x at N agents |
| `UslFit.InversionHitsTargetIffUnfloored` | crates/h2ai-autonomic/src/calibration.rs:658-680 | the law with α = 0 and the returned β has the count, clamped to [1, N_cal], at N_cal iff the floor does not act; otherwise β is the floor |
| `WilsonInterval.CountVerdicts` | crates/h2ai-constraints/src/types.rs:402-410 | passed never exceeds total, and total is 0 iff no result has verdicts |
| `WilsonInterval.CountsAreVerdicts` | crates/h2ai-constraints/src/types.rs:402-410 | passed is the number of true verdicts, and total the number of verdicts, over all results |
| `WilsonInterval.IntervalSurroundsShare` | crates/h2ai-constraints/src/types.rs:421-432 | 0 <= lo <= p <= hi <= 1, and over the reals the clamps never act |
| `WilsonInterval.EndpointsSolveScoreEquation` | crates/h2ai-constraints/src/types.rs:421-432 | θ solves n(p - θ)² = z²θ(1 - θ) iff it is one of the two endpoints |
| `WilsonInterval.SwappingVerdictsReflects` | crates/h2ai-constraints/src/types.rs:421-432 | swapping passed with failed reflects the interval about one half |
| `WilsonInterval.CountsGiveAnInterval` | crates/h2ai-constraints/src/types.rs:402-432 | counted verdicts give an ordered interval inside [0, 1], and (0, 1) if there are none |

## Left out

- Rounding, underflow, overflow and NaN of floating point, except for the detector's lost masses, and the width of machine integers.
- The numerics of `lgamma`, the Student-t density and the log domain: masses are linear, so `logsumexp` is a sum.
- Bocpd.BocpdDetector.constructor: requires a hazard rate from 0 to 1; outside it a logarithm is NaN and nothing is ever reported.
- ChangepointFilter.FilterIsExact: covers histories shorter than MAX_RUN_LENGTH, the only ones whose 2^t weights all survive; longer ones are covered by `TruncatedFilterIsExact`.
- SessionMemory.KvCell.CommitNewMemories: one session on a store that answers every request; storage and serialization errors, and updates that are applied but reported as errors, are not distinguished by the code and not modelled.
- VersionedSource.Source.CreateNextVersion: the in-memory mode only; the durable copies of the versions are written unconditionally and best-effort after the lock is released.
- SpecRepair.Advisor.Run: candidate generation and the coherence probe are a list of scored candidates; the accepted rewrite is what the caller reports, not always what is stored.
- Evaluation.EvalSync: a number that parses as NaN has no counterpart in the reals; JSON parsing, schema compilation and validation are one predicate.
- ConflictGraph.OrderingConflictIsOpposition: for one document in conflict with itself the statement stays on collected entries, because an ordering of a term before itself conflicts only with a second occurrence.
- Tournament.TournamentMerge: the merge is a function of its two inputs; the adapter call, prompt templates and concurrency of a round are not modelled.
- Bm25Plus.Build: documents and queries are token multisets; tokenization and stop words are left out.
- WilsonInterval.IntervalSurroundsShare: the square root is a given witness; its existence is not constructed.
- UslFit.InversionHitsTargetIffUnfloored: the power of the coherence in the effective count is one real parameter.
- PartialSelection.SelectOrthogonalPartials: proposal texts are kept whole; their line-safe truncation for the prompt does not affect the selection.
- Pairwise mean and minimum similarity, evidence scores, predicate tiers and vocabulary collection: single folds without a hard property.
- Prompt, rubric and synthesis assembly, HTTP, messaging, configuration, file and YAML loading.
- The drift monitor that puts both detectors side by side: it forwards their reports and holds a margin for a time.
- The orchestrator and the packages it dispatches to (Krum, Weiszfeld, semilattice, eigenvalue calibration).
- The shadow auditor: with windows of capacity `promotion_window` its demotion count cannot reach twice that size, so nothing beyond the remark is worth modelling.
