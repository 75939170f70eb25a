/** The best few failure reasons without near-duplicates. */
module ReasonDedup {
  import opened Ranking
  import opened Similarity

  type Reason = Scored<string>

  /** More than the threshold similar to a reason kept before. */
  predicate IsDuplicate(kept: seq<Reason>, reason: Reason, threshold: real) {
    exists i :: 0 <= i < |kept| && Jaccard(kept[i].item, reason.item) > threshold
  }

  /** The reasons that survive greedy deduplication of the whole list. */
  function Kept(sorted: seq<Reason>, threshold: real): seq<Reason> {
    if sorted == [] then []
    else
      var n := |sorted| - 1;
      var kept := Kept(sorted[..n], threshold);
      if IsDuplicate(kept, sorted[n], threshold) then kept else kept + [sorted[n]]
  }

  function Take(kept: seq<Reason>, k: nat): seq<Reason> {
    if |kept| <= k then kept else kept[..k]
  }

  /** The loop stops after a full result, so that k = 0 still returns one reason. */
  function AtLeastOne(k: nat): nat {
    if k == 0 then 1 else k
  }

  method TopKUniqueReasons(pairs: seq<Reason>, k: nat, threshold: real) returns (result: seq<Reason>)
    ensures result == Take(Kept(StableSortDesc(pairs), threshold), AtLeastOne(k))
  {
    hide StableSortDesc, IsDuplicate;
    var sorted := StableSortDesc(pairs);
    result := [];
    for n := 0 to |sorted|
      invariant result == Kept(sorted[..n], threshold)
      invariant |result| < AtLeastOne(k)
    {
      assert sorted[..n + 1][..n] == sorted[..n];
      if !IsDuplicate(result, sorted[n], threshold) {
        result := result + [sorted[n]];
      }
      if |result| >= k {
        assert |result| > 0 by {
          FirstIsKept(sorted, n + 1, threshold);
        }
        KeptIsPrefix(sorted, n + 1, threshold);
        return;
      }
    }
    assert sorted[..|sorted|] == sorted;
  }

  lemma {:induction false} FirstIsKept(sorted: seq<Reason>, n: nat, threshold: real)
    requires 0 < n <= |sorted|
    ensures Kept(sorted[..n], threshold) != []
  {
    assert sorted[..n][..n - 1] == sorted[..n - 1];
    if n > 1 {
      FirstIsKept(sorted, n - 1, threshold);
    }
  }

  /** What is kept of a prefix is kept, first, of the whole. */
  lemma {:induction false} KeptIsPrefix(sorted: seq<Reason>, n: nat, threshold: real)
    requires n <= |sorted|
    ensures Kept(sorted[..n], threshold) <= Kept(sorted, threshold)
    decreases |sorted|
  {
    hide IsDuplicate;
    var m := |sorted| - 1;
    if n <= m {
      KeptIsPrefix(sorted[..m], n, threshold);
      assert sorted[..m][..n] == sorted[..n];
    } else {
      assert sorted[..n] == sorted;
    }
  }

  // ---------------------------------------------------------------------------
  // What greedy deduplication guarantees
  // ---------------------------------------------------------------------------

  ghost predicate PairwiseDistinct(kept: seq<Reason>, threshold: real) {
    forall i, j :: 0 <= i < j < |kept| ==> Jaccard(kept[i].item, kept[j].item) <= threshold
  }

  lemma {:induction false} KeptArePairwiseDistinct(sorted: seq<Reason>, threshold: real)
    ensures PairwiseDistinct(Kept(sorted, threshold), threshold)
    decreases |sorted|
  {
    hide Jaccard;
    if sorted != [] {
      KeptArePairwiseDistinct(sorted[..|sorted| - 1], threshold);
    }
  }

  /** Kept reasons are reasons of the list, no better than the best and no worse than the last seen. */
  lemma {:induction false} KeptAreSorted(sorted: seq<Reason>, threshold: real, low: real)
    requires SortedDesc(sorted) && forall i :: 0 <= i < |sorted| ==> sorted[i].score >= low
    ensures var kept := Kept(sorted, threshold);
      && SortedDesc(kept)
      && forall i :: 0 <= i < |kept| ==> kept[i] in sorted && kept[i].score >= low
    decreases |sorted|
  {
    hide IsDuplicate;
    if sorted != [] {
      var n := |sorted| - 1;
      KeptAreSorted(sorted[..n], threshold, sorted[n].score);
      assert forall x :: x in sorted[..n] ==> x in sorted;
    }
  }

  /** Some kept reason of at least the same score is more than the threshold similar. */
  ghost predicate IsCovered(kept: seq<Reason>, reason: Reason, threshold: real) {
    exists i :: 0 <= i < |kept| && kept[i].score >= reason.score && Jaccard(kept[i].item, reason.item) > threshold
  }

  lemma CoverGrows(kept: seq<Reason>, more: seq<Reason>, reason: Reason, threshold: real)
    requires kept <= more && IsCovered(kept, reason, threshold)
    ensures IsCovered(more, reason, threshold)
  {
    hide Jaccard;
    var i :| 0 <= i < |kept| && kept[i].score >= reason.score && Jaccard(kept[i].item, reason.item) > threshold;
    assert more[i] == kept[i];
  }

  lemma {:induction false} DroppedAreCovered(sorted: seq<Reason>, threshold: real, i: nat)
    requires SortedDesc(sorted) && i < |sorted|
    ensures var kept := Kept(sorted, threshold); sorted[i] in kept || IsCovered(kept, sorted[i], threshold)
    decreases |sorted|
  {
    hide Jaccard;
    var n := |sorted| - 1;
    var before, kept := Kept(sorted[..n], threshold), Kept(sorted, threshold);
    if i < n {
      DroppedAreCovered(sorted[..n], threshold, i);
      if IsCovered(before, sorted[i], threshold) {
        CoverGrows(before, kept, sorted[i], threshold);
      }
    } else if IsDuplicate(before, sorted[n], threshold) {
      KeptAreSorted(sorted[..n], threshold, sorted[n].score);
    }
  }

  /**
   The result: pairwise at most θ similar and best first. Every input reason is returned, or is
   more than θ similar to a returned one of at least its score, or was cut off by a full result
   none of which scores less.
   */
  lemma ResultCoversInput(pairs: seq<Reason>, k: nat, threshold: real, reason: Reason)
    requires reason in pairs
    ensures var result := Take(Kept(StableSortDesc(pairs), threshold), AtLeastOne(k));
      && PairwiseDistinct(result, threshold) && SortedDesc(result)
      && (|| reason in result
          || IsCovered(result, reason, threshold)
          || (|result| == AtLeastOne(k) && forall i :: 0 <= i < |result| ==> result[i].score >= reason.score))
  {
    hide Jaccard, StableSortDesc, Kept, PairwiseDistinct;
    var sorted := StableSortDesc(pairs);
    SortKeepsMembers(pairs);
    var kept := Kept(sorted, threshold);
    var result := Take(kept, AtLeastOne(k));
    KeptArePairwiseDistinct(sorted, threshold);
    PrefixIsDistinct(kept, result, threshold);
    var at :| 0 <= at < |sorted| && sorted[at] == reason;
    var low := sorted[|sorted| - 1].score;
    KeptAreSorted(sorted, threshold, low);
    DroppedAreCovered(sorted, threshold, at);
    if |result| < |kept| && reason !in result && !IsCovered(result, reason, threshold) {
      forall i | 0 <= i < |result|
        ensures result[i].score >= reason.score
      {
        CutOffComesLater(kept, |result|, reason, threshold, i);
      }
    }
  }

  lemma PrefixIsDistinct(kept: seq<Reason>, result: seq<Reason>, threshold: real)
    requires PairwiseDistinct(kept, threshold) && result <= kept
    ensures PairwiseDistinct(result, threshold)
  {
    hide Jaccard;
  }

  /** A reason only later entries account for scores no more than the entries before. */
  lemma CutOffComesLater(kept: seq<Reason>, m: nat, reason: Reason, threshold: real, i: nat)
    requires SortedDesc(kept) && i < m <= |kept|
    requires reason in kept || IsCovered(kept, reason, threshold)
    requires reason !in kept[..m] && !IsCovered(kept[..m], reason, threshold)
    ensures kept[i].score >= reason.score
  {
    hide Jaccard;
    var j :| 0 <= j < |kept| && kept[j].score >= reason.score
      && (kept[j] == reason || Jaccard(kept[j].item, reason.item) > threshold);
    assert j >= m;
    assert kept[i].score >= kept[j].score;
  }
}
