/**
 Descending stable sort by score, as the ranking components use it, and what
 truncating such a list keeps.
 */
module Ranking {

  datatype Scored<T> = Scored(item: T, score: real)

  predicate SortedDesc<T>(s: seq<Scored<T>>) {
    forall i, j :: 0 <= i < j < |s| ==> s[i].score >= s[j].score
  }

  /** Places x behind every element that scores at least as much. */
  function Insert<T>(sorted: seq<Scored<T>>, x: Scored<T>): seq<Scored<T>> {
    if sorted == [] then [x]
    else
      var last := sorted[|sorted| - 1];
      if last.score >= x.score then sorted + [x] else Insert(sorted[..|sorted| - 1], x) + [last]
  }

  function StableSortDesc<T>(s: seq<Scored<T>>): seq<Scored<T>> {
    if s == [] then [] else Insert(StableSortDesc(s[..|s| - 1]), s[|s| - 1])
  }

  function TopK<T>(s: seq<Scored<T>>, k: nat): seq<Scored<T>> {
    var sorted := StableSortDesc(s);
    if |sorted| <= k then sorted else sorted[..k]
  }

  /** The elements with one score, in order: what stability is about. */
  function WithScore<T>(s: seq<Scored<T>>, v: real): seq<Scored<T>> {
    if s == [] then []
    else WithScore(s[..|s| - 1], v) + (if s[|s| - 1].score == v then [s[|s| - 1]] else [])
  }

  lemma {:induction false} InsertMembers<T>(sorted: seq<Scored<T>>, x: Scored<T>, low: real)
    requires x.score >= low && forall i :: 0 <= i < |sorted| ==> sorted[i].score >= low
    ensures forall i :: 0 <= i < |Insert(sorted, x)| ==> Insert(sorted, x)[i].score >= low
    decreases |sorted|
  {
    if sorted != [] {
      InsertMembers(sorted[..|sorted| - 1], x, low);
    }
  }

  lemma {:induction false} InsertSorts<T>(sorted: seq<Scored<T>>, x: Scored<T>)
    requires SortedDesc(sorted)
    ensures SortedDesc(Insert(sorted, x))
    decreases |sorted|
  {
    if sorted != [] {
      var front, last := sorted[..|sorted| - 1], sorted[|sorted| - 1];
      if last.score < x.score {
        InsertSorts(front, x);
        InsertMembers(front, x, last.score);
      }
    }
  }

  lemma {:induction false} InsertAdds<T>(sorted: seq<Scored<T>>, x: Scored<T>)
    ensures multiset(Insert(sorted, x)) == multiset(sorted) + multiset{x}
    decreases |sorted|
  {
    if sorted != [] {
      var front, last := sorted[..|sorted| - 1], sorted[|sorted| - 1];
      assert sorted == front + [last];
      if last.score < x.score {
        InsertAdds(front, x);
      }
    }
  }

  lemma {:induction false} WithScoreAppend<T>(s: seq<Scored<T>>, x: Scored<T>, v: real)
    ensures WithScore(s + [x], v) == WithScore(s, v) + (if x.score == v then [x] else [])
  {
    assert (s + [x])[..|s|] == s;
  }

  lemma {:induction false} InsertIsStable<T>(sorted: seq<Scored<T>>, x: Scored<T>, v: real)
    ensures WithScore(Insert(sorted, x), v) == WithScore(sorted + [x], v)
    decreases |sorted|
  {
    if sorted != [] {
      var front, last := sorted[..|sorted| - 1], sorted[|sorted| - 1];
      assert sorted == front + [last];
      if last.score < x.score {
        InsertIsStable(front, x, v);
        WithScoreAppend(Insert(front, x), last, v);
        WithScoreAppend(front, x, v);
        WithScoreAppend(front, last, v);
        WithScoreAppend(sorted, x, v);
      }
    }
  }

  /** The sort is a descending permutation that keeps equal scores in their original order. */
  lemma {:induction false} StableSortDescCorrect<T(!new)>(s: seq<Scored<T>>, v: real)
    ensures SortedDesc(StableSortDesc(s))
    ensures multiset(StableSortDesc(s)) == multiset(s)
    ensures |StableSortDesc(s)| == |s|
    ensures WithScore(StableSortDesc(s), v) == WithScore(s, v)
    decreases |s|
  {
    if s != [] {
      var front, last := s[..|s| - 1], s[|s| - 1];
      StableSortDescCorrect(front, v);
      assert s == front + [last];
      InsertSorts(StableSortDesc(front), last);
      InsertAdds(StableSortDesc(front), last);
      InsertIsStable(StableSortDesc(front), last, v);
      WithScoreAppend(StableSortDesc(front), last, v);
      WithScoreAppend(front, last, v);
    }
    assert |multiset(StableSortDesc(s))| == |multiset(s)|;
  }

  lemma SortKeepsMembers<T(!new)>(s: seq<Scored<T>>)
    ensures SortedDesc(StableSortDesc(s)) && |StableSortDesc(s)| == |s|
    ensures forall x :: x in StableSortDesc(s) <==> x in s
  {
    StableSortDescCorrect(s, 0.0);
    forall x
      ensures x in StableSortDesc(s) <==> x in s
    {
      assert x in StableSortDesc(s) <==> x in multiset(StableSortDesc(s));
    }
  }

  lemma SplitSorted<T>(sorted: seq<Scored<T>>, n: nat, kept: Scored<T>, omitted: Scored<T>)
    requires SortedDesc(sorted) && n <= |sorted| && kept in sorted[..n] && omitted in sorted[n..]
    ensures omitted.score <= kept.score
  {
    var i :| 0 <= i < n && sorted[..n][i] == kept;
    var j :| 0 <= j < |sorted| - n && sorted[n..][j] == omitted;
    assert sorted[i] == kept && sorted[n + j] == omitted;
  }

  lemma SplitMultiset<T>(s: seq<T>, n: nat)
    requires n <= |s|
    ensures multiset(s) - multiset(s[..n]) == multiset(s[n..])
    ensures multiset(s[..n]) <= multiset(s)
  {
    assert s == s[..n] + s[n..];
    assert multiset(s) == multiset(s[..n]) + multiset(s[n..]);
  }

  lemma {:induction false} PrefixOfScore<T>(s: seq<Scored<T>>, n: nat, v: real)
    requires n <= |s|
    ensures WithScore(s[..n], v) <= WithScore(s, v)
    decreases |s|
  {
    if n == |s| {
      assert s[..n] == s;
    } else {
      PrefixOfScore(s[..|s| - 1], n, v);
      assert s[..|s| - 1][..n] == s[..n];
    }
  }

  /** Among equal scores truncation keeps the earliest, in their order. */
  lemma TopKKeepsTheEarliest<T(!new)>(s: seq<Scored<T>>, k: nat, v: real)
    ensures WithScore(TopK(s, k), v) <= WithScore(s, v)
  {
    hide StableSortDesc, WithScore;
    StableSortDescCorrect(s, v);
    var sorted := StableSortDesc(s);
    PrefixOfScore(sorted, |TopK(s, k)|, v);
    assert TopK(s, k) == sorted[..|TopK(s, k)|];
  }

  /** Truncation keeps the best: nothing left out scores above anything kept. */
  lemma TopKKeepsTheBest<T(!new)>(s: seq<Scored<T>>, k: nat)
    ensures |TopK(s, k)| == (if |s| <= k then |s| else k)
    ensures SortedDesc(TopK(s, k))
    ensures multiset(TopK(s, k)) <= multiset(s)
    ensures forall kept, omitted :: kept in TopK(s, k) && omitted in multiset(s) - multiset(TopK(s, k)) ==>
      omitted.score <= kept.score
  {
    hide StableSortDesc, Insert, WithScore;
    StableSortDescCorrect(s, 0.0);
    var sorted := StableSortDesc(s);
    var n := |TopK(s, k)|;
    assert TopK(s, k) == sorted[..n];
    SplitMultiset(sorted, n);
    forall kept, omitted | kept in sorted[..n] && omitted in multiset(sorted) - multiset(sorted[..n])
      ensures omitted.score <= kept.score
    {
      SplitSorted(sorted, n, kept, omitted);
    }
  }
}
