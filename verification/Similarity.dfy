/** Word-set Jaccard similarity and the pair of reasons that are furthest apart. */
module Similarity {
  import opened Collections
  import opened Wrappers

  // ---------------------------------------------------------------------------
  // Words
  // ---------------------------------------------------------------------------

  /** The characters with the Unicode property White_Space. */
  predicate IsWhitespace(c: char) {
    var n := c as int;
    || 0x9 <= n <= 0xD || n == 0x20 || n == 0x85 || n == 0xA0 || n == 0x1680
    || 0x2000 <= n <= 0x200A || n == 0x2028 || n == 0x2029 || n == 0x202F || n == 0x205F || n == 0x3000
  }

  /** The length of the leading run without whitespace. */
  function WordLength(s: string): (n: nat)
    ensures n <= |s| && forall i :: 0 <= i < n ==> !IsWhitespace(s[i])
    ensures n < |s| ==> IsWhitespace(s[n])
  {
    if s == [] || IsWhitespace(s[0]) then 0 else 1 + WordLength(s[1..])
  }

  function SplitWhitespace(s: string): seq<string> {
    if s == [] then []
    else if IsWhitespace(s[0]) then SplitWhitespace(s[1..])
    else
      var n := WordLength(s);
      [s[..n]] + SplitWhitespace(s[n..])
  }

  /** s[i..j] is a maximal run without whitespace. */
  predicate IsWordAt(s: string, i: nat, j: nat) {
    && i < j <= |s|
    && (forall k :: i <= k < j ==> !IsWhitespace(s[k]))
    && (i == 0 || IsWhitespace(s[i - 1]))
    && (j == |s| || IsWhitespace(s[j]))
  }

  ghost predicate IsWordOf(s: string, w: string) {
    exists i: nat, j: nat :: IsWordAt(s, i, j) && s[i..j] == w
  }

  lemma ShiftedWord(s: string, n: nat, i: nat, j: nat)
    requires n <= |s| && i < j <= |s| - n
    ensures s[n..][i..j] == s[n + i..n + j]
    ensures forall k :: i <= k < j ==> s[n..][k] == s[n + k]
  {
  }

  /** A word of the rest is a word of the text, if the rest starts at a word boundary. */
  lemma WordsAfterSkip(s: string, n: nat, w: string)
    requires 0 < n <= |s|
    requires n == |s| || IsWhitespace(s[n - 1]) || IsWhitespace(s[n])
    ensures IsWordOf(s[n..], w) ==> IsWordOf(s, w)
  {
    hide IsWhitespace;
    var rest := s[n..];
    if IsWordOf(rest, w) {
      var i: nat, j: nat :| IsWordAt(rest, i, j) && rest[i..j] == w;
      ShiftedWord(s, n, i, j);
      WordShiftsRight(s, n, i, j);
    }
  }

  lemma WordShiftsRight(s: string, n: nat, i: nat, j: nat)
    requires 0 < n <= |s| && IsWordAt(s[n..], i, j)
    requires n == |s| || IsWhitespace(s[n - 1]) || IsWhitespace(s[n])
    ensures IsWordAt(s, n + i, n + j)
  {
    hide IsWhitespace;
    forall k | n + i <= k < n + j
      ensures !IsWhitespace(s[k])
    {
      assert s[n..][k - n] == s[k];
    }
  }

  lemma WordsBeyondSkip(s: string, n: nat, i: nat, j: nat)
    requires n <= i && IsWordAt(s, i, j)
    ensures IsWordOf(s[n..], s[i..j])
  {
    hide IsWhitespace;
    WordShiftsLeft(s, n, i, j);
    ShiftedWord(s, n, i - n, j - n);
  }

  lemma WordShiftsLeft(s: string, n: nat, i: nat, j: nat)
    requires n <= i && IsWordAt(s, i, j)
    ensures IsWordAt(s[n..], i - n, j - n)
  {
    hide IsWhitespace;
    forall k | i - n <= k < j - n
      ensures !IsWhitespace(s[n..][k])
    {
      assert s[n..][k] == s[n + k];
    }
  }

  /** Splitting yields exactly the maximal runs without whitespace. */
  lemma {:induction false} SplitYieldsMaximalRuns(s: string, w: string)
    ensures w in SplitWhitespace(s) <==> IsWordOf(s, w)
    decreases |s|
  {
    if s != [] {
      var n := if IsWhitespace(s[0]) then 1 else WordLength(s);
      SplitYieldsMaximalRuns(s[n..], w);
      hide IsWhitespace;
      if n < |s| || IsWhitespace(s[0]) {
        WordsAfterSkip(s, n, w);
      } else {
        assert s[n..] == [];
      }
      if IsWordOf(s, w) {
        var i: nat, j: nat :| IsWordAt(s, i, j) && s[i..j] == w;
        if i >= n {
          WordsBeyondSkip(s, n, i, j);
        } else {
          assert i == 0 && j == n;
        }
      }
      if !IsWhitespace(s[0]) && w == s[..n] {
        assert IsWordAt(s, 0, n) && s[0..n] == w;
      }
    }
  }

  function Words(s: string): set<string> {
    set w | w in SplitWhitespace(s)
  }

  // ---------------------------------------------------------------------------
  // Jaccard similarity
  // ---------------------------------------------------------------------------

  /** |A ∩ B| / |A ∪ B|, and 1 for two empty sets. */
  function JaccardOf(a: set<string>, b: set<string>): real {
    if |a + b| == 0 then 1.0 else |a * b| as real / |a + b| as real
  }

  function Jaccard(s: string, t: string): real {
    JaccardOf(Words(s), Words(t))
  }

  /** The words in exactly one of the two sets. */
  function Difference(a: set<string>, b: set<string>): set<string> {
    (a - b) + (b - a)
  }

  lemma UnionSize(a: set<string>, b: set<string>)
    ensures |a + b| == |a * b| + |Difference(a, b)|
    ensures |a + b| <= |a| + |b|
  {
    assert a + b == a * b + Difference(a, b);
    assert |a * b + Difference(a, b)| == |a * b| + |Difference(a, b)|;
  }

  lemma Quotient(q: real, part: real, whole: real)
    requires whole > 0.0 && 0.0 <= part <= whole && q == part / whole
    ensures q * whole == part && 0.0 <= q <= 1.0
    ensures q == 1.0 <==> part == whole
  {
    assert q * whole == part;
  }

  /** The distance times the union is the difference. */
  lemma DistanceIsDifference(a: set<string>, b: set<string>)
    ensures 0.0 <= JaccardOf(a, b) <= 1.0
    ensures (1.0 - JaccardOf(a, b)) * |a + b| as real == |Difference(a, b)| as real
  {
    UnionSize(a, b);
    if |a + b| > 0 {
      Quotient(JaccardOf(a, b), |a * b| as real, |a + b| as real);
    }
  }

  lemma JaccardIsASimilarity(a: set<string>, b: set<string>)
    ensures 0.0 <= JaccardOf(a, b) <= 1.0
    ensures JaccardOf(a, b) == JaccardOf(b, a)
    ensures JaccardOf(a, b) == 1.0 <==> a == b
  {
    UnionSize(a, b);
    assert a + b == b + a && a * b == b * a;
    if |a + b| > 0 {
      Quotient(JaccardOf(a, b), |a * b| as real, |a + b| as real);
      if |Difference(a, b)| == 0 {
        assert Difference(a, b) == {};
        assert forall x :: x in a <==> x in b by {
          assert a - b <= Difference(a, b) && b - a <= Difference(a, b);
        }
      }
      if a == b {
        assert Difference(a, b) == {};
      }
    } else {
      assert a <= a + b && b <= a + b;
      assert a == {} && b == {};
    }
  }

  /**
   Scalars of the triangle inequality: p, q, r are the three distances, with differences d, e, f
   and unions u, v, w inside a common set of n words, x of them outside the first union.
   */
  lemma TriangleOfQuotients(
    p: real, q: real, r: real, d: real, e: real, f: real, u: real, v: real, w: real, x: real, n: real)
    requires p * u == d && q * v == e && r * w == f
    requires 0.0 <= p <= 1.0 && q >= 0.0 && r >= 0.0
    requires n > 0.0 && u + x == n && v <= n && w <= n && x >= 0.0
    requires d + x <= e + f
    ensures p <= q + r
  {
    EnlargedTogether(p, d, u, x);
    EnlargedUnion(q, e, v, n);
    EnlargedUnion(r, f, w, n);
    CancelCommonFactor(p, q, r, n);
  }

  /** x more words in both difference and union do not lower a quotient. */
  lemma EnlargedTogether(p: real, d: real, u: real, x: real)
    requires p * u == d && p <= 1.0 && x >= 0.0
    ensures p * (u + x) <= d + x
  {
    assert p * (u + x) == d + p * x;
  }

  lemma EnlargedUnion(q: real, e: real, v: real, n: real)
    requires q * v == e && q >= 0.0 && v <= n
    ensures e <= q * n
  {
    assert q * (n - v) >= 0.0;
  }

  lemma CancelCommonFactor(p: real, q: real, r: real, n: real)
    requires n > 0.0 && p * n <= q * n + r * n
    ensures p <= q + r
  {
    var excess := p - q - r;
    assert excess * n <= 0.0;
  }

  lemma DifferencesCover(a: set<string>, b: set<string>, c: set<string>)
    ensures Difference(a, c) !! b - (a + c)
    ensures Difference(a, c) + (b - (a + c)) <= Difference(a, b) + Difference(b, c)
  {
  }

  /** Sizes: a word that only b has counts in both differences that involve b. */
  lemma TriangleOfSets(a: set<string>, b: set<string>, c: set<string>)
    ensures var all, outside := a + b + c, b - (a + c);
      && |a + c| + |outside| == |all| && |a + b| <= |all| && |b + c| <= |all|
      && |Difference(a, c)| + |outside| <= |Difference(a, b)| + |Difference(b, c)|
  {
    var all, outside := a + b + c, b - (a + c);
    assert all == (a + c) + outside;
    SubsetSize(a + b, all);
    SubsetSize(b + c, all);
    var ab, bc, ac := Difference(a, b), Difference(b, c), Difference(a, c);
    assert ac !! outside && ac + outside <= ab + bc by {
      DifferencesCover(a, b, c);
    }
    hide Difference;
    UnionSize(ab, bc);
    SubsetSize(ac + outside, ab + bc);
  }

  lemma TriangleInequality(a: set<string>, b: set<string>, c: set<string>)
    ensures 1.0 - JaccardOf(a, c) <= (1.0 - JaccardOf(a, b)) + (1.0 - JaccardOf(b, c))
  {
    hide JaccardOf, Difference;
    DistanceIsDifference(a, c);
    DistanceIsDifference(a, b);
    DistanceIsDifference(b, c);
    TriangleOfSets(a, b, c);
    if |a + b + c| == 0 {
      EmptySets(a, b, c);
    } else {
      TriangleOfQuotients(
        1.0 - JaccardOf(a, c), 1.0 - JaccardOf(a, b), 1.0 - JaccardOf(b, c),
        |Difference(a, c)| as real, |Difference(a, b)| as real, |Difference(b, c)| as real,
        |a + c| as real, |a + b| as real, |b + c| as real, |b - (a + c)| as real, |a + b + c| as real);
    }
  }

  lemma EmptySets(a: set<string>, b: set<string>, c: set<string>)
    requires |a + b + c| == 0
    ensures JaccardOf(a, c) == 1.0
  {
    assert a + c <= a + b + c;
  }

  /** Two texts more than θ similar to a third are more than 2θ - 1 similar to each other. */
  lemma SimilarToTheSame(s: string, t: string, via: string, threshold: real)
    requires Jaccard(via, s) > threshold && Jaccard(via, t) > threshold
    ensures Jaccard(s, t) > 2.0 * threshold - 1.0
  {
    hide JaccardOf, Words;
    JaccardIsASimilarity(Words(via), Words(s));
    TriangleInequality(Words(s), Words(via), Words(t));
  }

  // ---------------------------------------------------------------------------
  // The most divergent pair
  // ---------------------------------------------------------------------------

  function Pairwise(reasons: seq<string>, i: nat, j: nat): (similarity: real)
    requires i < |reasons| && j < |reasons|
    ensures 0.0 <= similarity <= 1.0
  {
    SimilarityIsBounded(reasons[i], reasons[j]);
    Jaccard(reasons[i], reasons[j])
  }

  /** (i, j) is the first pair, in row order, of least similarity. */
  predicate IsFirstLeast(reasons: seq<string>, i: nat, j: nat) {
    && i < j < |reasons|
    && (forall x: nat, y: nat :: x < y < |reasons| ==>
      Jaccard(reasons[i], reasons[j]) <= Jaccard(reasons[x], reasons[y]))
    && (forall x: nat, y: nat :: x < y < |reasons| && Before(x, y, i, j) ==>
      Jaccard(reasons[i], reasons[j]) < Jaccard(reasons[x], reasons[y]))
  }

  method MostDivergentPair(reasons: seq<string>) returns (pair: Option<(string, string)>)
    ensures pair.None? <==> |reasons| < 2
    ensures pair.Some? ==>
      exists i: nat, j: nat :: IsFirstLeast(reasons, i, j) && pair.value == (reasons[i], reasons[j])
  {
    if |reasons| < 2 {
      return None;
    }
    hide Pairwise, Leads, IsFirstLeast;
    var least := 2.0; // above every similarity, as the largest float is
    var first: nat, second: nat := 0, 1;
    NobodyLeads(reasons);
    for i := 0 to |reasons|
      invariant Leads(reasons, first, second, least, i, i + 1)
    {
      for j := i + 1 to |reasons|
        invariant Leads(reasons, first, second, least, i, j)
      {
        var similarity := Pairwise(reasons, i, j);
        LeaderAfter(reasons, first, second, least, i, j, similarity);
        if similarity < least {
          least := similarity;
          first, second := i, j;
        }
      }
      NextRow(reasons, first, second, least, i);
    }
    LeaderIsFirstLeast(reasons, first, second, least);
    return Some((reasons[first], reasons[second]));
  }

  /** Pair (x, y) comes before (n, k) in row order. */
  predicate Before(x: nat, y: nat, n: nat, k: nat) {
    x < n || (x == n && y < k)
  }

  /** The leader among the pairs before (n, k). */
  predicate Leads(reasons: seq<string>, i: nat, j: nat, least: real, n: nat, k: nat) {
    && (forall x: nat, y: nat :: x < y < |reasons| && Before(x, y, n, k) ==>
      least <= Pairwise(reasons, x, y))
    && (least == 2.0 || (i < j < |reasons| && Before(i, j, n, k) && least == Pairwise(reasons, i, j)))
    && (least < 2.0 ==> forall x: nat, y: nat :: x < y < |reasons| && Before(x, y, i, j) ==>
      least < Pairwise(reasons, x, y))
  }

  lemma NobodyLeads(reasons: seq<string>)
    ensures Leads(reasons, 0, 1, 2.0, 0, 1)
  {
  }

  lemma LeaderAfter(reasons: seq<string>, i: nat, j: nat, least: real, n: nat, k: nat, similarity: real)
    requires Leads(reasons, i, j, least, n, k) && n < k < |reasons| && similarity == Pairwise(reasons, n, k)
    ensures if similarity < least
      then Leads(reasons, n, k, similarity, n, k + 1)
      else Leads(reasons, i, j, least, n, k + 1)
  {
    hide Pairwise;
    assert forall x: nat, y: nat :: Before(x, y, n, k + 1) <==> Before(x, y, n, k) || (x == n && y == k);
  }

  lemma NextRow(reasons: seq<string>, i: nat, j: nat, least: real, n: nat)
    requires Leads(reasons, i, j, least, n, |reasons|)
    ensures Leads(reasons, i, j, least, n + 1, n + 2)
  {
    hide Pairwise;
    assert forall x: nat, y: nat :: x < y < |reasons| ==> (Before(x, y, n + 1, n + 2) <==> Before(x, y, n, |reasons|));
  }

  lemma LeaderIsFirstLeast(reasons: seq<string>, i: nat, j: nat, least: real)
    requires |reasons| >= 2 && Leads(reasons, i, j, least, |reasons|, |reasons| + 1)
    ensures IsFirstLeast(reasons, i, j)
  {
    hide Jaccard;
    assert Before(0, 1, |reasons|, |reasons| + 1);
    forall x: nat, y: nat | x < y < |reasons|
      ensures Jaccard(reasons[i], reasons[j]) <= Jaccard(reasons[x], reasons[y])
      ensures Before(x, y, i, j) ==> Jaccard(reasons[i], reasons[j]) < Jaccard(reasons[x], reasons[y])
    {
      assert least <= Pairwise(reasons, x, y);
    }
  }

  lemma SimilarityIsBounded(s: string, t: string)
    ensures 0.0 <= Jaccard(s, t) <= 1.0
  {
    JaccardIsASimilarity(Words(s), Words(t));
  }
}
