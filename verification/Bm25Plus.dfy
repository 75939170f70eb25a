/** BM25+ ranking over token multisets. */
module Bm25Plus {
  import opened Arithmetic
  import opened Collections
  import opened Ranking

  const K1 := 1.5
  const B := 0.75
  const DELTA := 1.0

  /** An indexed document: its tokens with their frequencies. */
  datatype Entry = Entry(id: string, tokens: multiset<string>)

  datatype Index = Index(entries: seq<Entry>, idf: map<string, real>, avgDocLen: real)

  /** `ln(1 + x)`, of which only signs and order are used. */
  type Log1p = real -> real

  ghost predicate IsPositive(log1p: Log1p) {
    forall x :: x > 0.0 ==> log1p(x) > 0.0
  }

  ghost predicate IsIncreasing(log1p: Log1p) {
    forall x, y :: 0.0 < x < y ==> log1p(x) < log1p(y)
  }

  /** The number of documents that contain a term. */
  function DocFreq(entries: seq<Entry>, term: string): (n: nat)
    ensures n <= |entries|
    ensures n > 0 <==> exists i :: 0 <= i < |entries| && term in entries[i].tokens
    decreases |entries|
  {
    if entries == [] then 0
    else
      var k := |entries| - 1;
      assert forall i :: 0 <= i < k ==> entries[..k][i] == entries[i];
      DocFreq(entries[..k], term) + if term in entries[k].tokens then 1 else 0
  }

  function TotalLength(entries: seq<Entry>): nat {
    if entries == [] then 0
    else TotalLength(entries[..|entries| - 1]) + |entries[|entries| - 1].tokens|
  }

  function Idf(log1p: Log1p, n: nat, count: nat): real {
    var raw := log1p((n as real - count as real + 0.5) / (count as real + 0.5));
    if raw > 0.0 then raw else 0.0
  }

  /** The positions of the documents with a term. */
  ghost function Holding(docs: seq<Entry>, term: string): set<nat> {
    set i: nat | i < |docs| && term in docs[i].tokens
  }

  lemma {:induction false} DocFreqIsCount(docs: seq<Entry>, term: string)
    ensures DocFreq(docs, term) == |Holding(docs, term)|
    decreases |docs|
  {
    if docs != [] {
      var n := |docs| - 1;
      DocFreqIsCount(docs[..n], term);
      assert Holding(docs, term) == Holding(docs[..n], term) + if term in docs[n].tokens then {n} else {};
    } else {
      assert Holding(docs, term) == {};
    }
  }

  /** The odds that a document lacks the term, smoothed by one half. */
  ghost predicate IsOdds(docs: seq<Entry>, term: string, odds: real) {
    odds == (|docs| as real - |Holding(docs, term)| as real + 0.5) / (|Holding(docs, term)| as real + 0.5)
  }

  /** The idf of each term that occurs is ln(1 + odds), or 0 if that is negative. */
  ghost predicate IdfIsLogOdds(index: Index, log1p: Log1p, docs: seq<Entry>) {
    forall term, odds :: term in index.idf && IsOdds(docs, term, odds) ==>
      index.idf[term] == if log1p(odds) > 0.0 then log1p(odds) else 0.0
  }

  lemma IndexHasLogOdds(index: Index, log1p: Log1p, docs: seq<Entry>)
    requires IsIndexOf(index, log1p, docs)
    ensures IdfIsLogOdds(index, log1p, docs)
  {
    hide Holding;
    forall term, odds | term in index.idf && IsOdds(docs, term, odds)
      ensures index.idf[term] == if log1p(odds) > 0.0 then log1p(odds) else 0.0
    {
      DocFreqIsCount(docs, term);
    }
  }

  /** What an index of the documents holds. */
  ghost predicate IsIndexOf(index: Index, log1p: Log1p, docs: seq<Entry>) {
    && index.entries == docs
    && (forall term :: term in index.idf <==> DocFreq(docs, term) > 0)
    && (forall term :: term in index.idf ==> index.idf[term] == Idf(log1p, |docs|, DocFreq(docs, term)))
    && index.avgDocLen == if docs == [] then 0.0 else TotalLength(docs) as real / |docs| as real
  }

  function CountOf(df: map<string, nat>, term: string): nat {
    if term in df then df[term] else 0
  }

  ghost predicate AllCounted(df: map<string, nat>) {
    forall term :: term in df ==> df[term] > 0
  }

  /** Adds one to the count of each term of a document. */
  method CountTerms(df: map<string, nat>, terms: set<string>) returns (counted: map<string, nat>)
    requires AllCounted(df)
    ensures AllCounted(counted)
    ensures forall term :: CountOf(counted, term) == CountOf(df, term) + if term in terms then 1 else 0
  {
    counted := df;
    var todo := terms;
    while todo != {}
      invariant todo <= terms
      invariant AllCounted(counted)
      invariant forall term :: CountOf(counted, term) == CountOf(df, term) + if term in terms - todo then 1 else 0
    {
      var term :| term in todo;
      counted := counted[term := CountOf(counted, term) + 1];
      todo := todo - {term};
    }
  }

  function Terms(tokens: multiset<string>): set<string> {
    set term | term in tokens
  }

  method Build(log1p: Log1p, docs: seq<Entry>) returns (index: Index)
    ensures IsIndexOf(index, log1p, docs)
    ensures IdfIsLogOdds(index, log1p, docs)
  {
    hide Idf, IdfIsLogOdds;
    var total := 0;
    var df: map<string, nat> := map[];
    for i := 0 to |docs|
      invariant total == TotalLength(docs[..i])
      invariant forall term :: CountOf(df, term) == DocFreq(docs[..i], term)
      invariant AllCounted(df)
    {
      assert docs[..i + 1][..i] == docs[..i];
      total := total + |docs[i].tokens|;
      df := CountTerms(df, Terms(docs[i].tokens));
    }
    assert docs[..|docs|] == docs;
    assert forall term :: term in df ==> df[term] == CountOf(df, term);
    var average := if docs == [] then 0.0 else total as real / |docs| as real;
    index := Index(docs, map term | term in df :: Idf(log1p, |docs|, df[term]), average);
    IndexHasLogOdds(index, log1p, docs);
  }

  // ---------------------------------------------------------------------------
  // Scores
  // ---------------------------------------------------------------------------

  function TfNorm(tf: real, docLen: real, avgDocLen: real): (r: real)
    requires tf > 0.0 && docLen >= 0.0 && avgDocLen >= 1.0
    ensures 0.0 < r < K1 + 1.0
  {
    LengthPenalty(docLen, avgDocLen);
    var penalty := K1 * (1.0 - B + B * docLen / avgDocLen);
    Saturates(tf, penalty);
    tf * (K1 + 1.0) / (penalty + tf)
  }

  lemma LengthPenalty(docLen: real, avgDocLen: real)
    requires docLen >= 0.0 && avgDocLen >= 1.0
    ensures K1 * (1.0 - B + B * docLen / avgDocLen) > 0.0
  {
    assert B * docLen / avgDocLen >= 0.0;
  }

  lemma Saturates(tf: real, penalty: real)
    requires tf > 0.0 && penalty > 0.0
    ensures 0.0 < tf * (K1 + 1.0) / (penalty + tf) < K1 + 1.0
  {
    var d := penalty + tf;
    var q := tf * (K1 + 1.0) / d;
    assert q * d == tf * (K1 + 1.0);
    assert (q - (K1 + 1.0)) * d == -penalty * (K1 + 1.0) < 0.0;
  }

  function AverageLength(index: Index): (avg: real)
    ensures avg >= 1.0
  {
    if index.avgDocLen > 1.0 then index.avgDocLen else 1.0
  }

  /** The weight of a matching term: its idf times the floor plus the saturated frequency. */
  function Weight(idf: real, tf: nat, docLen: nat, avgDocLen: real): (r: real)
    requires tf > 0 && avgDocLen >= 1.0
    ensures idf > 0.0 ==> DELTA * idf < r < (DELTA + K1 + 1.0) * idf
  {
    var norm := TfNorm(tf as real, docLen as real, avgDocLen);
    if idf > 0.0 then
      Between(idf, norm);
      idf * (DELTA + norm)
    else idf * (DELTA + norm)
  }

  /** What one query term adds to a document's score. */
  function Contribution(index: Index, entry: Entry, term: string): real {
    if term in index.idf && term in entry.tokens
    then Weight(index.idf[term], entry.tokens[term], |entry.tokens|, AverageLength(index))
    else 0.0
  }

  ghost function ScoreOf(index: Index, entry: Entry, query: set<string>): real {
    if query == {} then 0.0
    else
      var term :| term in query;
      Contribution(index, entry, term) + ScoreOf(index, entry, query - {term})
  }

  /** A score may be accumulated in any order. */
  lemma {:induction false} ScoreInAnyOrder(index: Index, entry: Entry, query: set<string>, term: string)
    requires term in query
    ensures ScoreOf(index, entry, query)
      == Contribution(index, entry, term) + ScoreOf(index, entry, query - {term})
  {
    hide Contribution;
    var first :| first in query && ScoreOf(index, entry, query)
      == Contribution(index, entry, first) + ScoreOf(index, entry, query - {first});
    if first != term {
      ScoreInAnyOrder(index, entry, query - {first}, term);
      ScoreInAnyOrder(index, entry, query - {term}, first);
      assert query - {first} - {term} == query - {term} - {first};
    }
  }

  method Score(index: Index, entry: Entry, query: set<string>) returns (score: real)
    ensures score == ScoreOf(index, entry, query)
  {
    assert ScoreOf(index, entry, {}) == 0.0;
    hide Weight, AverageLength, ScoreOf;
    score := 0.0;
    var todo := query;
    while todo != {}
      invariant todo <= query
      invariant score + ScoreOf(index, entry, todo) == ScoreOf(index, entry, query)
    {
      var term :| term in todo;
      ScoreInAnyOrder(index, entry, todo, term);
      todo := todo - {term};
      if term in index.idf {
        var tf := entry.tokens[term];
        if tf != 0 {
          score := score + Weight(index.idf[term], tf, |entry.tokens|, AverageLength(index));
        }
      }
    }
  }

  /** The query terms a document contains. */
  ghost function Shared(entry: Entry, query: set<string>): set<string> {
    set term | term in query && term in entry.tokens
  }

  ghost function IdfSum(index: Index, terms: set<string>): real {
    if terms == {} then 0.0
    else
      var term :| term in terms;
      (if term in index.idf then index.idf[term] else 0.0) + IdfSum(index, terms - {term})
  }

  lemma IdfIsPositive(log1p: Log1p, n: nat, count: nat)
    requires IsPositive(log1p) && count <= n
    ensures Idf(log1p, n, count) > 0.0
  {
    assert (n as real - count as real + 0.5) / (count as real + 0.5) > 0.0;
  }

  lemma ContributionBounds(index: Index, log1p: Log1p, docs: seq<Entry>, entry: Entry, term: string)
    requires IsPositive(log1p) && IsIndexOf(index, log1p, docs) && entry in docs
    ensures term in entry.tokens ==> term in index.idf && index.idf[term] > 0.0
    ensures term in entry.tokens ==>
      DELTA * index.idf[term] < Contribution(index, entry, term) < (DELTA + K1 + 1.0) * index.idf[term]
    ensures term !in entry.tokens ==> Contribution(index, entry, term) == 0.0
  {
    hide IsPositive, Idf, Weight, AverageLength;
    if term in entry.tokens {
      var i :| 0 <= i < |docs| && docs[i] == entry;
      assert DocFreq(docs, term) > 0;
      IdfIsPositive(log1p, |docs|, DocFreq(docs, term));
    }
  }

  lemma Between(idf: real, norm: real)
    requires idf > 0.0 && 0.0 < norm < K1 + 1.0
    ensures DELTA * idf < idf * (DELTA + norm) < (DELTA + K1 + 1.0) * idf
  {
    assert idf * norm > 0.0;
    assert idf * (K1 + 1.0 - norm) > 0.0;
  }

  /**
   A document scores nothing without a shared term, and otherwise strictly between δ and δ + K1 + 1
   times the total idf of the shared terms.
   */
  lemma {:induction false} ScoreBounds(index: Index, log1p: Log1p, docs: seq<Entry>, entry: Entry, query: set<string>)
    requires IsPositive(log1p) && IsIndexOf(index, log1p, docs) && entry in docs
    ensures var score, total := ScoreOf(index, entry, query), IdfSum(index, Shared(entry, query));
      if Shared(entry, query) == {} then score == 0.0
      else total > 0.0 && DELTA * total < score < (DELTA + K1 + 1.0) * total
    decreases query
  {
    hide IsPositive, IsIndexOf, Contribution;
    var shared := Shared(entry, query);
    if shared == {} {
      NothingShared(index, log1p, docs, entry, query);
    } else {
      var term :| term in shared && IdfSum(index, shared)
        == (if term in index.idf then index.idf[term] else 0.0) + IdfSum(index, shared - {term});
      assert term in query;
      assert shared - {term} == Shared(entry, query - {term});
      ScoreInAnyOrder(index, entry, query, term);
      ContributionBounds(index, log1p, docs, entry, term);
      ScoreBounds(index, log1p, docs, entry, query - {term});
    }
  }

  lemma {:induction false} NothingShared(index: Index, log1p: Log1p, docs: seq<Entry>, entry: Entry, query: set<string>)
    requires IsPositive(log1p) && IsIndexOf(index, log1p, docs) && entry in docs
    requires Shared(entry, query) == {}
    ensures ScoreOf(index, entry, query) == 0.0
    decreases query
  {
    hide IsPositive, IsIndexOf, Contribution;
    if query != {} {
      var term :| term in query;
      assert term !in Shared(entry, query);
      ScoreInAnyOrder(index, entry, query, term);
      ContributionBounds(index, log1p, docs, entry, term);
      assert Shared(entry, query - {term}) == {} by {
        assert Shared(entry, query - {term}) <= Shared(entry, query);
      }
      NothingShared(index, log1p, docs, entry, query - {term});
    }
  }

  /** A document of the corpus is a candidate iff it shares a term with the query. */
  lemma PositiveIffSharesTerm(index: Index, log1p: Log1p, docs: seq<Entry>, entry: Entry, query: set<string>)
    requires IsPositive(log1p) && IsIndexOf(index, log1p, docs) && entry in docs
    ensures ScoreOf(index, entry, query) >= 0.0
    ensures ScoreOf(index, entry, query) > 0.0 <==> exists term :: term in query && term in entry.tokens
  {
    hide IsPositive, IsIndexOf, IdfSum, ScoreOf;
    ScoreBounds(index, log1p, docs, entry, query);
    var shared := Shared(entry, query);
    if shared != {} {
      var term :| term in shared;
      assert term in query && term in entry.tokens;
    }
    if term :| term in query && term in entry.tokens {
      assert term in shared;
    }
  }

  // ---------------------------------------------------------------------------
  // What ranks higher
  // ---------------------------------------------------------------------------

  lemma OddsFall(n: real, r: real, c: real)
    requires 0.0 <= r < c <= n
    ensures 0.0 < (n - c + 0.5) / (c + 0.5) < (n - r + 0.5) / (r + 0.5)
  {
    QuotientsCompare(0.0, 1.0, n - c + 0.5, c + 0.5);
    QuotientsCompare(n - c + 0.5, c + 0.5, n - r + 0.5, r + 0.5);
    ProductIsPositive(c - r, n + 1.0);
    assert (n - r + 0.5) * (c + 0.5) - (n - c + 0.5) * (r + 0.5) == (c - r) * (n + 1.0);
  }

  /** The rarer a term, the greater its odds and its idf. */
  lemma RarerTermsWeighMore(index: Index, log1p: Log1p, docs: seq<Entry>, rare: string, common: string)
    requires IsPositive(log1p) && IsIncreasing(log1p) && IsIndexOf(index, log1p, docs)
    requires rare in index.idf && common in index.idf
    requires |Holding(docs, rare)| < |Holding(docs, common)|
    ensures index.idf[rare] > index.idf[common] > 0.0
  {
    hide Holding, IsPositive, IsIncreasing;
    IndexHasLogOdds(index, log1p, docs);
    HoldingIsBounded(docs, common);
    LogOddsFall(log1p, |docs| as real, |Holding(docs, rare)| as real, |Holding(docs, common)| as real);
    hide IsIndexOf;
    var n, r, c := |docs| as real, |Holding(docs, rare)| as real, |Holding(docs, common)| as real;
    assert IsOdds(docs, rare, (n - r + 0.5) / (r + 0.5)) && IsOdds(docs, common, (n - c + 0.5) / (c + 0.5));
  }

  lemma LogOddsFall(log1p: Log1p, n: real, r: real, c: real)
    requires IsPositive(log1p) && IsIncreasing(log1p) && 0.0 <= r < c <= n
    ensures 0.0 < log1p((n - c + 0.5) / (c + 0.5)) < log1p((n - r + 0.5) / (r + 0.5))
  {
    OddsFall(n, r, c);
  }

  lemma HoldingIsBounded(docs: seq<Entry>, term: string)
    ensures |Holding(docs, term)| <= |docs|
  {
    DocFreqIsCount(docs, term);
  }

  /** The contribution of a shared term written out, with k1 = 1.5, b = 0.75 and δ = 1. */
  ghost predicate IsFormula(score: real, idf: real, tf: real, len: real, avg: real) {
    var floor := if avg > 1.0 then avg else 1.0;
    var penalty := 1.5 * (0.25 + 0.75 * len / floor);
    tf > 0.0 && penalty > 0.0 && score == idf * (1.0 + tf * 2.5 / (penalty + tf))
  }

  lemma ContributionIsFormula(index: Index, entry: Entry, term: string)
    requires term in index.idf && term in entry.tokens
    ensures IsFormula(Contribution(index, entry, term),
                      index.idf[term], entry.tokens[term] as real, |entry.tokens| as real, index.avgDocLen)
  {
    LengthPenalty(|entry.tokens| as real, AverageLength(index));
  }

  /** If a document shares one query term only, that term makes its score. */
  lemma OneSharedTerm(
    index: Index, log1p: Log1p, docs: seq<Entry>, entry: Entry, query: set<string>, term: string)
    requires IsPositive(log1p) && IsIndexOf(index, log1p, docs) && entry in docs
    requires Shared(entry, query) == {term}
    ensures term in query && ScoreOf(index, entry, query) == Contribution(index, entry, term)
  {
    hide IsPositive, IsIndexOf, Contribution, ScoreOf;
    assert term in Shared(entry, query);
    ScoreInAnyOrder(index, entry, query, term);
    assert Shared(entry, query - {term}) == Shared(entry, query) - {term};
    NothingShared(index, log1p, docs, entry, query - {term});
  }

  /** Of two documents of one length that match one term each, equally often, the rarer term wins. */
  lemma RarerMatchScoresHigher(
    index: Index, log1p: Log1p, docs: seq<Entry>, query: set<string>, d: Entry, e: Entry, rare: string, common: string)
    requires IsPositive(log1p) && IsIncreasing(log1p) && IsIndexOf(index, log1p, docs) && d in docs && e in docs
    requires Shared(d, query) == {rare} && Shared(e, query) == {common}
    requires |d.tokens| == |e.tokens| && d.tokens[rare] == e.tokens[common]
    requires |Holding(docs, rare)| < |Holding(docs, common)|
    ensures ScoreOf(index, d, query) > ScoreOf(index, e, query)
  {
    hide IsPositive, IsIncreasing, Weight, Holding, ScoreOf;
    OneSharedTerm(index, log1p, docs, d, query, rare);
    OneSharedTerm(index, log1p, docs, e, query, common);
    assert rare in Shared(d, query) && common in Shared(e, query);
    ContributionBounds(index, log1p, docs, d, rare);
    ContributionBounds(index, log1p, docs, e, common);
    hide IsIndexOf;
    RarerTermsWeighMore(index, log1p, docs, rare, common);
    WeightGrowsWithIdf(index.idf[common], index.idf[rare], d.tokens[rare], |d.tokens|, AverageLength(index));
  }

  lemma WeightGrowsWithIdf(low: real, high: real, tf: nat, docLen: nat, avg: real)
    requires 0.0 < low < high && tf > 0 && avg >= 1.0
    ensures Weight(low, tf, docLen, avg) < Weight(high, tf, docLen, avg)
  {
    hide TfNorm;
    var factor := DELTA + TfNorm(tf as real, docLen as real, avg);
    WeightIsProduct(low, tf, docLen, avg, factor);
    WeightIsProduct(high, tf, docLen, avg, factor);
    hide Weight;
    ProductIsPositive(high - low, factor);
    Subtracted(high, low, factor);
  }

  lemma WeightIsProduct(idf: real, tf: nat, docLen: nat, avg: real, factor: real)
    requires tf > 0 && avg >= 1.0 && factor == DELTA + TfNorm(tf as real, docLen as real, avg)
    ensures Weight(idf, tf, docLen, avg) == idf * factor
  {
    hide TfNorm;
  }

  lemma Subtracted(x: real, y: real, c: real)
    ensures (x - y) * c == x * c - y * c
  {
  }

  /** A term that occurs more often in a text as long weighs more, and less in a longer text. */
  lemma TfNormIsMonotone(tf: real, more: real, docLen: real, longer: real, avg: real)
    requires 0.0 < tf < more && 0.0 <= docLen < longer && avg >= 1.0
    ensures TfNorm(tf, docLen, avg) < TfNorm(more, docLen, avg)
    ensures TfNorm(tf, longer, avg) < TfNorm(tf, docLen, avg)
    ensures TfNorm(tf, avg, avg) == tf * 2.5 / (1.5 + tf)
  {
    LengthPenalty(docLen, avg);
    LengthPenalty(longer, avg);
    PenaltyGrows(docLen, longer, avg);
    var p, q := K1 * (1.0 - B + B * docLen / avg), K1 * (1.0 - B + B * longer / avg);
    SaturationGrows(tf, more, p);
    ShareFalls(tf, p, q);
  }

  lemma PenaltyGrows(docLen: real, longer: real, avg: real)
    requires docLen < longer && avg >= 1.0
    ensures K1 * (1.0 - B + B * docLen / avg) < K1 * (1.0 - B + B * longer / avg)
    ensures K1 * (1.0 - B + B * avg / avg) == K1
  {
    QuotientsCompare(B * docLen, avg, B * longer, avg);
    SignTimesPositive(B * longer - B * docLen, avg);
    QuotientIff(B * avg, avg, B);
  }

  lemma SaturationGrows(tf: real, more: real, penalty: real)
    requires 0.0 < tf < more && penalty > 0.0
    ensures tf * (K1 + 1.0) / (penalty + tf) < more * (K1 + 1.0) / (penalty + more)
  {
    var k := K1 + 1.0;
    QuotientsCompare(tf * k, penalty + tf, more * k, penalty + more);
    ProductIsPositive(more - tf, penalty);
    assert (more * k) * (penalty + tf) - (tf * k) * (penalty + more) == k * ((more - tf) * penalty);
  }

  lemma ShareFalls(tf: real, p: real, q: real)
    requires tf > 0.0 && 0.0 < p < q
    ensures tf * (K1 + 1.0) / (q + tf) < tf * (K1 + 1.0) / (p + tf)
  {
    var c := tf * (K1 + 1.0);
    QuotientsCompare(c, q + tf, c, p + tf);
    ProductIsPositive(c, q - p);
    assert c * (q + tf) - c * (p + tf) == c * (q - p);
  }

  // ---------------------------------------------------------------------------
  // Queries
  // ---------------------------------------------------------------------------

  /** All documents with a positive score, in corpus order. */
  ghost function Hits(index: Index, entries: seq<Entry>, query: set<string>): seq<Scored<string>> {
    if entries == [] then []
    else
      var last := entries[|entries| - 1];
      var score := ScoreOf(index, last, query);
      Hits(index, entries[..|entries| - 1], query) + if score > 0.0 then [Scored(last.id, score)] else []
  }

  method Query(index: Index, query: set<string>, topK: nat) returns (candidates: seq<Scored<string>>)
    ensures candidates == TopK(Hits(index, index.entries, query), topK)
  {
    hide StableSortDesc, ScoreOf;
    if index.entries == [] || topK == 0 {
      EmptyTopK(topK);
      return [];
    }
    if query == {} {
      NoQueryNoHits(index, index.entries);
      EmptyTopK(topK);
      return [];
    }
    var scores := [];
    for i := 0 to |index.entries|
      invariant scores == Hits(index, index.entries[..i], query)
    {
      assert index.entries[..i + 1][..i] == index.entries[..i];
      var score := Score(index, index.entries[i], query);
      if score > 0.0 {
        scores := scores + [Scored(index.entries[i].id, score)];
      }
    }
    assert index.entries[..|index.entries|] == index.entries;
    return TopK(scores, topK);
  }

  lemma EmptyTopK(k: nat)
    ensures TopK<string>([], k) == []
  {
  }

  lemma {:induction false} NoQueryNoHits(index: Index, entries: seq<Entry>)
    ensures Hits(index, entries, {}) == []
    decreases |entries|
  {
    if entries != [] {
      NoQueryNoHits(index, entries[..|entries| - 1]);
    }
  }

  ghost predicate Matches(entries: seq<Entry>, i: nat, query: set<string>) {
    i < |entries| && exists term :: term in query && term in entries[i].tokens
  }

  /** The hits are, in corpus order and each once, exactly the documents that share a query term, with their scores. */
  lemma {:induction false} HitsShareATerm(
    index: Index, log1p: Log1p, docs: seq<Entry>, entries: seq<Entry>, query: set<string>)
      returns (positions: seq<nat>)
    requires IsPositive(log1p) && IsIndexOf(index, log1p, docs) && entries <= docs
    ensures Increasing(positions)
    ensures forall i: nat :: i in positions <==> Matches(entries, i, query)
    ensures var hits := Hits(index, entries, query);
      && |hits| == |positions|
      && forall j :: 0 <= j < |hits| ==>
        && positions[j] < |entries|
        && hits[j] == Scored(entries[positions[j]].id, ScoreOf(index, entries[positions[j]], query))
    decreases |entries|
  {
    hide IsPositive, IsIndexOf, ScoreOf;
    positions := [];
    if entries != [] {
      var n := |entries| - 1;
      positions := HitsShareATerm(index, log1p, docs, entries[..n], query);
      assert entries[n] in docs;
      PositiveIffSharesTerm(index, log1p, docs, entries[n], query);
      assert Matches(entries, n, query) <==> ScoreOf(index, entries[n], query) > 0.0;
      assert forall i: nat :: i < n ==>
        entries[..n][i] == entries[i] && (Matches(entries[..n], i, query) <==> Matches(entries, i, query));
      assert forall j :: 0 <= j < |positions| ==> positions[j] in positions;
      if ScoreOf(index, entries[n], query) > 0.0 {
        positions := positions + [n];
      }
    }
  }

  /** The answer is sorted, has at most k hits, and nothing left out outscores anything returned. */
  lemma AnswerIsBest(index: Index, query: set<string>, topK: nat)
    ensures var hits := Hits(index, index.entries, query);
      var answer := TopK(hits, topK);
      && |answer| == (if |hits| <= topK then |hits| else topK)
      && SortedDesc(answer) && multiset(answer) <= multiset(hits)
      && forall kept, omitted :: kept in answer && omitted in multiset(hits) - multiset(answer) ==>
        omitted.score <= kept.score
  {
    hide Hits, TopK;
    TopKKeepsTheBest(Hits(index, index.entries, query), topK);
  }
}
