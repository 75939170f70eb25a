/** Shortening a context to a token budget: head and tail stay, the middle goes, keywords survive. */
module Compaction {
  import opened Arithmetic
  import opened Collections
  import opened Text

  // ---------------------------------------------------------------------------
  // Sizes
  // ---------------------------------------------------------------------------

  /** The UTF-8 length of a character. */
  function Width(c: char): (n: nat)
    ensures 1 <= n <= 4
  {
    if c as int < 0x80 then 1 else if c as int < 0x800 then 2 else if c as int < 0x1_0000 then 3 else 4
  }

  /** The code points that n bytes can carry: 7 bits in one byte, 5n + 1 in more. */
  function Capacity(n: nat): int {
    if n == 0 then 0 else if n == 1 then Pow(2, 7) else Pow(2, 5 * n + 1)
  }

  /** A character takes the fewest bytes that can carry it. */
  lemma WidthIsLeast(c: char)
    ensures Capacity(Width(c) - 1) <= c as int < Capacity(Width(c))
  {
    PowersOfTwo();
    hide Pow;
  }

  lemma PowersOfTwo()
    ensures Pow(2, 7) == 0x80 && Pow(2, 11) == 0x800 && Pow(2, 16) == 0x1_0000 && Pow(2, 21) == 0x20_0000
  {
    assert Pow(2, 10) == 1024;
    assert Pow(2, 16) == 64 * Pow(2, 10);
    assert Pow(2, 21) == 32 * Pow(2, 16);
  }

  function Bytes(s: string): nat {
    if s == [] then 0 else Bytes(s[..|s| - 1]) + Width(s[|s| - 1])
  }

  predicate IsAscii(s: string) {
    forall i :: 0 <= i < |s| ==> Width(s[i]) == 1
  }

  function EstimateTokens(s: string): nat {
    (Bytes(s) + 3) / 4
  }

  lemma {:induction false} BytesOfConcat(s: string, t: string)
    ensures Bytes(s + t) == Bytes(s) + Bytes(t)
    decreases |t|
  {
    if t == [] {
      assert s + t == s;
    } else {
      assert (s + t)[..|s + t| - 1] == s + t[..|t| - 1];
      BytesOfConcat(s, t[..|t| - 1]);
    }
  }

  lemma {:induction false} BytesOfAscii(s: string)
    ensures |s| <= Bytes(s) <= 4 * |s|
    ensures IsAscii(s) <==> Bytes(s) == |s|
    decreases |s|
  {
    if s != [] {
      var n := |s| - 1;
      BytesOfAscii(s[..n]);
      assert IsAscii(s) <==> IsAscii(s[..n]) && Width(s[n]) == 1;
    }
  }

  // ---------------------------------------------------------------------------
  // Keywords
  // ---------------------------------------------------------------------------

  function Join(parts: seq<string>): string {
    if parts == [] then []
    else if |parts| == 1 then parts[0]
    else Join(parts[..|parts| - 1]) + " " + parts[|parts| - 1]
  }

  /** The distinct keywords that do not occur in the text, in order. */
  function Missing(text: string, keywords: seq<string>): seq<string> {
    if keywords == [] then []
    else
      var n := |keywords| - 1;
      var before := Missing(text, keywords[..n]);
      if keywords[n] !in keywords[..n] && !Contains(text, keywords[n]) then before + [keywords[n]] else before
  }

  function KeywordSuffix(text: string, keywords: seq<string>): string {
    Join(Missing(text, keywords))
  }

  lemma {:induction false} MissingIsExact(text: string, keywords: seq<string>)
    ensures forall kw :: kw in Missing(text, keywords) <==> kw in keywords && !Contains(text, kw)
    decreases |keywords|
  {
    if keywords != [] {
      var n := |keywords| - 1;
      MissingIsExact(text, keywords[..n]);
      hide Contains;
      assert forall kw :: kw in keywords <==> kw in keywords[..n] || kw == keywords[n];
    }
  }

  predicate IsFirst(keywords: seq<string>, p: nat, kw: string) {
    p < |keywords| && keywords[p] == kw && forall q :: 0 <= q < p ==> keywords[q] != kw
  }

  /** The first occurrence of x is before that of y. */
  ghost predicate InOrder(keywords: seq<string>, x: string, y: string) {
    forall p: nat, q: nat :: IsFirst(keywords, p, x) && IsFirst(keywords, q, y) ==> p < q
  }

  /** Each missing keyword appears once, in the order of first occurrence. */
  lemma {:induction false} MissingKeepsOrder(text: string, keywords: seq<string>)
    ensures var missing := Missing(text, keywords);
      && Distinct(missing)
      && forall i, j :: 0 <= i < j < |missing| ==> InOrder(keywords, missing[i], missing[j])
    decreases |keywords|
  {
    MissingIsExact(text, keywords);
    if keywords != [] {
      var n := |keywords| - 1;
      var front, before, missing := keywords[..n], Missing(text, keywords[..n]), Missing(text, keywords);
      MissingKeepsOrder(text, front);
      MissingIsExact(text, front);
      hide Missing, Contains;
      forall p: nat, kw | kw in front && IsFirst(keywords, p, kw)
        ensures IsFirst(front, p, kw)
      {
        var r :| 0 <= r < n && front[r] == kw;
        assert keywords[r] == kw;
      }
      assert forall i :: 0 <= i < |before| ==> before[i] in front;
    }
  }

  lemma ContainsInside(before: string, text: string, after: string, part: string)
    requires Contains(text, part)
    ensures Contains(before + text + after, part)
  {
    var i: nat :| i <= |text| && OccursAt(text, part, i);
    var whole := before + text + after;
    assert whole[|before| + i..|before| + i + |part|] == text[i..i + |part|];
    assert OccursAt(whole, part, |before| + i);
  }

  lemma ContainsItself(text: string)
    ensures Contains(text, text) && Contains(text, [])
  {
    assert OccursAt(text, text, 0) && OccursAt(text, [], 0);
  }

  lemma {:induction false} JoinContains(parts: seq<string>, part: string)
    requires part in parts
    ensures Contains(Join(parts), part)
    decreases |parts|
  {
    hide Contains;
    var n := |parts| - 1;
    if part == parts[n] {
      ContainsItself(part);
      if n > 0 {
        ContainsInside(Join(parts[..n]) + " ", part, [], part);
        assert Join(parts) == Join(parts[..n]) + " " + part + [];
      }
    } else {
      JoinContains(parts[..n], part);
      ContainsInside([], Join(parts[..n]), " " + parts[n], part);
      assert Join(parts) == [] + Join(parts[..n]) + (" " + parts[n]);
    }
  }

  /** Where part i starts: behind the parts before it and as many blanks. */
  function StartOf(parts: seq<string>, i: nat): nat
    requires i <= |parts|
  {
    if i == 0 then 0 else StartOf(parts, i - 1) + |parts[i - 1]| + 1
  }

  /** The joined text is the parts in order, one blank between neighbours, and nothing else. */
  lemma {:induction false} JoinHasPartsInOrder(parts: seq<string>, i: nat)
    requires i < |parts|
    ensures |Join(parts)| + 1 == StartOf(parts, |parts|)
    ensures OccursAt(Join(parts), parts[i], StartOf(parts, i))
    ensures i > 0 ==> 0 < StartOf(parts, i) <= |Join(parts)| && Join(parts)[StartOf(parts, i) - 1] == ' '
    decreases |parts|
  {
    hide Join, StartOf, OccursAt;
    var n := |parts| - 1;
    if n == 0 {
      SinglePart(parts);
    } else {
      JoinHasPartsInOrder(parts[..n], if i < n then i else 0);
      StartsAgree(parts, n, i);
      StartsAgree(parts, n, n);
      JoinSplits(parts, n);
      JoinedAt(Join(parts[..n]), parts[n]);
      if i < n {
        StillOccurs(Join(parts[..n]), " " + parts[n], parts[i], StartOf(parts, i));
      }
    }
  }

  lemma SinglePart(parts: seq<string>)
    requires |parts| == 1
    ensures |Join(parts)| + 1 == StartOf(parts, 1) && OccursAt(Join(parts), parts[0], StartOf(parts, 0))
  {
    assert StartOf(parts, 0) == 0;
  }

  lemma JoinSplits(parts: seq<string>, n: nat)
    requires 0 < n == |parts| - 1
    ensures Join(parts) == Join(parts[..n]) + " " + parts[n] == Join(parts[..n]) + (" " + parts[n])
  {
  }

  lemma {:induction false} StartsAgree(parts: seq<string>, n: nat, i: nat)
    requires n <= |parts| && i <= |parts|
    ensures i <= n ==> StartOf(parts[..n], i) == StartOf(parts, i)
    ensures n + 1 == |parts| ==> StartOf(parts, |parts|) == StartOf(parts, n) + |parts[n]| + 1
  {
    if 0 < i <= n {
      StartsAgree(parts, n, i - 1);
    }
  }

  lemma JoinedAt(before: string, part: string)
    ensures var joined := before + " " + part;
      |joined| == |before| + 1 + |part| && joined[|before|] == ' ' && OccursAt(joined, part, |before| + 1)
  {
  }

  lemma StillOccurs(text: string, after: string, part: string, i: nat)
    requires OccursAt(text, part, i)
    ensures OccursAt(text + after, part, i)
  {
    assert (text + after)[i..i + |part|] == text[i..i + |part|];
  }

  /** Each part with one separator. */
  function JoinSize(parts: seq<string>): nat {
    if parts == [] then 0 else JoinSize(parts[..|parts| - 1]) + Bytes(parts[|parts| - 1]) + 1
  }

  lemma {:induction false} JoinSizeIsBytes(parts: seq<string>)
    ensures JoinSize(parts) == if parts == [] then 0 else Bytes(Join(parts)) + 1
    decreases |parts|
  {
    if parts != [] {
      var n := |parts| - 1;
      JoinSizeIsBytes(parts[..n]);
      if n > 0 {
        BytesOfConcat(Join(parts[..n]) + " ", parts[n]);
        BytesOfConcat(Join(parts[..n]), " ");
        assert Bytes(" ") == 1;
      }
    }
  }

  lemma {:induction false} MissingIsSmaller(text: string, keywords: seq<string>)
    ensures JoinSize(Missing(text, keywords)) <= JoinSize(keywords)
    ensures Missing(text, keywords) == [] || JoinSize(Missing(text, keywords)) >= 2
    decreases |keywords|
  {
    if keywords != [] {
      var n := |keywords| - 1;
      var before := Missing(text, keywords[..n]);
      MissingIsSmaller(text, keywords[..n]);
      if Missing(text, keywords) != before {
        assert Missing(text, keywords)[..|before|] == before;
        ContainsItself(text);
        BytesOfAscii(keywords[n]);
      }
    }
  }

  /** A suffix of missing keywords is no longer than all keywords, and empty only if none is missing. */
  lemma SuffixSize(text: string, keywords: seq<string>)
    ensures Bytes(KeywordSuffix(text, keywords)) <= Bytes(Join(keywords))
    ensures KeywordSuffix(text, keywords) == [] <==> Missing(text, keywords) == []
  {
    hide Missing;
    var missing := Missing(text, keywords);
    MissingIsSmaller(text, keywords);
    JoinSizeIsBytes(missing);
    JoinSizeIsBytes(keywords);
  }

  /** With its missing keywords appended a text contains every keyword. */
  lemma SuffixCompletes(text: string, keywords: seq<string>, kw: string)
    requires kw in keywords
    ensures Contains(WithSuffix(text, KeywordSuffix(text, keywords)), kw)
  {
    hide Contains, Missing, Join;
    MissingIsExact(text, keywords);
    SuffixSize(text, keywords);
    var suffix := KeywordSuffix(text, keywords);
    if Contains(text, kw) {
      ContainsInside([], text, "\n" + suffix, kw);
      assert text + "\n" + suffix == [] + text + ("\n" + suffix);
    } else {
      JoinContains(Missing(text, keywords), kw);
      ContainsInside(text + "\n", suffix, [], kw);
      assert text + "\n" + suffix == text + "\n" + suffix + [];
    }
  }

  // ---------------------------------------------------------------------------
  // Compaction
  // ---------------------------------------------------------------------------

  const MARKER := "\n[...compacted...]\n"

  function SaturatingSub(a: nat, b: nat): nat {
    if a < b then 0 else a - b
  }

  function WithSuffix(body: string, suffix: string): string {
    if suffix == [] then body else body + "\n" + suffix
  }

  /** What appending a suffix on its own line is charged. */
  function SuffixCost(suffix: string): nat {
    if suffix == [] then 0 else EstimateTokens(suffix) + 1
  }

  /** Nothing has to be dropped. */
  predicate Fits(context: string, maxTokens: nat, keywords: seq<string>) {
    EstimateTokens(context) + SuffixCost(KeywordSuffix(context, keywords)) <= maxTokens
  }

  /** The tokens left for the body once all keywords and the marker are paid for. */
  function BodyBudget(maxTokens: nat, keywords: seq<string>): nat {
    SaturatingSub(SaturatingSub(maxTokens, SuffixCost(Join(keywords))), EstimateTokens(MARKER))
  }

  function Body(context: string, half: nat): string {
    var headEnd := if half < |context| then half else |context|;
    var tailStart := SaturatingSub(|context|, half);
    if tailStart > headEnd then context[..headEnd] + MARKER + context[tailStart..] else context[..headEnd]
  }

  function Compact(context: string, maxTokens: nat, keywords: seq<string>): string {
    if Fits(context, maxTokens, keywords) then WithSuffix(context, KeywordSuffix(context, keywords))
    else
      var charBudget := BodyBudget(maxTokens, keywords) * 4;
      if charBudget == 0 then Join(keywords)
      else
        var body := Body(context, charBudget / 2);
        WithSuffix(body, KeywordSuffix(body, keywords))
  }

  // ---------------------------------------------------------------------------
  // What compaction guarantees
  // ---------------------------------------------------------------------------

  /** Every keyword occurs in the result, whatever was dropped. */
  lemma KeywordsSurvive(context: string, maxTokens: nat, keywords: seq<string>, kw: string)
    requires kw in keywords
    ensures Contains(Compact(context, maxTokens, keywords), kw)
  {
    hide Contains, KeywordSuffix, Fits, BodyBudget, Body, Join, WithSuffix;
    JoinContains(keywords, kw);
    SuffixCompletes(context, keywords, kw);
    SuffixCompletes(Body(context, BodyBudget(maxTokens, keywords) * 4 / 2), keywords, kw);
  }

  lemma MarkerSize()
    ensures |MARKER| == Bytes(MARKER) == 19 && EstimateTokens(MARKER) == 5
  {
    BytesOfAscii(MARKER);
    assert IsAscii(MARKER);
  }

  lemma BytesWithSuffix(body: string, suffix: string)
    ensures Bytes(WithSuffix(body, suffix)) == if suffix == [] then Bytes(body) else Bytes(body) + 1 + Bytes(suffix)
  {
    BytesOfConcat(body + "\n", suffix);
    BytesOfConcat(body, "\n");
    BytesOfAscii("\n");
  }

  /** The missing keywords of a text follow it on their own line, if there are any. */
  ghost predicate Completes(result: string, text: string, keywords: seq<string>) {
    var missing := Missing(text, keywords);
    result == if missing == [] then text else text + "\n" + Join(missing)
  }

  lemma SuffixIsMissing(text: string, keywords: seq<string>)
    ensures Completes(WithSuffix(text, KeywordSuffix(text, keywords)), text, keywords)
  {
    SuffixSize(text, keywords);
    hide Missing, Join;
  }

  /** Under budget the text is returned whole, and stays under budget with its suffix. */
  lemma FittingStaysInBudget(context: string, maxTokens: nat, keywords: seq<string>)
    requires Fits(context, maxTokens, keywords)
    ensures context <= Compact(context, maxTokens, keywords)
    ensures Completes(Compact(context, maxTokens, keywords), context, keywords)
    ensures EstimateTokens(Compact(context, maxTokens, keywords)) <= maxTokens
  {
    hide KeywordSuffix, Bytes, Completes;
    SuffixIsMissing(context, keywords);
    BytesWithSuffix(context, KeywordSuffix(context, keywords));
  }

  /**
   A text without missing keywords fits iff it has at most four bytes a token; otherwise text and
   keywords must fit into two parts of the budget with one token left for the line break.
   */
  lemma FitsIffBytes(context: string, maxTokens: nat, keywords: seq<string>)
    ensures var missing := Missing(context, keywords);
      && (missing == [] ==> (Fits(context, maxTokens, keywords) <==> Bytes(context) <= 4 * maxTokens))
      && (missing != [] ==> (Fits(context, maxTokens, keywords) <==>
        exists t: nat :: t < maxTokens && WithinTokens(context, t) && WithinTokens(Join(missing), maxTokens - t - 1)))
  {
    SuffixSize(context, keywords);
    hide Missing, Join, Bytes;
    var missing := Missing(context, keywords);
    MeetsIffBytes(context, maxTokens);
    if missing != [] && Fits(context, maxTokens, keywords) {
      assert WithinTokens(context, EstimateTokens(context));
    }
  }

  /** At most four bytes a token. */
  predicate WithinTokens(s: string, tokens: nat) {
    Bytes(s) <= 4 * tokens
  }

  /** A text of at most four bytes a token that has all keywords is returned unchanged. */
  lemma ShortTextIsUnchanged(context: string, maxTokens: nat, keywords: seq<string>)
    requires Bytes(context) <= 4 * maxTokens && forall kw :: kw in keywords ==> Contains(context, kw)
    ensures Compact(context, maxTokens, keywords) == context
  {
    hide Bytes, Contains, Fits, Compact;
    MissingIsExact(context, keywords);
    NothingIn(Missing(context, keywords));
    FitsIffBytes(context, maxTokens, keywords);
    FittingStaysInBudget(context, maxTokens, keywords);
  }

  /**
   The body budget is what is left after five tokens for the marker and, if there are keywords, one
   for their line and a quarter of their bytes.
   */
  lemma BodyBudgetIsTheRest(maxTokens: nat, keywords: seq<string>, t: nat)
    requires t > 0
    ensures t <= BodyBudget(maxTokens, keywords) <==>
      if Join(keywords) == [] then t + 5 <= maxTokens
      else t + 6 <= maxTokens && WithinTokens(Join(keywords), maxTokens - t - 6)
  {
    MarkerSize();
    hide Join, Bytes;
  }

  /** Whether the middle is cut out and marked. */
  predicate CutsMiddle(context: string, maxTokens: nat, keywords: seq<string>) {
    |context| > 4 * BodyBudget(maxTokens, keywords)
  }

  lemma BodyShape(context: string, budget: nat)
    ensures var n, body := 2 * budget, Body(context, 2 * budget);
      && (|context| > 2 * n ==> body == context[..n] + MARKER + context[|context| - n..])
      && (|context| <= 2 * n ==> body == context[..if n < |context| then n else |context|])
  {
  }

  /** What is left of a text that does not fit, if there is room for a body: that body and its missing keywords. */
  lemma CompactsToBody(context: string, maxTokens: nat, keywords: seq<string>)
    requires !Fits(context, maxTokens, keywords) && BodyBudget(maxTokens, keywords) > 0
    ensures Completes(Compact(context, maxTokens, keywords),
                      Body(context, 2 * BodyBudget(maxTokens, keywords)), keywords)
  {
    hide KeywordSuffix, Fits, BodyBudget, WithSuffix, Completes, Body;
    SuffixIsMissing(Body(context, 2 * BodyBudget(maxTokens, keywords)), keywords);
  }

  /**
   A truncated text is prefix, marker and suffix of the context, which do not overlap, exactly
   when it has more characters than the body budget allows for ASCII.
   */
  lemma TruncationIsMarkedIffCut(context: string, maxTokens: nat, keywords: seq<string>)
    requires !Fits(context, maxTokens, keywords) && BodyBudget(maxTokens, keywords) > 0
    ensures var n := 2 * BodyBudget(maxTokens, keywords);
      var body := Body(context, n);
      && Completes(Compact(context, maxTokens, keywords), body, keywords)
      && (CutsMiddle(context, maxTokens, keywords) <==>
        2 * n < |context| && body == context[..n] + MARKER + context[|context| - n..])
      && (!CutsMiddle(context, maxTokens, keywords) ==> body == context[..if n < |context| then n else |context|])
  {
    hide Fits, BodyBudget, Completes, Body, Compact;
    CompactsToBody(context, maxTokens, keywords);
    BodyShape(context, BodyBudget(maxTokens, keywords));
  }

  /** For ASCII the head-only branch is unreachable: what is truncated is cut and marked. */
  lemma AsciiIsAlwaysMarked(context: string, maxTokens: nat, keywords: seq<string>)
    requires IsAscii(context) && !Fits(context, maxTokens, keywords) && BodyBudget(maxTokens, keywords) > 0
    ensures CutsMiddle(context, maxTokens, keywords)
  {
    hide KeywordSuffix, Bytes, IsAscii;
    BytesOfAscii(context);
    SuffixSize(context, keywords);
    MarkerSize();
    EmptyOnlyIfMissingNone(context, keywords);
  }

  lemma EmptyOnlyIfMissingNone(text: string, keywords: seq<string>)
    ensures Join(keywords) == [] ==> KeywordSuffix(text, keywords) == []
  {
    hide Missing, Join;
    SuffixSize(text, keywords);
    BytesOfAscii(KeywordSuffix(text, keywords));
  }

  /** The bytes of the context that survive a cut. */
  function KeptBytes(context: string, half: nat): nat
    requires 2 * half < |context|
  {
    Bytes(context[..half]) + Bytes(context[|context| - half..])
  }

  lemma BytesOfCut(context: string, half: nat)
    requires 2 * half < |context|
    ensures Bytes(Body(context, half)) == KeptBytes(context, half) + 19
    ensures 2 * half <= KeptBytes(context, half) <= 8 * half
    ensures IsAscii(context) ==> KeptBytes(context, half) == 2 * half
  {
    var head, tail := context[..half], context[|context| - half..];
    BytesOfConcat(head + MARKER, tail);
    BytesOfConcat(head, MARKER);
    MarkerSize();
    BytesOfAscii(head);
    BytesOfAscii(tail);
  }

  /**
   A cut text meets the token budget if it keeps one byte per character, and never exceeds it
   by more than three times the body budget. Without keywords one spare byte is the exact limit.
   */
  lemma CutBound(context: string, maxTokens: nat, keywords: seq<string>)
    requires !Fits(context, maxTokens, keywords) && BodyBudget(maxTokens, keywords) > 0
    requires CutsMiddle(context, maxTokens, keywords)
    ensures var budget := BodyBudget(maxTokens, keywords);
      var tokens := EstimateTokens(Compact(context, maxTokens, keywords));
      && (KeptBytes(context, 2 * budget) <= 4 * budget ==> tokens <= maxTokens)
      && tokens <= maxTokens + 3 * budget
      && (keywords == [] ==> (tokens <= maxTokens <==> KeptBytes(context, 2 * budget) <= 4 * budget + 1))
  {
    hide KeywordSuffix, Bytes, Fits, KeptBytes, Missing, Join;
    var budget := BodyBudget(maxTokens, keywords);
    var body := Body(context, 2 * budget);
    BytesOfCut(context, 2 * budget);
    BytesWithSuffix(body, KeywordSuffix(body, keywords));
    SuffixSize(body, keywords);
    EmptyOnlyIfMissingNone(body, keywords);
    MarkerSize();
    NoKeywordsNoSuffix(body);
    hide Body;
  }

  lemma NoKeywordsNoSuffix(text: string)
    ensures KeywordSuffix(text, []) == [] && Join([]) == []
  {
  }

  /** For ASCII contexts the budget is kept whenever the text fits or anything of it can be kept. */
  lemma AsciiStaysInBudget(context: string, maxTokens: nat, keywords: seq<string>)
    requires IsAscii(context)
    requires Fits(context, maxTokens, keywords) || BodyBudget(maxTokens, keywords) > 0
    ensures EstimateTokens(Compact(context, maxTokens, keywords)) <= maxTokens
  {
    hide Compact, Fits, BodyBudget, EstimateTokens, IsAscii, KeptBytes;
    if Fits(context, maxTokens, keywords) {
      FittingStaysInBudget(context, maxTokens, keywords);
    } else {
      AsciiIsAlwaysMarked(context, maxTokens, keywords);
      BytesOfCut(context, 2 * BodyBudget(maxTokens, keywords));
      CutBound(context, maxTokens, keywords);
    }
  }

  /**
   Without room for a body nothing of the context is left: every text that does not fit gives the
   same result, which misses no keyword and leaves at most six tokens of the budget unused. It
   exceeds the budget exactly when the keywords alone do.
   */
  lemma NoBudgetIsFilledByKeywords(context: string, other: string, maxTokens: nat, keywords: seq<string>)
    requires !Fits(context, maxTokens, keywords) && !Fits(other, maxTokens, keywords)
    requires BodyBudget(maxTokens, keywords) == 0
    ensures Compact(context, maxTokens, keywords) == Compact(other, maxTokens, keywords) == Join(keywords)
    ensures EstimateTokens(Compact(context, maxTokens, keywords)) + 6 >= maxTokens
    ensures EstimateTokens(Compact(context, maxTokens, keywords)) <= maxTokens <==>
      Bytes(Join(keywords)) <= 4 * maxTokens
    ensures Missing(Compact(context, maxTokens, keywords), keywords) == []
  {
    MarkerSize();
    MissingIsExact(Compact(context, maxTokens, keywords), keywords);
    hide Bytes, Fits, Missing, Contains, Join;
    forall kw | kw in keywords
      ensures Contains(Compact(context, maxTokens, keywords), kw)
    {
      KeywordsSurvive(context, maxTokens, keywords, kw);
    }
    NothingIn(Missing(Compact(context, maxTokens, keywords), keywords));
  }

  lemma NothingIn(s: seq<string>)
    requires forall kw :: kw !in s
    ensures s == []
  {
    FirstIn(s);
  }

  lemma FirstIn(s: seq<string>)
    ensures s == [] || s[0] in s
  {
  }

  /** What a suffix on its own line adds. */
  function SuffixBytes(suffix: string): nat {
    if suffix == [] then 0 else 1 + Bytes(suffix)
  }

  function Head(context: string, half: nat): string {
    if half < |context| then context[..half] else context
  }

  lemma BodyIsHead(context: string, budget: nat)
    requires |context| <= 4 * budget
    ensures Body(context, 2 * budget) == Head(context, 2 * budget)
  {
  }

  lemma MeetsIffBytes(s: string, maxTokens: nat)
    ensures EstimateTokens(s) <= maxTokens <==> Bytes(s) <= 4 * maxTokens
  {
    hide Bytes;
  }

  /** What the result costs in bytes, on every path that drops something. */
  function OutputBytes(context: string, maxTokens: nat, keywords: seq<string>): nat {
    var budget := BodyBudget(maxTokens, keywords);
    if budget == 0 then Bytes(Join(keywords))
    else
      var suffix := SuffixBytes(KeywordSuffix(Body(context, 2 * budget), keywords));
      if CutsMiddle(context, maxTokens, keywords)
      then KeptBytes(context, 2 * budget) + 19 + suffix
      else Bytes(Head(context, 2 * budget)) + suffix
  }

  /** The budget is met exactly when the text fits or the bytes of its path are within four a token. */
  lemma BudgetIsMetIff(context: string, maxTokens: nat, keywords: seq<string>)
    ensures EstimateTokens(Compact(context, maxTokens, keywords)) <= maxTokens <==>
      Fits(context, maxTokens, keywords) || OutputBytes(context, maxTokens, keywords) <= 4 * maxTokens
  {
    hide Fits, BodyBudget, KeywordSuffix, Bytes, KeptBytes, Join, Body, Head, EstimateTokens;
    var budget, result := BodyBudget(maxTokens, keywords), Compact(context, maxTokens, keywords);
    MeetsIffBytes(result, maxTokens);
    if Fits(context, maxTokens, keywords) {
      FittingStaysInBudget(context, maxTokens, keywords);
    } else if budget > 0 {
      var body := Body(context, 2 * budget);
      BytesWithSuffix(body, KeywordSuffix(body, keywords));
      if CutsMiddle(context, maxTokens, keywords) {
        BytesOfCut(context, 2 * budget);
      } else {
        BodyIsHead(context, budget);
      }
    }
  }

  /**
   A text of which only the head is left exceeds the token budget by at most five less than the body
   budget. Without keywords twenty spare bytes are the exact limit.
   */
  lemma HeadBound(context: string, maxTokens: nat, keywords: seq<string>)
    requires !Fits(context, maxTokens, keywords) && BodyBudget(maxTokens, keywords) > 0
    requires !CutsMiddle(context, maxTokens, keywords)
    ensures var budget := BodyBudget(maxTokens, keywords);
      var head := Head(context, 2 * budget);
      var tokens := EstimateTokens(Compact(context, maxTokens, keywords));
      && Completes(Compact(context, maxTokens, keywords), head, keywords)
      && tokens + 5 <= maxTokens + budget
      && (keywords == [] ==> Compact(context, maxTokens, keywords) == head)
      && (keywords == [] ==> (tokens <= maxTokens <==> Bytes(head) <= 4 * budget + 20))
  {
    hide KeywordSuffix, Bytes, Fits, Missing, Join, Head, Completes;
    var budget := BodyBudget(maxTokens, keywords);
    var head := Head(context, 2 * budget);
    BodyIsHead(context, budget);
    HeadIsShort(context, 2 * budget);
    SuffixIsMissing(head, keywords);
    BytesWithSuffix(head, KeywordSuffix(head, keywords));
    SuffixSize(head, keywords);
    EmptyOnlyIfMissingNone(head, keywords);
    MarkerSize();
    NoKeywordsNoSuffix(head);
    hide Body;
  }

  lemma HeadIsShort(context: string, half: nat)
    ensures |Head(context, half)| <= half && Bytes(Head(context, half)) <= 4 * half
  {
    BytesOfAscii(Head(context, half));
  }

  /** With room for a body the overrun is at most three times that room, on every path. */
  lemma OverrunBound(context: string, maxTokens: nat, keywords: seq<string>)
    requires BodyBudget(maxTokens, keywords) > 0
    ensures EstimateTokens(Compact(context, maxTokens, keywords)) <= maxTokens + 3 * BodyBudget(maxTokens, keywords)
  {
    hide Compact, Fits, BodyBudget, EstimateTokens, KeptBytes;
    if Fits(context, maxTokens, keywords) {
      FittingStaysInBudget(context, maxTokens, keywords);
    } else if CutsMiddle(context, maxTokens, keywords) {
      CutBound(context, maxTokens, keywords);
    } else {
      HeadBound(context, maxTokens, keywords);
    }
  }

  /**
   Text is lost without a marker exactly when the context has more than half of the characters a cut
   keeps, but not more than all of them.
   */
  lemma UnmarkedLossIff(context: string, maxTokens: nat, keywords: seq<string>)
    requires !Fits(context, maxTokens, keywords) && BodyBudget(maxTokens, keywords) > 0
    ensures var budget := BodyBudget(maxTokens, keywords);
      !CutsMiddle(context, maxTokens, keywords) && Body(context, 2 * budget) != context <==>
        2 * budget < |context| <= 4 * budget
  {
    hide Fits, BodyBudget;
    var budget := BodyBudget(maxTokens, keywords);
    if !CutsMiddle(context, maxTokens, keywords) {
      BodyIsHead(context, budget);
    }
  }

  /**
   Outside ASCII the budget can be exceeded by as much as `CutBound` allows: four-byte characters
   cost exactly three times the body budget more.
   */
  lemma WideTextExceedsBudget(context: string, budget: nat)
    requires budget > 0 && |context| > 4 * budget && |context| > budget + 5
    requires forall i :: 0 <= i < |context| ==> Width(context[i]) == 4
    ensures BodyBudget(budget + 5, []) == budget
    ensures EstimateTokens(Compact(context, budget + 5, [])) == (budget + 5) + 3 * budget
  {
    hide *;
    BudgetWithoutKeywords(budget + 5);
    FourByteText(context);
    FourByteText(context[..2 * budget]);
    FourByteText(context[|context| - 2 * budget..]);
    BudgetDoesNotFit(context, budget + 5);
    TruncationIsMarkedIffCut(context, budget + 5, []);
    NothingMissing(Compact(context, budget + 5, []), Body(context, 2 * budget));
    BytesOfCut(context, 2 * budget);
    CutIsWide(context, 2 * budget);
    TokensOf(Body(context, 2 * budget), 4 * budget + 5, 2);
  }

  lemma {:induction false} FourByteText(s: string)
    requires forall i :: 0 <= i < |s| ==> Width(s[i]) == 4
    ensures Bytes(s) == 4 * |s|
    decreases |s|
  {
    if s != [] {
      FourByteText(s[..|s| - 1]);
    }
  }

  lemma CutIsWide(context: string, half: nat)
    requires 2 * half < |context|
    requires Bytes(context[..half]) == 4 * half && Bytes(context[|context| - half..]) == 4 * half
    ensures KeptBytes(context, half) == 8 * half
  {
  }

  lemma TokensOf(s: string, tokens: nat, spare: nat)
    requires Bytes(s) + 3 == 4 * tokens + spare && spare < 4
    ensures EstimateTokens(s) == tokens
  {
  }

  lemma BudgetDoesNotFit(context: string, maxTokens: nat)
    requires Bytes(context) > 4 * maxTokens
    ensures !Fits(context, maxTokens, [])
  {
    hide Bytes, KeywordSuffix;
  }

  /** `HeadBound` is tight too: a head of four-byte characters costs twice the body budget. */
  lemma WideHeadExceedsBudget(context: string, budget: nat)
    requires budget > 5 && 2 * budget <= |context| <= 4 * budget
    requires forall i :: 0 <= i < |context| ==> Width(context[i]) == 4
    ensures BodyBudget(budget + 5, []) == budget
    ensures EstimateTokens(Compact(context, budget + 5, [])) == 2 * budget == (budget + 5) + budget - 5
  {
    hide *;
    BudgetWithoutKeywords(budget + 5);
    FourByteText(context);
    BudgetDoesNotFit(context, budget + 5);
    NotCut(context, budget + 5);
    HeadBound(context, budget + 5, []);
    WideHead(context, 2 * budget);
    TokensOf(Head(context, 2 * budget), 2 * budget, 3);
  }

  lemma NotCut(context: string, maxTokens: nat)
    requires |context| <= 4 * BodyBudget(maxTokens, [])
    ensures !CutsMiddle(context, maxTokens, [])
  {
    hide BodyBudget;
  }

  lemma WideHead(context: string, half: nat)
    requires half <= |context| && forall i :: 0 <= i < |context| ==> Width(context[i]) == 4
    ensures Bytes(Head(context, half)) == 4 * half
  {
    FourByteText(Head(context, half));
  }

  /**
   Outside ASCII the head-only branch is reachable: a text that is too long in bytes but not in
   characters loses everything behind its head without a marker.
   */
  lemma WideTextLosesItsTail(context: string, maxTokens: nat)
    requires maxTokens > 5 && Bytes(context) > 4 * maxTokens
    requires 2 * (maxTokens - 5) < |context| <= 4 * (maxTokens - 5)
    ensures Compact(context, maxTokens, []) == context[..2 * (maxTokens - 5)]
  {
    hide *;
    BudgetWithoutKeywords(maxTokens);
    BudgetDoesNotFit(context, maxTokens);
    NotCut(context, maxTokens);
    HeadBound(context, maxTokens, []);
    HeadIsPrefix(context, 2 * (maxTokens - 5));
  }

  lemma HeadIsPrefix(context: string, half: nat)
    requires half < |context|
    ensures Head(context, half) == context[..half]
  {
  }

  /** Such texts exist: any text of wide characters with as many characters as an ASCII body may have. */
  lemma WideTextIsTooLong(context: string, maxTokens: nat)
    requires maxTokens > 10 && |context| == 4 * (maxTokens - 5)
    requires forall i :: 0 <= i < |context| ==> Width(context[i]) >= 2
    ensures Bytes(context) > 4 * maxTokens
  {
    WideBytes(context);
  }

  lemma BudgetWithoutKeywords(maxTokens: nat)
    requires maxTokens >= 5
    ensures BodyBudget(maxTokens, []) == maxTokens - 5
  {
    MarkerSize();
    NoKeywordsNoSuffix([]);
    hide Bytes, KeywordSuffix, EstimateTokens, Join;
  }

  lemma NothingMissing(result: string, text: string)
    requires Completes(result, text, [])
    ensures result == text
  {
  }

  lemma {:induction false} WideBytes(s: string)
    requires forall i :: 0 <= i < |s| ==> Width(s[i]) >= 2
    ensures Bytes(s) >= 2 * |s|
    decreases |s|
  {
    if s != [] {
      WideBytes(s[..|s| - 1]);
    }
  }
}
