/** Synchronous scoring of a predicate tree against an output. */
module Evaluation {
  import opened Wrappers
  import opened ConstraintTypes
  import Text

  /**
   What the libraries contribute: case folding, regular expressions, number parsing and
   JSON Schema validation. Nothing is assumed of them.
   */
  datatype Env = Env(
    lowercase: string -> string,
    compiles: string -> bool,
    isMatch: (string, string) -> bool,
    captured: (string, string) -> Option<string>,
    parsed: string -> Option<real>,
    conforms: (string, string) -> bool)

  function Score(ok: bool): (r: real)
    ensures 0.0 <= r <= 1.0 && (r == 1.0 <==> ok)
  {
    if ok then 1.0 else 0.0
  }

  /** The least score, 1 if there is none. */
  function MinOf(scores: seq<real>): (r: real)
    ensures r <= 1.0
    ensures forall i :: 0 <= i < |scores| ==> r <= scores[i]
    ensures r == 1.0 || r in scores
    decreases |scores|
  {
    if scores == [] then 1.0
    else
      var n := |scores| - 1;
      var rest := MinOf(scores[..n]);
      assert forall i :: 0 <= i < n ==> scores[i] == scores[..n][i];
      if scores[n] < rest then scores[n] else rest
  }

  /** The greatest score, 0 if there is none. */
  function MaxOf(scores: seq<real>): (r: real)
    ensures r >= 0.0
    ensures forall i :: 0 <= i < |scores| ==> r >= scores[i]
    ensures r == 0.0 || r in scores
    decreases |scores|
  {
    if scores == [] then 0.0
    else
      var n := |scores| - 1;
      var rest := MaxOf(scores[..n]);
      assert forall i :: 0 <= i < n ==> scores[i] == scores[..n][i];
      if scores[n] > rest then scores[n] else rest
  }

  predicate Hit(env: Env, output: string, term: string) {
    Text.Contains(env.lowercase(output), env.lowercase(term))
  }

  function Hits(env: Env, output: string, terms: seq<string>): (n: nat)
    ensures n <= |terms|
    ensures n == |terms| <==> forall i :: 0 <= i < |terms| ==> Hit(env, output, terms[i])
    ensures n == 0 <==> forall i :: 0 <= i < |terms| ==> !Hit(env, output, terms[i])
    decreases |terms|
  {
    if terms == [] then 0
    else
      var k := |terms| - 1;
      assert forall i :: 0 <= i < k ==> terms[..k][i] == terms[i];
      Hits(env, output, terms[..k]) + if Hit(env, output, terms[k]) then 1 else 0
  }

  /** A share of hits lies in [0, 1], and is 1 only if all hit. */
  lemma ShareOfHits(hits: nat, total: nat, share: real)
    requires hits <= total && total > 0 && share == hits as real / total as real
    ensures 0.0 <= share <= 1.0
    ensures share == 1.0 <==> hits == total
    ensures share * total as real == hits as real
  {
    assert share * total as real == hits as real;
  }

  function EvalVocabulary(env: Env, mode: VocabularyMode, terms: seq<string>, output: string): (r: real)
    ensures 0.0 <= r <= 1.0
    ensures terms == [] ==> r == 1.0
    ensures mode.AllOf? ==> (r == 1.0 <==> forall i :: 0 <= i < |terms| ==> Hit(env, output, terms[i]))
    ensures mode.AnyOf? && terms != [] ==>
      r == if exists i :: 0 <= i < |terms| && Hit(env, output, terms[i]) then 1.0 else 0.0
    ensures mode.NoneOf? ==>
      r == if exists i :: 0 <= i < |terms| && Hit(env, output, terms[i]) then 0.0 else 1.0
  {
    if terms == [] then 1.0
    else
      var hits := Hits(env, output, terms);
      match mode
      case AllOf =>
        var share := hits as real / |terms| as real;
        ShareOfHits(hits, |terms|, share);
        share
      case AnyOf => Score(hits > 0)
      case NoneOf => Score(hits == 0)
  }

  predicate Satisfies(v: real, op: NumericOp, threshold: real) {
    match op
    case Lt => v < threshold
    case Le => v <= threshold
    case Eq => -0.000000001 < v - threshold < 0.000000001
    case Ge => v >= threshold
    case Gt => v > threshold
  }

  /** The number a field pattern finds in the output, if the pattern compiles, matches and parses. */
  function Measured(env: Env, field: string, output: string): Option<real> {
    if !env.compiles(field) then None
    else
      var found := env.captured(field, output);
      if found.None? then None else env.parsed(found.value)
  }

  function EvalNumeric(env: Env, field: string, op: NumericOp, threshold: real, output: string): (r: real)
    ensures r == 0.0 || r == 1.0
    ensures r == 1.0 <==>
      Measured(env, field, output).Some? && Satisfies(Measured(env, field, output).value, op, threshold)
  {
    var v := Measured(env, field, output);
    if v.None? then 0.0 else Score(Satisfies(v.value, op, threshold))
  }

  function EvalSync(env: Env, rule: Predicate, output: string): (r: real)
    ensures 0.0 <= r <= 1.0
  {
    match rule
    case VocabularyPresence(mode, terms) => EvalVocabulary(env, mode, terms, output)
    case NegativeKeyword(terms) => EvalVocabulary(env, NoneOf, terms, output)
    case RegexMatch(pattern, mustMatch) =>
      if env.compiles(pattern) then Score(env.isMatch(pattern, output) == mustMatch) else 0.0
    case NumericThreshold(field, op, value) => EvalNumeric(env, field, op, value, output)
    case LlmJudge(_) => 1.0
    case SemanticPresence(_) => 1.0
    case SemanticOrdering(_, _) => 1.0
    case SemanticExclusion(_) => 1.0
    case OracleExecution(_, _) => 0.0
    case JsonSchema(schema) => Score(env.conforms(schema, output))
    case LengthRange(minChars, maxChars) =>
      Score((minChars.None? || |output| >= minChars.value) && (maxChars.None? || |output| <= maxChars.value))
    case Composite(op, children) =>
      var scores := seq(|children|, i requires 0 <= i < |children| => EvalSync(env, children[i], output));
      match op
      case And => MinOf(scores)
      case Or => MaxOf(scores)
      case Not => 1.0 - (if scores == [] then 0.0 else scores[0])
  }

  // ---------------------------------------------------------------------------
  // What the scores mean
  // ---------------------------------------------------------------------------

  /** No predicate in the tree gives partial credit. */
  predicate IsCrisp(rule: Predicate) {
    match rule
    case VocabularyPresence(mode, _) => !mode.AllOf?
    case Composite(_, children) => forall i :: 0 <= i < |children| ==> IsCrisp(children[i])
    case _ => true
  }

  ghost predicate Occurs(env: Env, term: string, output: string) {
    Text.Contains(env.lowercase(output), env.lowercase(term))
  }

  /** What a leaf asks of the output. What only the asynchronous path can judge passes, oracles fail. */
  ghost predicate LeafHolds(env: Env, leaf: Predicate, output: string)
    requires !leaf.Composite?
  {
    match leaf
    case VocabularyPresence(mode, terms) =>
      && (mode.AllOf? ==> forall term :: term in terms ==> Occurs(env, term, output))
      && (mode.AnyOf? ==> terms == [] || exists term :: term in terms && Occurs(env, term, output))
      && (mode.NoneOf? ==> forall term :: term in terms ==> !Occurs(env, term, output))
    case NegativeKeyword(terms) => forall term :: term in terms ==> !Occurs(env, term, output)
    case RegexMatch(pattern, mustMatch) => env.compiles(pattern) && env.isMatch(pattern, output) == mustMatch
    case NumericThreshold(field, op, value) =>
      && env.compiles(field) && env.captured(field, output).Some?
      && var v := env.parsed(env.captured(field, output).value);
      && v.Some?
      && (op.Lt? ==> v.value < value) && (op.Le? ==> v.value <= value)
      && (op.Gt? ==> v.value > value) && (op.Ge? ==> v.value >= value)
      && (op.Eq? ==> value - 0.000000001 < v.value < value + 0.000000001)
    case JsonSchema(schema) => env.conforms(schema, output)
    case LengthRange(minChars, maxChars) =>
      && (minChars.Some? ==> minChars.value <= |output|)
      && (maxChars.Some? ==> |output| <= maxChars.value)
    case OracleExecution(_, _) => false
    case LlmJudge(_) => true
    case SemanticPresence(_) => true
    case SemanticOrdering(_, _) => true
    case SemanticExclusion(_) => true
  }

  /** A leaf scores 1 exactly when it holds, and otherwise 0 unless it asks for all of some terms. */
  lemma LeafScoresOneIffItHolds(env: Env, leaf: Predicate, output: string)
    requires !leaf.Composite?
    ensures EvalSync(env, leaf, output) == 1.0 <==> LeafHolds(env, leaf, output)
    ensures IsCrisp(leaf) <==> !(leaf.VocabularyPresence? && leaf.mode.AllOf?)
    ensures IsCrisp(leaf) && !LeafHolds(env, leaf, output) ==> EvalSync(env, leaf, output) == 0.0
  {
    assert forall i, terms: seq<string> :: 0 <= i < |terms| ==> terms[i] in terms;
  }

  /** Asked for all terms, a leaf scores the share of them that occur. */
  lemma VocabularyScoresShare(env: Env, terms: seq<string>, output: string)
    requires terms != []
    ensures EvalSync(env, VocabularyPresence(AllOf, terms), output) * |terms| as real
         == |Occurring(env, terms, output)| as real
  {
    hide Hits, Occurring;
    HitsAreCounted(env, output, terms);
    ShareOfHits(Hits(env, output, terms), |terms|, Hits(env, output, terms) as real / |terms| as real);
    AllTermsScore(env, terms, output);
  }

  lemma AllTermsScore(env: Env, terms: seq<string>, output: string)
    requires terms != []
    ensures EvalSync(env, VocabularyPresence(AllOf, terms), output)
         == Hits(env, output, terms) as real / |terms| as real
  {
    hide Hits, Hit;
  }

  ghost function Occurring(env: Env, terms: seq<string>, output: string): set<nat> {
    set i: nat | i < |terms| && Occurs(env, terms[i], output)
  }

  lemma OccurringGrows(env: Env, terms: seq<string>, output: string, n: nat)
    requires n + 1 == |terms|
    ensures n !in Occurring(env, terms[..n], output)
    ensures Occurring(env, terms, output)
         == Occurring(env, terms[..n], output) + if Hit(env, output, terms[n]) then {n} else {}
  {
    hide Text.Contains;
  }

  lemma {:induction false} HitsAreCounted(env: Env, output: string, terms: seq<string>)
    ensures Hits(env, output, terms) == |Occurring(env, terms, output)|
    decreases |terms|
  {
    hide Hit, Occurring;
    if terms == [] {
      NothingOccurs(env, output);
    } else {
      HitsAreCounted(env, output, terms[..|terms| - 1]);
      OccurringGrows(env, terms, output, |terms| - 1);
    }
  }

  lemma NothingOccurs(env: Env, output: string)
    ensures Occurring(env, [], output) == {}
  {
  }

  /** A conjunction scores its least child, a disjunction its greatest, a negation what its first child lacks. */
  lemma CompositeScores(env: Env, op: CompositeOp, children: seq<Predicate>, output: string)
    ensures var r := EvalSync(env, Composite(op, children), output);
      && (op.And? ==> forall i :: 0 <= i < |children| ==> r <= EvalSync(env, children[i], output))
      && (op.And? ==> r == 1.0 || exists i :: 0 <= i < |children| && r == EvalSync(env, children[i], output))
      && (op.Or? ==> forall i :: 0 <= i < |children| ==> r >= EvalSync(env, children[i], output))
      && (op.Or? ==> r == 0.0 || exists i :: 0 <= i < |children| && r == EvalSync(env, children[i], output))
      && (op.Not? ==> r == if children == [] then 1.0 else 1.0 - EvalSync(env, children[0], output))
  {
    var scores := seq(|children|, i requires 0 <= i < |children| => EvalSync(env, children[i], output));
    assert forall i :: 0 <= i < |children| ==> scores[i] == EvalSync(env, children[i], output);
  }

  /** The tree read as a proposition over its leaves. */
  ghost predicate Holds(env: Env, rule: Predicate, output: string) {
    match rule
    case Composite(op, children) => (
      match op
      case And => forall i :: 0 <= i < |children| ==> Holds(env, children[i], output)
      case Or => exists i :: 0 <= i < |children| && Holds(env, children[i], output)
      case Not => children == [] || !Holds(env, children[0], output))
    case _ => LeafHolds(env, rule, output)
  }

  /** Without partial credit the evaluator is propositional logic: 1 for true and 0 for false. */
  lemma {:induction false} CrispTreesArePropositions(env: Env, rule: Predicate, output: string)
    requires IsCrisp(rule)
    ensures EvalSync(env, rule, output) == if Holds(env, rule, output) then 1.0 else 0.0
  {
    match rule
    case Composite(op, children) =>
      var scores := seq(|children|, i requires 0 <= i < |children| => EvalSync(env, children[i], output));
      forall i | 0 <= i < |children|
        ensures scores[i] == if Holds(env, children[i], output) then 1.0 else 0.0
      {
        CrispTreesArePropositions(env, children[i], output);
      }
    case _ => LeafScoresOneIffItHolds(env, rule, output);
  }

  /** An enforced predicate: reached from the root through conjunctions only. */
  predicate Reaches(rule: Predicate, leaf: Predicate) {
    || rule == leaf
    || (rule.Composite? && rule.composite.And?
        && exists i :: 0 <= i < |rule.children| && Reaches(rule.children[i], leaf))
  }

  /** No tree scores above a predicate it enforces. */
  lemma {:induction false} EnforcedBoundsScore(env: Env, rule: Predicate, leaf: Predicate, output: string)
    requires Reaches(rule, leaf)
    ensures EvalSync(env, rule, output) <= EvalSync(env, leaf, output)
  {
    if rule != leaf {
      var scores :=
        seq(|rule.children|, i requires 0 <= i < |rule.children| => EvalSync(env, rule.children[i], output));
      var i :| 0 <= i < |rule.children| && Reaches(rule.children[i], leaf);
      EnforcedBoundsScore(env, rule.children[i], leaf, output);
      assert EvalSync(env, rule, output) == MinOf(scores) <= scores[i];
    }
  }

  lemma ThresholdScore(env: Env, field: string, op: NumericOp, value: real, output: string)
    ensures EvalSync(env, NumericThreshold(field, op, value), output) == EvalNumeric(env, field, op, value, output)
  {
  }

  /** An upper bound below a lower bound on one field: no output satisfies both trees to any degree. */
  lemma IncompatibleBoundsExclude(
    env: Env, p: Predicate, q: Predicate, field: string, upper: real, lower: real, output: string)
    requires Reaches(p, NumericThreshold(field, Le, upper)) && Reaches(q, NumericThreshold(field, Ge, lower))
    requires lower > upper
    ensures EvalSync(env, p, output) == 0.0 || EvalSync(env, q, output) == 0.0
  {
    ThresholdScore(env, field, Le, upper, output);
    ThresholdScore(env, field, Ge, lower, output);
    hide EvalSync, Reaches, Measured;
    EnforcedBoundsScore(env, p, NumericThreshold(field, Le, upper), output);
    EnforcedBoundsScore(env, q, NumericThreshold(field, Ge, lower), output);
  }

  /** Some output carries each value of the field. */
  ghost predicate CanMeasure(env: Env, field: string) {
    forall v: real :: exists output :: Measured(env, field, output) == Some(v)
  }

  /** Wherever every value can be measured, two bounds exclude each other on every output iff no value meets both. */
  lemma BoundsExcludeIffInfeasible(env: Env, field: string, upper: real, lower: real)
    requires CanMeasure(env, field)
    ensures (forall output ::
               || EvalSync(env, NumericThreshold(field, Le, upper), output) == 0.0
               || EvalSync(env, NumericThreshold(field, Ge, lower), output) == 0.0)
      <==> lower > upper
  {
    hide EvalSync, Measured;
    forall output
      ensures EvalSync(env, NumericThreshold(field, Le, upper), output) == EvalNumeric(env, field, Le, upper, output)
      ensures EvalSync(env, NumericThreshold(field, Ge, lower), output) == EvalNumeric(env, field, Ge, lower, output)
    {
      ThresholdScore(env, field, Le, upper, output);
      ThresholdScore(env, field, Ge, lower, output);
    }
    if lower <= upper {
      var output :| Measured(env, field, output) == Some(lower);
      assert EvalSync(env, NumericThreshold(field, Le, upper), output) == 1.0;
      assert EvalSync(env, NumericThreshold(field, Ge, lower), output) == 1.0;
    }
  }
}
