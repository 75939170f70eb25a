/** Constraint documents and their predicate trees. */
module ConstraintTypes {
  import opened Wrappers

  datatype VocabularyMode = AllOf | AnyOf | NoneOf

  datatype NumericOp = Lt | Le | Eq | Ge | Gt

  datatype CompositeOp = And | Or | Not

  datatype Predicate =
    | VocabularyPresence(mode: VocabularyMode, terms: seq<string>)
    | NegativeKeyword(terms: seq<string>)
    | RegexMatch(pattern: string, mustMatch: bool)
    | NumericThreshold(field: string, op: NumericOp, value: real)
    | LlmJudge(rubric: string)
    | Composite(composite: CompositeOp, children: seq<Predicate>)
    | OracleExecution(uri: string, suite: string)
    | JsonSchema(schema: string)
    | LengthRange(minChars: Option<nat>, maxChars: Option<nat>)
    | SemanticPresence(concept: string)
    | SemanticOrdering(first: string, then_: string)
    | SemanticExclusion(excluded: string)

  /** The fields of a document that clustering, conflict detection and evaluation read. */
  datatype ConstraintDoc = ConstraintDoc(id: string, rule: Predicate, relatedTo: seq<string>)

  /** Some document with id a refers to b. */
  predicate Refers(docs: seq<ConstraintDoc>, a: string, b: string) {
    exists i :: 0 <= i < |docs| && docs[i].id == a && b in docs[i].relatedTo
  }
}
