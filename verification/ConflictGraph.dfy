/** Pairs of constraints that may be impossible to satisfy together. */
module ConflictGraph {
  import opened Collections
  import opened ConstraintTypes
  import opened Text
  import opened Evaluation

  type IdPair = (string, string)

  datatype OrderingEntry = OrderingEntry(id: string, first: string, then_: string)

  datatype NumericEntry = NumericEntry(id: string, op: NumericOp, value: real)

  type Numerics = map<string, seq<NumericEntry>>

  function EntriesOf(numerics: Numerics, field: string): seq<NumericEntry> {
    if field in numerics then numerics[field] else []
  }

  // ---------------------------------------------------------------------------
  // Collecting the enforced predicates
  // ---------------------------------------------------------------------------

  lemma {:induction false} FlattenMembers<T>(lists: seq<seq<T>>, x: T)
    ensures x in Flatten(lists) <==> exists i :: 0 <= i < |lists| && x in lists[i]
    decreases |lists|
  {
    if lists != [] {
      var n := |lists| - 1;
      FlattenMembers(lists[..n], x);
      assert forall i :: 0 <= i < n ==> lists[..n][i] == lists[i];
    }
  }

  /** The enforced orderings of one tree, left to right. */
  function OrderingsOf(id: string, rule: Predicate): seq<OrderingEntry> {
    match rule
    case SemanticOrdering(first, then_) => [OrderingEntry(id, first, then_)]
    case Composite(op, children) =>
      if op.And?
      then Flatten(seq(|children|, i requires 0 <= i < |children| => OrderingsOf(id, children[i])))
      else []
    case _ => []
  }

  /** The enforced thresholds on one field. */
  function ThresholdsOf(id: string, rule: Predicate, field: string): seq<NumericEntry> {
    match rule
    case NumericThreshold(f, op, value) => if f == field then [NumericEntry(id, op, value)] else []
    case Composite(op, children) =>
      if op.And?
      then Flatten(seq(|children|, i requires 0 <= i < |children| => ThresholdsOf(id, children[i], field)))
      else []
    case _ => []
  }

  function ChildOrderings(id: string, children: seq<Predicate>): seq<seq<OrderingEntry>> {
    seq(|children|, i requires 0 <= i < |children| => OrderingsOf(id, children[i]))
  }

  function ChildThresholds(id: string, children: seq<Predicate>, field: string): seq<seq<NumericEntry>> {
    seq(|children|, i requires 0 <= i < |children| => ThresholdsOf(id, children[i], field))
  }

  lemma OrderingsOfConjunction(id: string, children: seq<Predicate>)
    ensures OrderingsOf(id, Composite(And, children)) == Flatten(ChildOrderings(id, children))
  {
    assert seq(|children|, i requires 0 <= i < |children| => OrderingsOf(id, children[i]))
        == ChildOrderings(id, children);
  }

  lemma ThresholdsOfConjunction(id: string, children: seq<Predicate>, field: string)
    ensures ThresholdsOf(id, Composite(And, children), field) == Flatten(ChildThresholds(id, children, field))
  {
    assert seq(|children|, i requires 0 <= i < |children| => ThresholdsOf(id, children[i], field))
        == ChildThresholds(id, children, field);
  }

  method CollectPredicates(id: string, rule: Predicate, orderings: seq<OrderingEntry>, numerics: Numerics)
    returns (allOrderings: seq<OrderingEntry>, allNumerics: Numerics)
    ensures allOrderings == orderings + OrderingsOf(id, rule)
    ensures forall f :: EntriesOf(allNumerics, f) == EntriesOf(numerics, f) + ThresholdsOf(id, rule, f)
    decreases rule
  {
    allOrderings, allNumerics := orderings, numerics;
    match rule
    case SemanticOrdering(first, then_) =>
      allOrderings := allOrderings + [OrderingEntry(id, first, then_)];
    case NumericThreshold(field, op, value) =>
      allNumerics := allNumerics[field := EntriesOf(allNumerics, field) + [NumericEntry(id, op, value)]];
    case Composite(op, children) =>
      if op.And? {
        allOrderings, allNumerics := CollectChildren(id, children, orderings, numerics);
        OrderingsOfConjunction(id, children);
        forall f
          ensures ThresholdsOf(id, rule, f) == Flatten(ChildThresholds(id, children, f))
        {
          ThresholdsOfConjunction(id, children, f);
        }
      }
    case _ =>
  }

  method CollectChildren(id: string, children: seq<Predicate>, orderings: seq<OrderingEntry>, numerics: Numerics)
    returns (allOrderings: seq<OrderingEntry>, allNumerics: Numerics)
    ensures allOrderings == orderings + Flatten(ChildOrderings(id, children))
    ensures forall f :: EntriesOf(allNumerics, f) == EntriesOf(numerics, f) + Flatten(ChildThresholds(id, children, f))
    decreases children
  {
    hide Flatten, OrderingsOf, ThresholdsOf, EntriesOf;
    allOrderings, allNumerics := orderings, numerics;
    ghost var lists := ChildOrderings(id, children);
    NothingFlattened(lists);
    forall f
      ensures Flatten(ChildThresholds(id, children, f)[..0]) == []
    {
      NothingFlattened(ChildThresholds(id, children, f));
    }
    for k := 0 to |children|
      invariant allOrderings == orderings + Flatten(lists[..k])
      invariant forall f ::
        EntriesOf(allNumerics, f) == EntriesOf(numerics, f) + Flatten(ChildThresholds(id, children, f)[..k])
    {
      FlattenExtends(lists, k);
      forall f
        ensures Flatten(ChildThresholds(id, children, f)[..k + 1])
             == Flatten(ChildThresholds(id, children, f)[..k]) + ThresholdsOf(id, children[k], f)
      {
        FlattenExtends(ChildThresholds(id, children, f), k);
      }
      allOrderings, allNumerics := CollectPredicates(id, children[k], allOrderings, allNumerics);
    }
    assert lists[..|children|] == lists;
    assert forall f :: ChildThresholds(id, children, f)[..|children|] == ChildThresholds(id, children, f);
  }

  /** Exactly the orderings reached through conjunctions are collected. */
  lemma {:induction false} OrderingsAreEnforced(id: string, rule: Predicate, e: OrderingEntry)
    ensures e in OrderingsOf(id, rule) <==> e.id == id && Reaches(rule, SemanticOrdering(e.first, e.then_))
  {
    match rule
    case Composite(op, children) =>
      if op.And? {
        OrderingsOfConjunction(id, children);
        FlattenMembers(ChildOrderings(id, children), e);
        var lists := ChildOrderings(id, children);
        var leaf := SemanticOrdering(e.first, e.then_);
        forall i | 0 <= i < |children|
          ensures e in lists[i] <==> e.id == id && Reaches(rule.children[i], leaf)
        {
          OrderingsAreEnforced(id, children[i], e);
        }
        assert Reaches(rule, leaf) <==> exists i :: 0 <= i < |children| && Reaches(rule.children[i], leaf);
      }
    case _ =>
  }

  lemma {:induction false} ThresholdsAreEnforced(id: string, rule: Predicate, field: string, e: NumericEntry)
    ensures e in ThresholdsOf(id, rule, field) <==> e.id == id && Reaches(rule, NumericThreshold(field, e.op, e.value))
  {
    match rule
    case Composite(op, children) =>
      if op.And? {
        ThresholdsOfConjunction(id, children, field);
        FlattenMembers(ChildThresholds(id, children, field), e);
        var lists := ChildThresholds(id, children, field);
        var leaf := NumericThreshold(field, e.op, e.value);
        forall i | 0 <= i < |children|
          ensures e in lists[i] <==> e.id == id && Reaches(rule.children[i], leaf)
        {
          ThresholdsAreEnforced(id, children[i], field, e);
        }
        assert Reaches(rule, leaf) <==> exists i :: 0 <= i < |children| && Reaches(rule.children[i], leaf);
      }
    case _ =>
  }

  function AllOrderings(docs: seq<ConstraintDoc>): seq<OrderingEntry> {
    if docs == [] then []
    else AllOrderings(docs[..|docs| - 1]) + OrderingsOf(docs[|docs| - 1].id, docs[|docs| - 1].rule)
  }

  function AllThresholds(docs: seq<ConstraintDoc>, field: string): seq<NumericEntry> {
    if docs == [] then []
    else AllThresholds(docs[..|docs| - 1], field) + ThresholdsOf(docs[|docs| - 1].id, docs[|docs| - 1].rule, field)
  }

  /** Some document with this id enforces the predicate. */
  ghost predicate Enforces(docs: seq<ConstraintDoc>, id: string, leaf: Predicate) {
    exists i :: 0 <= i < |docs| && docs[i].id == id && Reaches(docs[i].rule, leaf)
  }

  lemma {:induction false} AllOrderingsAreEnforced(docs: seq<ConstraintDoc>, e: OrderingEntry)
    ensures e in AllOrderings(docs) <==> Enforces(docs, e.id, SemanticOrdering(e.first, e.then_))
    decreases |docs|
  {
    hide OrderingsOf, Reaches;
    if docs != [] {
      var n := |docs| - 1;
      AllOrderingsAreEnforced(docs[..n], e);
      OrderingsAreEnforced(docs[n].id, docs[n].rule, e);
      assert forall i :: 0 <= i < n ==> docs[..n][i] == docs[i];
    }
  }

  lemma {:induction false} AllThresholdsAreEnforced(docs: seq<ConstraintDoc>, field: string, e: NumericEntry)
    ensures e in AllThresholds(docs, field) <==> Enforces(docs, e.id, NumericThreshold(field, e.op, e.value))
    decreases |docs|
  {
    hide ThresholdsOf, Reaches;
    if docs != [] {
      var n := |docs| - 1;
      AllThresholdsAreEnforced(docs[..n], field, e);
      ThresholdsAreEnforced(docs[n].id, docs[n].rule, field, e);
      assert forall i :: 0 <= i < n ==> docs[..n][i] == docs[i];
    }
  }

  // ---------------------------------------------------------------------------
  // What a conflict is
  // ---------------------------------------------------------------------------

  /** One wants x before y, the other y before x. */
  predicate Opposed(e: OrderingEntry, d: OrderingEntry) {
    e.first == d.then_ && e.then_ == d.first
  }

  /** Two different orderings collected from documents a and b are opposed. */
  ghost predicate OrderingConflict(entries: seq<OrderingEntry>, a: string, b: string) {
    exists i, j :: 0 <= i < |entries| && 0 <= j < |entries| && i != j
      && entries[i].id == a && entries[j].id == b && Opposed(entries[i], entries[j])
  }

  /** The lower bound lies above the upper bound. */
  predicate Clash(le: NumericEntry, ge: NumericEntry) {
    le.op.Le? && ge.op.Ge? && ge.value > le.value
  }

  ghost predicate ClashIn(entries: seq<NumericEntry>, a: string, b: string) {
    exists le, ge :: le in entries && ge in entries && le.id == a && ge.id == b && Clash(le, ge)
  }

  /** Document a bounds a field from above below where document b bounds it from below. */
  ghost predicate BoundsConflict(docs: seq<ConstraintDoc>, a: string, b: string) {
    exists field :: ClashIn(AllThresholds(docs, field), a, b)
  }

  ghost predicate InConflict(docs: seq<ConstraintDoc>, a: string, b: string) {
    || OrderingConflict(AllOrderings(docs), a, b)
    || BoundsConflict(docs, a, b) || BoundsConflict(docs, b, a)
    || Refers(docs, a, b) || Refers(docs, b, a)
  }

  // ---------------------------------------------------------------------------
  // Building the graph
  // ---------------------------------------------------------------------------

  /** The pairs of opposed orderings before (n, k) in row order are in the set. */
  ghost predicate HasOpposed(pairs: set<IdPair>, entries: seq<OrderingEntry>, n: nat, k: nat) {
    forall x, y :: 0 <= x < y < |entries| && (x < n || (x == n && y < k)) && Opposed(entries[x], entries[y]) ==>
      CanonicalPair(entries[x].id, entries[y].id) in pairs
  }

  method OrderingPairs(entries: seq<OrderingEntry>) returns (pairs: set<IdPair>)
    ensures forall p :: p in pairs <==> FromOrderings(entries, p)
  {
    hide CanonicalPair, FromOrderings;
    pairs := {};
    for i := 0 to |entries|
      invariant forall p :: p in pairs ==> FromOrderings(entries, p)
      invariant HasOpposed(pairs, entries, i, i + 1)
    {
      for j := i + 1 to |entries|
        invariant forall p :: p in pairs ==> FromOrderings(entries, p)
        invariant HasOpposed(pairs, entries, i, j)
      {
        if entries[i].first == entries[j].then_ && entries[i].then_ == entries[j].first {
          IsFromOrderings(entries, i, j);
          pairs := pairs + {CanonicalPair(entries[i].id, entries[j].id)};
        }
      }
    }
    OrderingsAreComplete(entries, pairs);
  }

  lemma IsFromOrderings(entries: seq<OrderingEntry>, i: nat, j: nat)
    requires i < j < |entries| && Opposed(entries[i], entries[j])
    ensures FromOrderings(entries, CanonicalPair(entries[i].id, entries[j].id))
  {
  }

  lemma OrderingsAreComplete(entries: seq<OrderingEntry>, pairs: set<IdPair>)
    requires HasOpposed(pairs, entries, |entries|, |entries| + 1)
    ensures forall p :: FromOrderings(entries, p) ==> p in pairs
  {
    hide CanonicalPair;
  }

  ghost predicate FromOrderings(entries: seq<OrderingEntry>, p: IdPair) {
    exists x, y :: 0 <= x < y < |entries| && Opposed(entries[x], entries[y])
      && p == CanonicalPair(entries[x].id, entries[y].id)
  }

  lemma CanonicalIsFixed(a: string, b: string)
    ensures var p := CanonicalPair(a, b); p == CanonicalPair(p.0, p.1)
  {
    AtMostIsTotal(a, b);
    hide AtMost;
  }

  /** The entries with one operator. */
  function WithOp(entries: seq<NumericEntry>, op: NumericOp): (kept: seq<NumericEntry>)
    ensures forall e :: e in kept <==> e in entries && e.op == op
  {
    if entries == [] then []
    else WithOp(entries[..|entries| - 1], op) + if entries[|entries| - 1].op == op then [entries[|entries| - 1]] else []
  }

  ghost predicate FromBounds(entries: seq<NumericEntry>, p: IdPair) {
    exists le, ge :: le in entries && ge in entries && Clash(le, ge) && p == CanonicalPair(le.id, ge.id)
  }

  /** The clashes of the first n upper bounds and the first k lower bounds of the next are in the set. */
  ghost predicate HasClashes(pairs: set<IdPair>, les: seq<NumericEntry>, ges: seq<NumericEntry>, n: nat, k: nat) {
    forall x, y :: 0 <= x < |les| && 0 <= y < |ges| && (x < n || (x == n && y < k)) && Clash(les[x], ges[y]) ==>
      CanonicalPair(les[x].id, ges[y].id) in pairs
  }

  method FieldPairs(entries: seq<NumericEntry>) returns (pairs: set<IdPair>)
    ensures forall p :: p in pairs <==> FromBounds(entries, p)
  {
    hide CanonicalPair, WithOp, FromBounds;
    pairs := {};
    var les, ges := WithOp(entries, Le), WithOp(entries, Ge);
    for i := 0 to |les|
      invariant forall p :: p in pairs ==> FromBounds(entries, p)
      invariant HasClashes(pairs, les, ges, i, 0)
    {
      for j := 0 to |ges|
        invariant forall p :: p in pairs ==> FromBounds(entries, p)
        invariant HasClashes(pairs, les, ges, i, j)
      {
        if ges[j].value > les[i].value {
          IsFromBounds(entries, les[i], ges[j]);
          pairs := pairs + {CanonicalPair(les[i].id, ges[j].id)};
        }
      }
    }
    BoundsAreComplete(entries, pairs);
  }

  lemma IsFromBounds(entries: seq<NumericEntry>, le: NumericEntry, ge: NumericEntry)
    requires le in entries && ge in entries && Clash(le, ge)
    ensures FromBounds(entries, CanonicalPair(le.id, ge.id))
  {
  }

  lemma BoundsAreComplete(entries: seq<NumericEntry>, pairs: set<IdPair>)
    requires HasClashes(pairs, WithOp(entries, Le), WithOp(entries, Ge), |WithOp(entries, Le)|, 0)
    ensures forall p :: FromBounds(entries, p) ==> p in pairs
  {
    hide WithOp, CanonicalPair;
    var les, ges := WithOp(entries, Le), WithOp(entries, Ge);
    forall p | FromBounds(entries, p)
      ensures p in pairs
    {
      var le, ge :| le in entries && ge in entries && Clash(le, ge) && p == CanonicalPair(le.id, ge.id);
      var x :| 0 <= x < |les| && les[x] == le;
      var y :| 0 <= y < |ges| && ges[y] == ge;
    }
  }

  ghost predicate FromReferences(docs: seq<ConstraintDoc>, p: IdPair) {
    exists i, id :: 0 <= i < |docs| && id in docs[i].relatedTo && p == CanonicalPair(docs[i].id, id)
  }

  method ReferencePairs(docs: seq<ConstraintDoc>) returns (pairs: set<IdPair>)
    ensures forall p :: p in pairs <==> FromReferences(docs, p)
  {
    hide CanonicalPair;
    pairs := {};
    for i := 0 to |docs|
      invariant forall p :: p in pairs ==> FromReferences(docs, p)
      invariant forall x, id :: 0 <= x < i && id in docs[x].relatedTo ==> CanonicalPair(docs[x].id, id) in pairs
    {
      for j := 0 to |docs[i].relatedTo|
        invariant forall p :: p in pairs ==> FromReferences(docs, p)
        invariant forall x, id :: 0 <= x < i && id in docs[x].relatedTo ==> CanonicalPair(docs[x].id, id) in pairs
        invariant forall y :: 0 <= y < j ==> CanonicalPair(docs[i].id, docs[i].relatedTo[y]) in pairs
      {
        pairs := pairs + {CanonicalPair(docs[i].id, docs[i].relatedTo[j])};
      }
    }
  }

  lemma OrderingKeys(entries: seq<OrderingEntry>, a: string, b: string)
    ensures FromOrderings(entries, CanonicalPair(a, b)) <==> OrderingConflict(entries, a, b)
  {
    hide CanonicalPair;
    if FromOrderings(entries, CanonicalPair(a, b)) {
      var x, y :| 0 <= x < y < |entries| && Opposed(entries[x], entries[y])
        && CanonicalPair(a, b) == CanonicalPair(entries[x].id, entries[y].id);
      CanonicalPairIsUnordered(a, b, entries[x].id, entries[y].id);
      assert Opposed(entries[y], entries[x]);
    }
    if OrderingConflict(entries, a, b) {
      var i, j :| 0 <= i < |entries| && 0 <= j < |entries| && i != j
        && entries[i].id == a && entries[j].id == b && Opposed(entries[i], entries[j]);
      CanonicalPairIsUnordered(a, b, a, b);
      assert Opposed(entries[j], entries[i]);
    }
  }

  lemma BoundKeys(entries: seq<NumericEntry>, a: string, b: string)
    ensures FromBounds(entries, CanonicalPair(a, b)) <==> ClashIn(entries, a, b) || ClashIn(entries, b, a)
  {
    hide CanonicalPair;
    CanonicalPairIsUnordered(a, b, a, b);
    if FromBounds(entries, CanonicalPair(a, b)) {
      var le, ge :|
        le in entries && ge in entries && Clash(le, ge) && CanonicalPair(a, b) == CanonicalPair(le.id, ge.id);
      CanonicalPairIsUnordered(a, b, le.id, ge.id);
    }
  }

  lemma ReferenceKeys(docs: seq<ConstraintDoc>, a: string, b: string)
    ensures FromReferences(docs, CanonicalPair(a, b)) <==> Refers(docs, a, b) || Refers(docs, b, a)
  {
    hide CanonicalPair;
    CanonicalPairIsUnordered(a, b, a, b);
    if FromReferences(docs, CanonicalPair(a, b)) {
      var i, id :| 0 <= i < |docs| && id in docs[i].relatedTo && CanonicalPair(a, b) == CanonicalPair(docs[i].id, id);
      CanonicalPairIsUnordered(a, b, docs[i].id, id);
    }
  }

  /** The keys of the three kinds. */
  ghost predicate IsKey(docs: seq<ConstraintDoc>, p: IdPair) {
    || FromOrderings(AllOrderings(docs), p)
    || (exists field :: FromBounds(AllThresholds(docs, field), p))
    || FromReferences(docs, p)
  }

  lemma KeysAreConflicts(docs: seq<ConstraintDoc>, a: string, b: string)
    ensures IsKey(docs, CanonicalPair(a, b)) <==> InConflict(docs, a, b)
  {
    hide CanonicalPair, FromOrderings, FromBounds, FromReferences, AllOrderings, AllThresholds,
      OrderingConflict, ClashIn, Refers;
    OrderingKeys(AllOrderings(docs), a, b);
    ReferenceKeys(docs, a, b);
    forall field
      ensures FromBounds(AllThresholds(docs, field), CanonicalPair(a, b)) <==>
        ClashIn(AllThresholds(docs, field), a, b) || ClashIn(AllThresholds(docs, field), b, a)
    {
      BoundKeys(AllThresholds(docs, field), a, b);
    }
  }

  lemma KeysAreCanonical(docs: seq<ConstraintDoc>, p: IdPair)
    requires IsKey(docs, p)
    ensures p == CanonicalPair(p.0, p.1)
  {
    hide CanonicalPair, AllOrderings, AllThresholds;
    if FromOrderings(AllOrderings(docs), p) {
      var entries := AllOrderings(docs);
      var x, y :| 0 <= x < y < |entries| && p == CanonicalPair(entries[x].id, entries[y].id);
      CanonicalIsFixed(entries[x].id, entries[y].id);
    } else if FromReferences(docs, p) {
      var i, id :| 0 <= i < |docs| && id in docs[i].relatedTo && p == CanonicalPair(docs[i].id, id);
      CanonicalIsFixed(docs[i].id, id);
    } else {
      var field :| FromBounds(AllThresholds(docs, field), p);
      var le, ge :| le in AllThresholds(docs, field) && ge in AllThresholds(docs, field)
        && p == CanonicalPair(le.id, ge.id);
      CanonicalIsFixed(le.id, ge.id);
    }
  }

  /** What a built graph holds: one canonical key per conflicting pair, and no other key. */
  ghost predicate IsGraphOf(pairs: set<IdPair>, docs: seq<ConstraintDoc>) {
    && (forall p :: p in pairs ==> p == CanonicalPair(p.0, p.1))
    && forall a, b {:trigger CanonicalPair(a, b)} :: CanonicalPair(a, b) in pairs <==> InConflict(docs, a, b)
  }

  lemma KeysMakeTheGraph(pairs: set<IdPair>, docs: seq<ConstraintDoc>)
    requires forall p :: p in pairs <==> IsKey(docs, p)
    ensures IsGraphOf(pairs, docs)
  {
    hide CanonicalPair, IsKey, InConflict;
    forall p | p in pairs
      ensures p == CanonicalPair(p.0, p.1)
    {
      KeysAreCanonical(docs, p);
    }
    forall a, b
      ensures CanonicalPair(a, b) in pairs <==> InConflict(docs, a, b)
    {
      KeysAreConflicts(docs, a, b);
    }
  }

  lemma AllExtend(docs: seq<ConstraintDoc>, n: nat, field: string)
    requires n < |docs|
    ensures AllOrderings(docs[..n + 1]) == AllOrderings(docs[..n]) + OrderingsOf(docs[n].id, docs[n].rule)
    ensures AllThresholds(docs[..n + 1], field)
         == AllThresholds(docs[..n], field) + ThresholdsOf(docs[n].id, docs[n].rule, field)
  {
    assert docs[..n + 1][..n] == docs[..n];
  }

  method CollectAll(docs: seq<ConstraintDoc>) returns (orderings: seq<OrderingEntry>, numerics: Numerics)
    ensures orderings == AllOrderings(docs)
    ensures forall f :: EntriesOf(numerics, f) == AllThresholds(docs, f)
  {
    assert docs[..0] == [];
    orderings, numerics := [], map[];
    hide OrderingsOf, ThresholdsOf, EntriesOf;
    assert AllOrderings([]) == [] && forall f :: AllThresholds([], f) == [];
    hide AllOrderings, AllThresholds;
    for i := 0 to |docs|
      invariant orderings == AllOrderings(docs[..i])
      invariant forall f :: EntriesOf(numerics, f) == AllThresholds(docs[..i], f)
    {
      forall f
        ensures AllThresholds(docs[..i + 1], f)
             == AllThresholds(docs[..i], f) + ThresholdsOf(docs[i].id, docs[i].rule, f)
      {
        AllExtend(docs, i, f);
      }
      AllExtend(docs, i, []);
      orderings, numerics := CollectPredicates(docs[i].id, docs[i].rule, orderings, numerics);
    }
    assert docs[..|docs|] == docs;
  }

  ghost predicate FromFields(numerics: Numerics, fields: set<string>, p: IdPair) {
    exists f :: f in fields && f in numerics && FromBounds(numerics[f], p)
  }

  method AllFieldPairs(numerics: Numerics) returns (pairs: set<IdPair>)
    ensures forall p :: p in pairs <==> FromFields(numerics, numerics.Keys, p)
  {
    hide FromBounds;
    pairs := {};
    var fields := numerics.Keys;
    while fields != {}
      invariant fields <= numerics.Keys
      invariant forall p :: p in pairs <==> FromFields(numerics, numerics.Keys - fields, p)
    {
      var f :| f in fields;
      var more := FieldPairs(numerics[f]);
      forall p
        ensures FromFields(numerics, numerics.Keys - (fields - {f}), p) <==>
          FromFields(numerics, numerics.Keys - fields, p) || FromBounds(numerics[f], p)
      {
      }
      pairs := pairs + more;
      fields := fields - {f};
    }
    assert numerics.Keys - {} == numerics.Keys;
  }

  method Build(docs: seq<ConstraintDoc>) returns (pairs: set<IdPair>)
    ensures IsGraphOf(pairs, docs)
  {
    hide FromOrderings, FromFields, FromReferences, IsGraphOf, AllOrderings, AllThresholds, EntriesOf, FromBounds;
    var orderings, numerics := CollectAll(docs);
    pairs := OrderingPairs(orderings);
    var byField := AllFieldPairs(numerics);
    var references := ReferencePairs(docs);
    pairs := pairs + byField + references;
    forall p
      ensures p in pairs <==> IsKey(docs, p)
    {
      FieldsAreEnough(docs, numerics, p);
    }
    KeysMakeTheGraph(pairs, docs);
  }

  lemma FieldsAreEnough(docs: seq<ConstraintDoc>, numerics: Numerics, p: IdPair)
    requires forall f :: EntriesOf(numerics, f) == AllThresholds(docs, f)
    ensures (exists f :: FromBounds(AllThresholds(docs, f), p)) <==>
      FromFields(numerics, numerics.Keys, p)
  {
    hide AllThresholds;
    if f :| FromBounds(AllThresholds(docs, f), p) {
      var le, ge :|
        le in AllThresholds(docs, f) && ge in AllThresholds(docs, f) && Clash(le, ge)
        && p == CanonicalPair(le.id, ge.id);
      assert f in numerics && numerics[f] == AllThresholds(docs, f);
    }
    if f :| f in numerics.Keys && FromBounds(numerics[f], p) {
      assert numerics[f] == EntriesOf(numerics, f) == AllThresholds(docs, f);
    }
  }

  // ---------------------------------------------------------------------------
  // Asking the graph
  // ---------------------------------------------------------------------------

  predicate AreConflicting(pairs: set<IdPair>, a: string, b: string) {
    CanonicalPair(a, b) in pairs
  }

  function ConflictsFor(pairs: set<IdPair>, id: string): set<string> {
    set p | p in pairs && (p.0 == id || p.1 == id) :: if p.0 == id then p.1 else p.0
  }

  /** The relation is symmetric, and `ConflictsFor` lists exactly the conflicting ids. */
  lemma GraphIsSymmetric(pairs: set<IdPair>, docs: seq<ConstraintDoc>, a: string, b: string)
    requires IsGraphOf(pairs, docs)
    ensures AreConflicting(pairs, a, b) <==> AreConflicting(pairs, b, a)
    ensures b in ConflictsFor(pairs, a) <==> AreConflicting(pairs, a, b)
  {
    hide InConflict;
    CanonicalPairIsUnordered(a, b, a, b);
    if b in ConflictsFor(pairs, a) {
      var p :| p in pairs && (p.0 == a || p.1 == a) && b == if p.0 == a then p.1 else p.0;
    }
    if AreConflicting(pairs, a, b) {
      var p := CanonicalPair(a, b);
      assert p in pairs && (p == (a, b) || p == (b, a));
    }
  }

  /** Two different documents clash by order iff one enforces x before y and the other y before x. */
  lemma OrderingConflictIsOpposition(docs: seq<ConstraintDoc>, a: string, b: string)
    requires a != b
    ensures OrderingConflict(AllOrderings(docs), a, b) <==>
      exists x, y :: Enforces(docs, a, SemanticOrdering(x, y)) && Enforces(docs, b, SemanticOrdering(y, x))
  {
    hide AllOrderings, Enforces;
    var entries := AllOrderings(docs);
    if OrderingConflict(entries, a, b) {
      var i, j :| 0 <= i < |entries| && 0 <= j < |entries| && i != j
        && entries[i].id == a && entries[j].id == b && Opposed(entries[i], entries[j]);
      AllOrderingsAreEnforced(docs, entries[i]);
      AllOrderingsAreEnforced(docs, entries[j]);
    }
    if x, y :| Enforces(docs, a, SemanticOrdering(x, y)) && Enforces(docs, b, SemanticOrdering(y, x)) {
      AllOrderingsAreEnforced(docs, OrderingEntry(a, x, y));
      AllOrderingsAreEnforced(docs, OrderingEntry(b, y, x));
      var i :| 0 <= i < |entries| && entries[i] == OrderingEntry(a, x, y);
      var j :| 0 <= j < |entries| && entries[j] == OrderingEntry(b, y, x);
      assert Opposed(entries[i], entries[j]);
    }
  }

  ghost predicate Infeasible(docs: seq<ConstraintDoc>, a: string, b: string, field: string, upper: real, lower: real) {
    && lower > upper
    && Enforces(docs, a, NumericThreshold(field, Le, upper))
    && Enforces(docs, b, NumericThreshold(field, Ge, lower))
  }

  /** A clash by bounds is two enforced bounds on one field that leave no value. */
  lemma BoundsConflictIsInfeasibility(docs: seq<ConstraintDoc>, a: string, b: string)
    ensures BoundsConflict(docs, a, b) <==>
      exists field, upper, lower :: Infeasible(docs, a, b, field, upper, lower)
  {
    hide AllThresholds, Enforces;
    if BoundsConflict(docs, a, b) {
      var field :| ClashIn(AllThresholds(docs, field), a, b);
      var le, ge :| le in AllThresholds(docs, field) && ge in AllThresholds(docs, field)
        && le.id == a && ge.id == b && Clash(le, ge);
      AllThresholdsAreEnforced(docs, field, le);
      AllThresholdsAreEnforced(docs, field, ge);
      assert Infeasible(docs, a, b, field, le.value, ge.value);
    }
    if field, upper, lower :| Infeasible(docs, a, b, field, upper, lower) {
      var le, ge := NumericEntry(a, Le, upper), NumericEntry(b, Ge, lower);
      AllThresholdsAreEnforced(docs, field, le);
      AllThresholdsAreEnforced(docs, field, ge);
      assert Clash(le, ge) && ClashIn(AllThresholds(docs, field), a, b);
    }
  }

  /** On every output at least one of the two documents scores exactly 0. */
  ghost predicate Exclude(p: Predicate, q: Predicate) {
    forall env, output :: EvalSync(env, p, output) == 0.0 || EvalSync(env, q, output) == 0.0
  }

  predicate HasRule(docs: seq<ConstraintDoc>, id: string, rule: Predicate) {
    exists i :: 0 <= i < |docs| && docs[i].id == id && docs[i].rule == rule
  }

  /** Numeric verdicts are sound: no output satisfies both documents even in part. */
  lemma BoundsConflictIsSound(docs: seq<ConstraintDoc>, a: string, b: string)
    requires BoundsConflict(docs, a, b)
    ensures exists p, q :: HasRule(docs, a, p) && HasRule(docs, b, q) && Exclude(p, q)
  {
    hide BoundsConflict, Reaches, EvalSync;
    BoundsConflictIsInfeasibility(docs, a, b);
    var field, upper, lower :| Infeasible(docs, a, b, field, upper, lower);
    var i :| 0 <= i < |docs| && docs[i].id == a && Reaches(docs[i].rule, NumericThreshold(field, Le, upper));
    var j :| 0 <= j < |docs| && docs[j].id == b && Reaches(docs[j].rule, NumericThreshold(field, Ge, lower));
    forall env, output
      ensures EvalSync(env, docs[i].rule, output) == 0.0 || EvalSync(env, docs[j].rule, output) == 0.0
    {
      IncompatibleBoundsExclude(env, docs[i].rule, docs[j].rule, field, upper, lower, output);
    }
    assert HasRule(docs, a, docs[i].rule) && HasRule(docs, b, docs[j].rule) && Exclude(docs[i].rule, docs[j].rule);
  }
}
