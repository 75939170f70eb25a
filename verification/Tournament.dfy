/** Merging proposals pairwise, round by round, until one is left. */
module Tournament {
  import opened Arithmetic
  import opened Wrappers

  type Proposal = string

  type AdapterError = string

  /** One adapter call: combines the current best with a challenger, or fails. */
  type Merge = (Proposal, Proposal) -> Result<Proposal, AdapterError>

  // ---------------------------------------------------------------------------
  // Brackets
  // ---------------------------------------------------------------------------

  datatype Tree = Leaf(proposal: Proposal) | Node(left: Tree, right: Tree)

  function Leaves(tree: Tree): seq<Proposal> {
    match tree
    case Leaf(p) => [p]
    case Node(left, right) => Leaves(left) + Leaves(right)
  }

  function Merges(tree: Tree): nat {
    match tree
    case Leaf(_) => 0
    case Node(left, right) => Merges(left) + Merges(right) + 1
  }

  function Depth(tree: Tree): nat {
    match tree
    case Leaf(_) => 0
    case Node(left, right) =>
      1 + if Depth(left) > Depth(right) then Depth(left) else Depth(right)
  }

  /** The outcome of all merges of a bracket. */
  function Eval(merge: Merge, tree: Tree): Result<Proposal, AdapterError> {
    match tree
    case Leaf(p) => Ok(p)
    case Node(left, right) =>
      var a, b := Eval(merge, left), Eval(merge, right);
      if a.Err? then a else if b.Err? then b else merge(a.value, b.value)
  }

  function Fringe(trees: seq<Tree>): seq<Proposal> {
    if trees == [] then [] else Fringe(trees[..|trees| - 1]) + Leaves(trees[|trees| - 1])
  }

  /** One round on brackets: neighbours pair up, an odd last one gets a bye. */
  function Round(trees: seq<Tree>): (next: seq<Tree>)
    ensures |next| == (|trees| + 1) / 2
  {
    seq((|trees| + 1) / 2, i requires 0 <= i < (|trees| + 1) / 2 =>
      if 2 * i + 1 < |trees| then Node(trees[2 * i], trees[2 * i + 1]) else trees[2 * i])
  }

  function Bracket(trees: seq<Tree>): Tree
    requires trees != []
    decreases |trees|
  {
    if |trees| == 1 then trees[0] else Bracket(Round(trees))
  }

  function LeavesOf(proposals: seq<Proposal>): seq<Tree> {
    seq(|proposals|, i requires 0 <= i < |proposals| => Leaf(proposals[i]))
  }

  function CeilLog2(n: nat): nat {
    if n <= 1 then 0 else 1 + CeilLog2((n + 1) / 2)
  }

  lemma {:induction false} CeilLog2IsLeast(n: nat)
    requires n > 0
    ensures n <= Pow(2, CeilLog2(n))
    ensures CeilLog2(n) > 0 ==> Pow(2, CeilLog2(n) - 1) < n
  {
    if n > 1 {
      CeilLog2IsLeast((n + 1) / 2);
    }
  }

  // ---------------------------------------------------------------------------
  // What every bracket gives
  // ---------------------------------------------------------------------------

  function TotalMerges(trees: seq<Tree>): nat {
    if trees == [] then 0 else TotalMerges(trees[..|trees| - 1]) + Merges(trees[|trees| - 1])
  }

  lemma Append(trees: seq<Tree>, tree: Tree)
    ensures Fringe(trees + [tree]) == Fringe(trees) + Leaves(tree)
    ensures TotalMerges(trees + [tree]) == TotalMerges(trees) + Merges(tree)
  {
    assert (trees + [tree])[..|trees|] == trees;
  }

  lemma RoundOfPair(trees: seq<Tree>, left: Tree, right: Tree)
    requires |trees| % 2 == 0
    ensures Round(trees + [left] + [right]) == Round(trees) + [Node(left, right)]
  {
  }

  lemma RoundOfBye(trees: seq<Tree>, last: Tree)
    requires |trees| % 2 == 0
    ensures Round(trees + [last]) == Round(trees) + [last]
  {
  }

  ghost predicate RoundIsFair(trees: seq<Tree>) {
    && Fringe(Round(trees)) == Fringe(trees)
    && TotalMerges(Round(trees)) == TotalMerges(trees) + |trees| / 2
  }

  lemma FairAfterPair(trees: seq<Tree>, left: Tree, right: Tree)
    requires |trees| % 2 == 0 && RoundIsFair(trees)
    ensures RoundIsFair(trees + [left] + [right])
  {
    hide Round, Fringe, TotalMerges;
    RoundOfPair(trees, left, right);
    Append(trees, left);
    Append(trees + [left], right);
    Append(Round(trees), Node(left, right));
  }

  lemma FairAfterBye(trees: seq<Tree>, last: Tree)
    requires |trees| % 2 == 0 && RoundIsFair(trees)
    ensures RoundIsFair(trees + [last])
  {
    hide Round, Fringe, TotalMerges;
    RoundOfBye(trees, last);
    Append(trees, last);
    Append(Round(trees), last);
  }

  /** A round keeps the proposals in their order and merges every full pair. */
  lemma {:induction false} RoundKeepsFringe(trees: seq<Tree>)
    ensures RoundIsFair(trees)
    decreases |trees|
  {
    hide *;
    var n := |trees| - 1;
    if n < 0 {
      FairWhenEmpty(trees);
    } else if n % 2 == 1 {
      LastTwo(trees);
      RoundKeepsFringe(trees[..n - 1]);
      FairAfterPair(trees[..n - 1], trees[n - 1], trees[n]);
    } else {
      LastOne(trees);
      RoundKeepsFringe(trees[..n]);
      FairAfterBye(trees[..n], trees[n]);
    }
  }

  lemma FairWhenEmpty(trees: seq<Tree>)
    requires trees == []
    ensures RoundIsFair(trees)
  {
    assert Round(trees) == [];
  }

  lemma LastOne(trees: seq<Tree>)
    requires |trees| >= 1
    ensures trees == trees[..|trees| - 1] + [trees[|trees| - 1]]
  {
  }

  lemma LastTwo(trees: seq<Tree>)
    requires |trees| >= 2
    ensures trees == trees[..|trees| - 2] + [trees[|trees| - 2]] + [trees[|trees| - 1]]
  {
  }

  /** A bracket uses its entrants left to right and adds one merge per entrant but one. */
  lemma {:induction false} BracketShape(trees: seq<Tree>, d: nat)
    requires trees != [] && forall i :: 0 <= i < |trees| ==> Depth(trees[i]) <= d
    ensures Leaves(Bracket(trees)) == Fringe(trees)
    ensures Merges(Bracket(trees)) == TotalMerges(trees) + |trees| - 1
    ensures Depth(Bracket(trees)) <= d + CeilLog2(|trees|)
    decreases |trees|
  {
    if |trees| == 1 {
      assert trees[..0] == [];
    } else {
      BracketShape(Round(trees), d + 1);
      RoundKeepsFringe(trees);
    }
  }

  lemma {:induction false} FreshLeaves(proposals: seq<Proposal>)
    ensures Fringe(LeavesOf(proposals)) == proposals && TotalMerges(LeavesOf(proposals)) == 0
    decreases |proposals|
  {
    var trees := LeavesOf(proposals);
    if proposals != [] {
      FreshLeaves(proposals[..|proposals| - 1]);
      assert trees[..|trees| - 1] == LeavesOf(proposals[..|proposals| - 1]);
    }
  }

  /** A tree of depth d has at most 2^d leaves. */
  lemma {:induction false} DepthBoundsLeaves(tree: Tree)
    ensures |Leaves(tree)| <= Pow(2, Depth(tree))
  {
    match tree
    case Leaf(_) =>
    case Node(left, right) =>
      DepthBoundsLeaves(left);
      DepthBoundsLeaves(right);
      PowersGrow(Depth(left), Depth(tree) - 1);
      PowersGrow(Depth(right), Depth(tree) - 1);
  }

  lemma {:induction false} PowersGrow(k: nat, n: nat)
    requires k <= n
    ensures 0 < Pow(2, k) <= Pow(2, n)
  {
    if k > 0 {
      PowersGrow(k - 1, n - 1);
    } else if n > 0 {
      PowersGrow(0, n - 1);
    }
  }

  lemma DepthIsLeast(tree: Tree, n: nat)
    requires |Leaves(tree)| == n > 0
    ensures Depth(tree) >= CeilLog2(n)
  {
    hide *;
    DepthBoundsLeaves(tree);
    CeilLog2IsLeast(n);
    if Depth(tree) < CeilLog2(n) {
      PowersGrow(Depth(tree), CeilLog2(n) - 1);
    }
  }

  /** The tournament's bracket: every proposal once, in order; n - 1 merges; the least depth there is. */
  lemma TournamentShape(proposals: seq<Proposal>)
    requires proposals != []
    ensures var tree := Bracket(LeavesOf(proposals));
      && Leaves(tree) == proposals
      && Merges(tree) == |proposals| - 1
      && Depth(tree) == CeilLog2(|proposals|)
  {
    FreshLeaves(proposals);
    BracketShape(LeavesOf(proposals), 0);
    DepthIsLeast(Bracket(LeavesOf(proposals)), |proposals|);
  }

  function FoldLeft(op: (Proposal, Proposal) -> Proposal, items: seq<Proposal>): Proposal
    requires items != []
  {
    if |items| == 1 then items[0] else op(FoldLeft(op, items[..|items| - 1]), items[|items| - 1])
  }

  ghost predicate Associative(op: (Proposal, Proposal) -> Proposal) {
    forall a, b, c :: op(op(a, b), c) == op(a, op(b, c))
  }

  lemma {:induction false} FoldSplits(op: (Proposal, Proposal) -> Proposal, s: seq<Proposal>, t: seq<Proposal>)
    requires Associative(op) && s != [] && t != []
    ensures FoldLeft(op, s + t) == op(FoldLeft(op, s), FoldLeft(op, t))
    decreases |t|
  {
    var n := |t| - 1;
    assert (s + t)[..|s| + n] == s + t[..n];
    if n > 0 {
      FoldSplits(op, s, t[..n]);
    } else {
      assert s + t[..n] == s;
    }
  }

  lemma {:induction false} LeavesNonEmpty(tree: Tree)
    ensures Leaves(tree) != []
  {
    match tree
    case Leaf(_) =>
    case Node(left, _) => LeavesNonEmpty(left);
  }

  /** For an associative merge that never fails the bracket does not matter: it is the left fold. */
  lemma {:induction false} AnyBracketIsTheFold(op: (Proposal, Proposal) -> Proposal, tree: Tree)
    requires Associative(op)
    ensures Leaves(tree) != [] && Eval((a, b) => Ok(op(a, b)), tree) == Ok(FoldLeft(op, Leaves(tree)))
  {
    match tree
    case Leaf(_) =>
    case Node(left, right) =>
      AnyBracketIsTheFold(op, left);
      AnyBracketIsTheFold(op, right);
      FoldSplits(op, Leaves(left), Leaves(right));
  }

  // ---------------------------------------------------------------------------
  // The tournament
  // ---------------------------------------------------------------------------

  method SplitPairs(items: seq<Proposal>) returns (pairs: seq<(Proposal, Proposal)>, bye: Option<Proposal>)
    ensures |pairs| == |items| / 2
    ensures forall i :: 0 <= i < |pairs| ==> pairs[i] == (items[2 * i], items[2 * i + 1])
    ensures bye == if |items| % 2 == 1 then Some(items[|items| - 1]) else None
  {
    pairs, bye := [], None;
    var at := 0;
    while true
      invariant at == 2 * |pairs| <= |items|
      invariant forall i :: 0 <= i < |pairs| ==> pairs[i] == (items[2 * i], items[2 * i + 1])
      decreases |items| - at
    {
      if at + 1 < |items| {
        pairs := pairs + [(items[at], items[at + 1])];
        at := at + 2;
      } else if at < |items| {
        bye := Some(items[at]);
        break;
      } else {
        break;
      }
    }
  }

  /** The entrants are the outcomes of their brackets. */
  ghost predicate Played(merge: Merge, trees: seq<Tree>, current: seq<Proposal>) {
    && |trees| == |current|
    && forall i :: 0 <= i < |trees| ==> Eval(merge, trees[i]) == Ok(current[i])
  }

  /** Merge i of the next round fails with this error, and no merge before it fails. */
  ghost predicate FailsFirst(merge: Merge, trees: seq<Tree>, i: nat, error: AdapterError) {
    && i < |Round(trees)| && Eval(merge, Round(trees)[i]) == Err(error)
    && forall j :: 0 <= j < i ==> Eval(merge, Round(trees)[j]).Ok?
  }

  /** All merges of one round are made; the first failure in order is reported. */
  method PlayRound(merge: Merge, current: seq<Proposal>, ghost trees: seq<Tree>)
    returns (r: Result<seq<Proposal>, AdapterError>, ghost calls: nat)
    requires Played(merge, trees, current)
    ensures r.Ok? ==> Played(merge, Round(trees), r.value)
    ensures r.Err? ==> exists i: nat :: FailsFirst(merge, trees, i, r.error)
    ensures calls == |current| / 2
  {
    calls := 0;
    var pairs, bye := SplitPairs(current);
    var merged := [];
    var failure: Option<AdapterError> := None;
    ghost var next := Round(trees);
    ghost var first: nat := 0;
    for i := 0 to |pairs|
      invariant calls == i
      invariant failure.None? ==> |merged| == i
      invariant failure.None? ==> forall j :: 0 <= j < i ==> Eval(merge, next[j]) == Ok(merged[j])
      invariant failure.Some? ==> FailsFirst(merge, trees, first, failure.value)
    {
      var outcome := merge(pairs[i].0, pairs[i].1);
      calls := calls + 1;
      assert next[i] == Node(trees[2 * i], trees[2 * i + 1]);
      assert Eval(merge, next[i]) == outcome;
      if outcome.Err? && failure.None? {
        failure := Some(outcome.error);
        first := i;
      } else if outcome.Ok? {
        merged := merged + [outcome.value];
      }
    }
    if failure.Some? {
      return Err(failure.value), calls;
    }
    if bye.Some? {
      merged := merged + [bye.value];
    }
    return Ok(merged), calls;
  }

  /** An entrant of any round that cannot be played spoils the whole bracket. */
  lemma {:induction false} FailureSpoilsBracket(merge: Merge, trees: seq<Tree>, i: nat)
    requires i < |trees| && Eval(merge, trees[i]).Err?
    ensures Eval(merge, Bracket(trees)).Err?
    decreases |trees|
  {
    if |trees| > 1 {
      var next := Round(trees);
      assert next[i / 2] ==
        if 2 * (i / 2) + 1 < |trees| then Node(trees[2 * (i / 2)], trees[2 * (i / 2) + 1]) else trees[i];
      FailureSpoilsBracket(merge, next, i / 2);
    }
  }

  /** The brackets after k rounds. */
  function Rounds(trees: seq<Tree>, k: nat): seq<Tree> {
    if k == 0 then trees else Round(Rounds(trees, k - 1))
  }

  ghost predicate AllSucceed(merge: Merge, trees: seq<Tree>) {
    forall j :: 0 <= j < |trees| ==> Eval(merge, trees[j]).Ok?
  }

  /** All merges of the first k rounds succeed, and merge i is the first of round k + 1 to fail. */
  ghost predicate FirstFailure(merge: Merge, trees: seq<Tree>, k: nat, i: nat, error: AdapterError) {
    && AllSucceed(merge, Rounds(trees, k))
    && FailsFirst(merge, Rounds(trees, k), i, error)
  }

  lemma RoundSucceedsAfter(merge: Merge, trees: seq<Tree>)
    requires AllSucceed(merge, Round(trees))
    ensures AllSucceed(merge, trees)
  {
    forall j | 0 <= j < |trees|
      ensures Eval(merge, trees[j]).Ok?
    {
      var parent := Round(trees)[j / 2];
      assert Eval(merge, parent).Ok?;
      assert j == 2 * (j / 2) || j == 2 * (j / 2) + 1;
    }
  }

  lemma {:induction false} RoundsSucceedBefore(merge: Merge, trees: seq<Tree>, k: nat, n: nat)
    requires k <= n && AllSucceed(merge, Rounds(trees, n))
    ensures AllSucceed(merge, Rounds(trees, k))
  {
    hide AllSucceed, Round;
    if k < n {
      RoundSucceedsAfter(merge, Rounds(trees, n - 1));
      RoundsSucceedBefore(merge, trees, k, n - 1);
    }
  }

  lemma NoRoundSucceedsAfter(merge: Merge, trees: seq<Tree>, k: nat, i: nat, e: AdapterError, n: nat)
    requires FirstFailure(merge, trees, k, i, e) && AllSucceed(merge, Rounds(trees, n))
    ensures n <= k
  {
    hide Round, Eval;
    if k < n {
      RoundsSucceedBefore(merge, trees, k + 1, n);
    }
  }

  /** There is one first failure, so the reported error is determined. */
  lemma FirstFailureIsUnique(merge: Merge, trees: seq<Tree>, k: nat, i: nat, e: AdapterError,
                             n: nat, j: nat, d: AdapterError)
    requires FirstFailure(merge, trees, k, i, e) && FirstFailure(merge, trees, n, j, d)
    ensures k == n && i == j && e == d
  {
    hide Round, Eval, Rounds, AllSucceed;
    NoRoundSucceedsAfter(merge, trees, k, i, e, n);
    NoRoundSucceedsAfter(merge, trees, n, j, d, k);
  }

  lemma FailureIsFirst(merge: Merge, proposals: seq<Proposal>, current: seq<Proposal>, k: nat, i: nat, e: AdapterError)
    requires Played(merge, Rounds(LeavesOf(proposals), k), current)
    requires FailsFirst(merge, Rounds(LeavesOf(proposals), k), i, e)
    ensures FirstFailure(merge, LeavesOf(proposals), k, i, e)
    ensures i < |Round(Rounds(LeavesOf(proposals), k))|
    ensures Eval(merge, Round(Rounds(LeavesOf(proposals), k))[i]).Err?
  {
    hide Eval, Rounds, Round, LeavesOf;
  }

  /**
   Succeeds exactly when every merge of the bracket does, with the outcome of the bracket; otherwise
   the error is that of the first failure, round by round and in order within the round. It succeeds
   after ⌈log₂ n⌉ rounds; without proposals the result is empty.
   */
  method TournamentMerge(merge: Merge, proposals: seq<Proposal>)
    returns (r: Result<Proposal, AdapterError>, ghost rounds: nat, ghost merges: nat)
    ensures proposals == [] ==> r == Ok([])
    ensures proposals != [] ==>
      var outcome := Eval(merge, Bracket(LeavesOf(proposals)));
      (r.Ok? <==> outcome.Ok?) && (r.Ok? ==> r == outcome)
    ensures r.Err? ==> exists k: nat, i: nat :: FirstFailure(merge, LeavesOf(proposals), k, i, r.error)
    ensures r.Ok? ==> rounds == CeilLog2(|proposals|)
    ensures r.Ok? && proposals != [] ==> merges == |proposals| - 1
  {
    hide FirstFailure, FailsFirst, Round;
    rounds, merges := 0, 0;
    if proposals == [] {
      return Ok([]), 0, 0;
    }
    var current := proposals;
    ghost var trees := LeavesOf(proposals);
    while |current| > 1
      invariant trees != [] && Played(merge, trees, current) && trees == Rounds(LeavesOf(proposals), rounds)
      invariant Bracket(trees) == Bracket(LeavesOf(proposals))
      invariant merges + |current| == |proposals|
      invariant rounds + CeilLog2(|current|) == CeilLog2(|proposals|)
      decreases |current|
    {
      ghost var calls;
      var next;
      next, calls := PlayRound(merge, current, trees);
      merges := merges + calls;
      if next.Err? {
        ghost var i: nat :| FailsFirst(merge, trees, i, next.error);
        FailureIsFirst(merge, proposals, current, rounds, i, next.error);
        FailureSpoilsBracket(merge, Round(trees), i);
        return Err(next.error), rounds, merges;
      }
      current := next.value;
      trees := Round(trees);
      rounds := rounds + 1;
    }
    return Ok(current[0]), rounds, merges;
  }
}
