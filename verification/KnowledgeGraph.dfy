/**
 The constraint graph of the knowledge provider: how `Build` turns node declarations
 into a normalised adjacency, and how `Ppr` runs the power iteration over it.
 */
module KnowledgeGraph {
  import opened Arithmetic
  import opened Collections
  import opened Ranking
  import opened RealVectors
  import opened PageRank

  datatype KnowledgeNode = KnowledgeNode(id: string, related: seq<string>, crossReferences: seq<string>)

  datatype Edge = Edge(dst: nat, weight: real)

  datatype ConstraintGraph = ConstraintGraph(nodeIds: seq<string>, idToIdx: map<string, nat>, adj: seq<seq<Edge>>)

  // ---------------------------------------------------------------------------
  // Which edges the declarations ask for
  // ---------------------------------------------------------------------------

  /** Inserting ids in order leaves each at its last position. */
  function IndexIds(ids: seq<string>): (index: map<string, nat>)
    ensures forall id :: id in index <==> id in ids
    ensures forall id :: id in index ==> index[id] < |ids| && ids[index[id]] == id
    ensures forall i :: 0 <= i < |ids| ==> i <= index[ids[i]]
  {
    if ids == [] then map[]
    else
      var n := |ids| - 1;
      assert ids == ids[..n] + [ids[n]];
      IndexIds(ids[..n])[ids[n] := n]
  }

  function Neighbours(node: KnowledgeNode): seq<string> {
    node.related + node.crossReferences
  }

  /** Node m names, as a neighbour, an id other than its own that resolves to j; its own id resolves to i. */
  ghost predicate Declares(nodes: seq<KnowledgeNode>, index: map<string, nat>, m: nat, i: nat, j: nat) {
    && m < |nodes|
    && nodes[m].id in index && index[nodes[m].id] == i
    && i != j
    && exists id ::
      && (id in nodes[m].related || id in nodes[m].crossReferences)
      && id in index && index[id] == j
  }

  ghost predicate Linked(nodes: seq<KnowledgeNode>, index: map<string, nat>, i: nat, j: nat) {
    exists m: nat :: Declares(nodes, index, m, i, j) || Declares(nodes, index, m, j, i)
  }

  // ---------------------------------------------------------------------------
  // Build
  // ---------------------------------------------------------------------------

  type RawAdjacency = seq<set<nat>>

  /** Adjacency after linking src to every resolvable neighbour, both ways. */
  ghost predicate LinkedTo(before: RawAdjacency, after: RawAdjacency, src: nat, targets: set<nat>) {
    && |after| == |before|
    && (forall i: nat, j: nat {:trigger j in before[i]} {:trigger j in after[i]} :: i < |before| ==>
          (j in after[i] <==> j in before[i] || (i == src && j in targets) || (j == src && i in targets)))
  }

  /** The nodes other than src that the neighbour ids resolve to. */
  function Resolved(index: map<string, nat>, src: nat, neighbours: seq<string>): (targets: set<nat>)
    ensures forall j :: j in targets <==>
      j != src && exists k :: 0 <= k < |neighbours| && neighbours[k] in index && index[neighbours[k]] == j
  {
    if neighbours == [] then {}
    else
      var id := neighbours[|neighbours| - 1];
      var rest := Resolved(index, src, neighbours[..|neighbours| - 1]);
      if id in index && index[id] != src then rest + {index[id]} else rest
  }

  lemma LinkOne(raw: RawAdjacency, before: RawAdjacency, after: RawAdjacency, src: nat, dst: nat, targets: set<nat>)
    requires LinkedTo(raw, before, src, targets) && src < |raw| && dst < |raw| && src != dst
    requires after == before[src := before[src] + {dst}][dst := before[dst] + {src}]
    ensures LinkedTo(raw, after, src, targets + {dst})
  {
    forall i: nat, j: nat | i < |raw|
      ensures j in after[i] <==> j in raw[i] || (i == src && j in targets + {dst}) || (j == src && i in targets + {dst})
    {
      assert j in before[i] <==> j in raw[i] || (i == src && j in targets) || (j == src && i in targets);
    }
  }

  method LinkNeighbours(raw: RawAdjacency, index: map<string, nat>, src: nat, neighbours: seq<string>)
    returns (after: RawAdjacency)
    requires src < |raw| && forall id :: id in index ==> index[id] < |raw|
    ensures LinkedTo(raw, after, src, Resolved(index, src, neighbours))
  {
    after := raw;
    for c := 0 to |neighbours|
      invariant LinkedTo(raw, after, src, Resolved(index, src, neighbours[..c]))
    {
      var id := neighbours[c];
      assert neighbours[..c + 1][..c] == neighbours[..c];
      if id in index && index[id] != src {
        var dst := index[id];
        ghost var before := after;
        after := after[src := after[src] + {dst}];
        after := after[dst := after[dst] + {src}];
        LinkOne(raw, before, after, src, dst, Resolved(index, src, neighbours[..c]));
        assert Resolved(index, src, neighbours[..c + 1]) == Resolved(index, src, neighbours[..c]) + {dst};
      } else {
        assert Resolved(index, src, neighbours[..c + 1]) == Resolved(index, src, neighbours[..c]);
      }
    }
    assert neighbours[..|neighbours|] == neighbours;
  }

  /** The neighbour sets, before they become weighted edges. */
  method BuildRaw(nodes: seq<KnowledgeNode>, index: map<string, nat>) returns (raw: RawAdjacency)
    requires forall id :: id in index ==> index[id] < |nodes|
    requires forall m :: 0 <= m < |nodes| ==> nodes[m].id in index
    ensures |raw| == |nodes|
    ensures forall i: nat, j: nat :: i < |nodes| ==> (j in raw[i] <==> Linked(nodes, index, i, j))
  {
    raw := seq(|nodes|, _ => {});
    for m := 0 to |nodes|
      invariant |raw| == |nodes|
      invariant forall i: nat, j: nat :: i < |nodes| ==> (j in raw[i] <==> LinkedUpTo(nodes, index, m, i, j))
    {
      ghost var before := raw;
      var src := index[nodes[m].id];
      raw := LinkNeighbours(raw, index, src, Neighbours(nodes[m]));
      forall i: nat, j: nat | i < |nodes|
        ensures j in raw[i] <==> LinkedUpTo(nodes, index, m + 1, i, j)
      {
        NextNode(nodes, index, m, i, j);
        assert j in before[i] <==> LinkedUpTo(nodes, index, m, i, j);
        DeclaresIsResolved(nodes, index, m, i, j);
        DeclaresIsResolved(nodes, index, m, j, i);
        var targets := Resolved(index, src, Neighbours(nodes[m]));
        assert j in raw[i] <==> j in before[i] || (i == src && j in targets) || (j == src && i in targets);
      }
    }
    forall i: nat, j: nat | i < |nodes|
      ensures j in raw[i] <==> Linked(nodes, index, i, j)
    {
      assert LinkedUpTo(nodes, index, |nodes|, i, j) <==> Linked(nodes, index, i, j);
    }
  }

  ghost predicate LinkedUpTo(nodes: seq<KnowledgeNode>, index: map<string, nat>, k: nat, i: nat, j: nat) {
    exists m: nat :: m < k && (Declares(nodes, index, m, i, j) || Declares(nodes, index, m, j, i))
  }

  lemma NextNode(nodes: seq<KnowledgeNode>, index: map<string, nat>, k: nat, i: nat, j: nat)
    ensures LinkedUpTo(nodes, index, k + 1, i, j) <==>
      LinkedUpTo(nodes, index, k, i, j) || Declares(nodes, index, k, i, j) || Declares(nodes, index, k, j, i)
  {
  }

  lemma DeclaresIsResolved(nodes: seq<KnowledgeNode>, index: map<string, nat>, m: nat, i: nat, j: nat)
    requires m < |nodes| && nodes[m].id in index
    ensures Declares(nodes, index, m, i, j) <==>
      i == index[nodes[m].id] && j in Resolved(index, i, Neighbours(nodes[m]))
  {
    var node := nodes[m];
    forall id
      ensures (id in node.related || id in node.crossReferences) <==> id in Neighbours(node)
    {
    }
    if i != j && exists id :: id in Neighbours(node) && id in index && index[id] == j {
      var id :| id in Neighbours(node) && id in index && index[id] == j;
      assert id in node.related || id in node.crossReferences;
    }
  }

  function Targets(edges: seq<Edge>): set<nat> {
    set e | e in edges :: e.dst
  }

  /** A row of the adjacency: distinct targets sharing one unit of weight. */
  ghost predicate RowOf(edges: seq<Edge>) {
    && |edges| == |Targets(edges)|
    && (forall e :: e in edges ==> e.weight == 1.0 / |edges| as real)
    && (forall a, b :: 0 <= a < b < |edges| ==> edges[a].dst != edges[b].dst)
  }

  lemma TargetsGrow(edges: seq<Edge>, e: Edge)
    ensures Targets(edges + [e]) == Targets(edges) + {e.dst}
    ensures forall a :: 0 <= a < |edges| ==> edges[a].dst in Targets(edges)
  {
    assert forall a :: 0 <= a < |edges| ==> edges[a] in edges;
  }

  /** Edges of weight w to the neighbours that are not left. */
  ghost predicate PartialRow(edges: seq<Edge>, neighbours: set<nat>, left: set<nat>, w: real) {
    && left <= neighbours && Targets(edges) == neighbours - left && |edges| + |left| == |neighbours|
    && (forall e :: e in edges ==> e.weight == w)
    && (forall a, b :: 0 <= a < b < |edges| ==> edges[a].dst != edges[b].dst)
  }

  lemma RowGrows(edges: seq<Edge>, neighbours: set<nat>, left: set<nat>, w: real, dst: nat)
    requires PartialRow(edges, neighbours, left, w) && dst in left
    ensures PartialRow(edges + [Edge(dst, w)], neighbours, left - {dst}, w)
  {
    TargetsGrow(edges, Edge(dst, w));
    hide Targets;
    assert neighbours - (left - {dst}) == neighbours - left + {dst};
  }

  lemma RowIsFull(edges: seq<Edge>, neighbours: set<nat>, w: real)
    requires PartialRow(edges, neighbours, {}, w) && (neighbours != {} ==> w == 1.0 / |neighbours| as real)
    ensures RowOf(edges) && Targets(edges) == neighbours
  {
    hide Targets;
    RowIsUniform(edges, w);
  }

  /** Uniform weights, in whatever order the set is iterated. */
  method Normalise(neighbours: set<nat>) returns (edges: seq<Edge>)
    ensures RowOf(edges) && Targets(edges) == neighbours
  {
    edges := [];
    if neighbours == {} {
      assert Targets(edges) == {} && RowOf(edges);
      return;
    }
    var w := 1.0 / |neighbours| as real;
    var left := neighbours;
    assert PartialRow(edges, neighbours, left, w);
    hide Targets, RowOf, PartialRow;
    while left != {}
      invariant PartialRow(edges, neighbours, left, w)
    {
      var dst :| dst in left;
      RowGrows(edges, neighbours, left, w, dst);
      left := left - {dst};
      edges := edges + [Edge(dst, w)];
    }
    RowIsFull(edges, neighbours, w);
  }

  lemma RowIsUniform(edges: seq<Edge>, w: real)
    requires |edges| == |Targets(edges)| && (|edges| > 0 ==> w == 1.0 / |edges| as real)
    requires forall e :: e in edges ==> e.weight == w
    requires forall a, b :: 0 <= a < b < |edges| ==> edges[a].dst != edges[b].dst
    ensures RowOf(edges)
  {
    hide Targets;
  }

  function NeighbourSets(g: ConstraintGraph): seq<set<nat>> {
    seq(|g.adj|, i requires 0 <= i < |g.adj| => Targets(g.adj[i]))
  }

  ghost predicate WellFormed(g: ConstraintGraph) {
    && |g.adj| == |g.nodeIds|
    && g.idToIdx == IndexIds(g.nodeIds)
    && (forall i :: 0 <= i < |g.adj| ==> RowOf(g.adj[i]))
    && Undirected(NeighbourSets(g))
  }

  function Ids(nodes: seq<KnowledgeNode>): seq<string> {
    seq(|nodes|, i requires 0 <= i < |nodes| => nodes[i].id)
  }

  /** The built adjacency is symmetric, deduplicated and normalised, and has exactly the declared edges. */
  method Build(nodes: seq<KnowledgeNode>) returns (g: ConstraintGraph)
    ensures WellFormed(g)
    ensures |g.nodeIds| == |nodes| && forall i :: 0 <= i < |nodes| ==> g.nodeIds[i] == nodes[i].id
    ensures forall i: nat, j: nat :: i < |nodes| ==> (j in NeighbourSets(g)[i] <==> Linked(nodes, g.idToIdx, i, j))
  {
    hide *;
    var ids := Ids(nodes);
    var index := IndexIds(ids);
    IdsAreIndexed(nodes);
    var raw := BuildRaw(nodes, index);
    var adj := NormaliseAll(raw);
    g := ConstraintGraph(ids, index, adj);
    BuiltIsWellFormed(nodes, g, raw);
  }

  lemma IdsAreIndexed(nodes: seq<KnowledgeNode>)
    ensures forall m :: 0 <= m < |nodes| ==> nodes[m].id in IndexIds(Ids(nodes))
    ensures forall id :: id in IndexIds(Ids(nodes)) ==> IndexIds(Ids(nodes))[id] < |nodes|
  {
    forall m | 0 <= m < |nodes|
      ensures nodes[m].id in IndexIds(Ids(nodes))
    {
      assert Ids(nodes)[m] in Ids(nodes);
    }
  }

  lemma BuiltIsWellFormed(nodes: seq<KnowledgeNode>, g: ConstraintGraph, raw: RawAdjacency)
    requires g.nodeIds == Ids(nodes) && g.idToIdx == IndexIds(Ids(nodes)) && |g.adj| == |raw| == |nodes|
    requires forall i :: 0 <= i < |raw| ==> RowOf(g.adj[i]) && Targets(g.adj[i]) == raw[i]
    requires forall i: nat, j: nat :: i < |nodes| ==> (j in raw[i] <==> Linked(nodes, g.idToIdx, i, j))
    ensures WellFormed(g)
    ensures |g.nodeIds| == |nodes| && forall i :: 0 <= i < |nodes| ==> g.nodeIds[i] == nodes[i].id
    ensures forall i: nat, j: nat :: i < |nodes| ==> (j in NeighbourSets(g)[i] <==> Linked(nodes, g.idToIdx, i, j))
  {
    hide Linked, RowOf, Targets, IndexIds, Undirected;
    assert NeighbourSets(g) == raw;
    IdsAreIndexed(nodes);
    RawIsUndirected(nodes, g.idToIdx, raw);
  }

  lemma RawIsUndirected(nodes: seq<KnowledgeNode>, index: map<string, nat>, raw: RawAdjacency)
    requires |raw| == |nodes| && forall id :: id in index ==> index[id] < |nodes|
    requires forall i: nat, j: nat :: i < |nodes| ==> (j in raw[i] <==> Linked(nodes, index, i, j))
    ensures Undirected(raw)
  {
    hide Linked;
    forall s: nat, d: nat {:trigger d in raw[s]} | s < |raw| && d in raw[s]
      ensures d < |raw| && d != s && s in raw[d]
    {
      LinkedIsSymmetric(nodes, index, s, d);
    }
  }

  method NormaliseAll(raw: RawAdjacency) returns (adj: seq<seq<Edge>>)
    ensures |adj| == |raw|
    ensures forall i :: 0 <= i < |raw| ==> RowOf(adj[i]) && Targets(adj[i]) == raw[i]
  {
    adj := [];
    for i := 0 to |raw|
      invariant |adj| == i
      invariant forall k :: 0 <= k < i ==> RowOf(adj[k]) && Targets(adj[k]) == raw[k]
    {
      var edges := Normalise(raw[i]);
      adj := adj + [edges];
    }
  }

  lemma LinkedIsSymmetric(nodes: seq<KnowledgeNode>, index: map<string, nat>, i: nat, j: nat)
    requires Linked(nodes, index, i, j) && forall id :: id in index ==> index[id] < |nodes|
    ensures i != j && i < |nodes| && j < |nodes| && Linked(nodes, index, j, i)
  {
    var m :| Declares(nodes, index, m, i, j) || Declares(nodes, index, m, j, i);
  }

  // ---------------------------------------------------------------------------
  // Power iteration
  // ---------------------------------------------------------------------------

  /** The restart probability in force. */
  function Restart(alpha: real): real {
    Clamp(alpha, 0.01, 0.99)
  }

  /** What the scattering loops have accumulated: the flow of the first k sources. */
  ghost predicate Scattered(g: ConstraintGraph, r: seq<real>, c: real, acc: seq<real>, k: nat)
    requires WellFormed(g) && |r| == |g.adj| && k <= |r|
  {
    |acc| == |r| && forall d :: 0 <= d < |r| ==> acc[d] == c * Inflow(NeighbourSets(g), r, d, k)
  }

  /** The part of a row's unit of weight that goes to d. */
  function Share(edges: seq<Edge>, d: nat): real {
    if d in Targets(edges) then 1.0 / |edges| as real else 0.0
  }

  lemma NextTarget(edges: seq<Edge>, c: nat)
    requires RowOf(edges) && c < |edges|
    ensures Targets(edges[..c + 1]) == Targets(edges[..c]) + {edges[c].dst}
    ensures edges[c].dst !in Targets(edges[..c])
  {
    assert edges[..c + 1] == edges[..c] + [edges[c]];
  }

  lemma RowWeight(edges: seq<Edge>, c: nat, mass: real)
    requires RowOf(edges) && c < |edges|
    ensures mass * edges[c].weight == mass * edges[0].weight
  {
    assert edges[c] in edges && edges[0] in edges;
  }

  /** What a full row of sends amounts to. */
  lemma RowIsShared(edges: seq<Edge>, mass: real, before: seq<real>, after: seq<real>, sent: real)
    requires RowOf(edges) && |before| == |after|
    requires edges != [] ==> sent == mass * edges[0].weight
    requires forall d :: 0 <= d < |before| ==> after[d] == before[d] + (if d in Targets(edges) then sent else 0.0)
    ensures forall d :: 0 <= d < |before| ==> after[d] == before[d] + mass * Share(edges, d)
  {
    forall d | 0 <= d < |before|
      ensures after[d] == before[d] + mass * Share(edges, d)
    {
      if d in Targets(edges) {
        assert edges[0] in edges;
      }
    }
  }

  /** Sends one source's mass along its edges. */
  method ScatterRow(edges: seq<Edge>, mass: real, acc: array<real>)
    requires RowOf(edges) && forall e :: e in edges ==> e.dst < acc.Length
    modifies acc
    ensures forall d :: 0 <= d < acc.Length ==> acc[d] == old(acc[d]) + mass * Share(edges, d)
  {
    hide Share, Targets, RowOf;
    ghost var sent := if edges == [] then 0.0 else mass * edges[0].weight;
    NoTargets();
    for c := 0 to |edges|
      invariant forall d :: 0 <= d < acc.Length ==>
        acc[d] == old(acc[d]) + (if d in Targets(edges[..c]) then sent else 0.0)
    {
      var edge := edges[c];
      NextTarget(edges, c);
      RowWeight(edges, c, mass);
      acc[edge.dst] := acc[edge.dst] + mass * edge.weight;
    }
    assert edges[..|edges|] == edges;
    RowIsShared(edges, mass, old(acc[..]), acc[..], sent);
  }

  lemma NoTargets()
    ensures Targets([]) == {}
  {
  }

  lemma ScatterAddsTerm(c: real, x: real, w: real, inflow: real, next: real, before: real, after: real)
    requires before == c * inflow && after == before + (c * x) * w && next == inflow + x * w
    ensures after == c * next
  {
    assert c * next == c * inflow + c * (x * w);
    assert c * (x * w) == (c * x) * w;
  }

  lemma WeightIsShare(g: ConstraintGraph, k: nat, d: nat)
    requires WellFormed(g) && k < |g.adj|
    ensures |NeighbourSets(g)| == |g.adj| && Weight(NeighbourSets(g), k, d) == Share(g.adj[k], d)
  {
    assert RowOf(g.adj[k]);
  }

  lemma ScatteredTerm(g: ConstraintGraph, x: seq<real>, c: real, before: real, after: real, k: nat, d: nat)
    requires WellFormed(g) && |x| == |g.adj| && k < |x| && d < |x|
    requires before == c * Inflow(NeighbourSets(g), x, d, k) && after == before + (c * x[k]) * Share(g.adj[k], d)
    ensures after == c * Inflow(NeighbourSets(g), x, d, k + 1)
  {
    hide Weight, Share, WellFormed, NeighbourSets;
    WeightIsShare(g, k, d);
    ScatterAddsTerm(c, x[k], Share(g.adj[k], d), Inflow(NeighbourSets(g), x, d, k),
                    Inflow(NeighbourSets(g), x, d, k + 1), before, after);
  }

  lemma ScatteredNext(g: ConstraintGraph, x: seq<real>, c: real, before: seq<real>, after: seq<real>, k: nat)
    requires WellFormed(g) && |x| == |g.adj| && k < |x| && Scattered(g, x, c, before, k) && |after| == |before|
    requires forall d :: 0 <= d < |x| ==> after[d] == before[d] + (c * x[k]) * Share(g.adj[k], d)
    ensures Scattered(g, x, c, after, k + 1)
  {
    hide Inflow, Share, WellFormed;
    forall d | 0 <= d < |x|
      ensures after[d] == c * Inflow(NeighbourSets(g), x, d, k + 1)
    {
      ScatteredTerm(g, x, c, before[d], after[d], k, d);
    }
  }

  lemma NothingToScatter(c: real, x: real, before: seq<real>, edges: seq<Edge>)
    requires x == 0.0
    ensures forall d :: 0 <= d < |before| ==> before[d] == before[d] + (c * x) * Share(edges, d)
  {
    assert c * x == 0.0;
  }

  method ScatterAll(g: ConstraintGraph, c: real, r: array<real>, acc: array<real>)
    requires WellFormed(g) && r.Length == acc.Length == |g.adj| && acc != r
    modifies acc
    ensures Scattered(g, r[..], c, acc[..], r.Length)
  {
    hide *;
    ghost var x := r[..];
    for i := 0 to acc.Length
      invariant forall d :: 0 <= d < i ==> acc[d] == 0.0
    {
      acc[i] := 0.0;
    }
    NothingScattered(g, x, c, acc[..]);
    for src := 0 to r.Length
      invariant Scattered(g, x, c, acc[..], src)
    {
      ghost var before := acc[..];
      TargetsInRange(g, src);
      if r[src] == 0.0 {
        NothingToScatter(c, r[src], before, g.adj[src]);
      } else {
        ScatterRow(g.adj[src], c * r[src], acc);
      }
      ScatteredNext(g, x, c, before, acc[..], src);
    }
  }

  lemma TargetsInRange(g: ConstraintGraph, src: nat)
    requires WellFormed(g) && src < |g.adj|
    ensures RowOf(g.adj[src])
    ensures forall e :: e in g.adj[src] ==> e.dst < |g.adj|
  {
    assert NeighbourSets(g)[src] == Targets(g.adj[src]);
    assert forall e :: e in g.adj[src] ==> e.dst in NeighbourSets(g)[src];
  }

  lemma NothingScattered(g: ConstraintGraph, x: seq<real>, c: real, acc: seq<real>)
    requires WellFormed(g) && |x| == |g.adj| == |acc| && forall d :: 0 <= d < |acc| ==> acc[d] == 0.0
    ensures Scattered(g, x, c, acc, 0)
  {
  }

  /** One round of the iteration: scatter every source, then teleport. */
  method PowerStep(g: ConstraintGraph, alpha: real, personal: array<real>, r: array<real>, newR: array<real>)
    requires WellFormed(g) && personal.Length == r.Length == newR.Length == |g.adj|
    requires newR != r && newR != personal
    modifies newR
    ensures newR[..] == Step(NeighbourSets(g), personal[..], alpha, r[..])
  {
    hide WellFormed, Step, Scattered, NeighbourSets;
    ScatterAll(g, 1.0 - alpha, r, newR);
    ghost var flowed := newR[..];
    for i := 0 to newR.Length
      invariant forall d :: 0 <= d < i ==> newR[d] == flowed[d] + alpha * personal[d]
      invariant forall d :: i <= d < newR.Length ==> newR[d] == flowed[d]
    {
      newR[i] := newR[i] + alpha * personal[i];
    }
    TeleportedIsStep(g, alpha, personal[..], r[..], flowed, newR[..]);
  }

  lemma TeleportedIsStep(
    g: ConstraintGraph, alpha: real, p: seq<real>, x: seq<real>, flowed: seq<real>, after: seq<real>)
    requires WellFormed(g) && |p| == |x| == |g.adj| == |after| == |flowed|
    requires Scattered(g, x, 1.0 - alpha, flowed, |x|)
    requires forall d :: 0 <= d < |x| ==> after[d] == flowed[d] + alpha * p[d]
    ensures |NeighbourSets(g)| == |x| && after == Step(NeighbourSets(g), p, alpha, x)
  {
    hide Inflow, Step, RowOf, Undirected, IndexIds, Targets;
    StepAt(NeighbourSets(g), p, alpha, x, |x|);
    forall d | 0 <= d < |x|
      ensures after[d] == Step(NeighbourSets(g), p, alpha, x)[d]
    {
      StepAt(NeighbourSets(g), p, alpha, x, d);
    }
  }

  lemma StepAt(nbrs: seq<set<nat>>, p: seq<real>, alpha: real, x: seq<real>, d: nat)
    requires |nbrs| == |p| == |x|
    ensures |Step(nbrs, p, alpha, x)| == |x|
    ensures d < |x| ==> Step(nbrs, p, alpha, x)[d] == alpha * p[d] + (1.0 - alpha) * Inflow(nbrs, x, d, |x|)
  {
    hide Inflow;
  }

  // ---------------------------------------------------------------------------
  // The query
  // ---------------------------------------------------------------------------

  function SeedIndices(g: ConstraintGraph, seedIds: seq<string>): seq<nat> {
    if seedIds == [] then []
    else
      var rest := SeedIndices(g, seedIds[..|seedIds| - 1]);
      var id := seedIds[|seedIds| - 1];
      if id in g.idToIdx then rest + [g.idToIdx[id]] else rest
  }

  /** Non-seed nodes with a positive score, in index order. */
  function Hits(g: ConstraintGraph, seeds: seq<nat>, r: seq<real>, k: nat): seq<Scored<string>>
    requires |r| == |g.nodeIds| && k <= |r|
  {
    if k == 0 then []
    else
      var rest := Hits(g, seeds, r, k - 1);
      if k - 1 !in seeds && r[k - 1] > 0.0 then rest + [Scored(g.nodeIds[k - 1], r[k - 1])] else rest
  }

  /** Every hit, before sorting and truncation. */
  function AllHits(g: ConstraintGraph, seedIds: seq<string>, alpha: real, maxIter: nat): seq<Scored<string>>
    requires |g.adj| == |g.nodeIds|
  {
    var seeds := SeedIndices(g, seedIds);
    if seeds == [] then []
    else
      var r := Iterate(NeighbourSets(g), Personal(|g.nodeIds|, seeds), Restart(alpha), maxIter);
      Hits(g, seeds, r, |r|)
  }

  method Ppr(g: ConstraintGraph, seedIds: seq<string>, alpha: real, topK: nat, maxIter: nat)
    returns (results: seq<Scored<string>>)
    requires WellFormed(g)
    ensures results == TopK(AllHits(g, seedIds, alpha, maxIter), topK)
  {
    var a := Restart(alpha);
    var n := |g.nodeIds|;
    var seeds := SeedIndices(g, seedIds);
    if n == 0 || seeds == [] {
      return [];
    }
    var personal := new real[n](i requires 0 <= i < n => if i in seeds then 1.0 / |seeds| as real else 0.0);
    var r := new real[n](i requires 0 <= i < n => if i in seeds then 1.0 / |seeds| as real else 0.0);
    var newR := new real[n](_ => 0.0);
    ghost var nbrs, p := NeighbourSets(g), Personal(n, seeds);
    assert personal[..] == p && r[..] == p;
    for t := 0 to maxIter
      invariant r.Length == newR.Length == n && r != newR && newR != personal && r != personal
      invariant fresh(r) && fresh(newR)
      invariant personal[..] == p && r[..] == Iterate(nbrs, p, a, t)
    {
      PowerStep(g, a, personal, r, newR);
      r, newR := newR, r;
    }
    return TopK(Hits(g, seeds, r[..], n), topK);
  }

  // ---------------------------------------------------------------------------
  // What a query returns
  // ---------------------------------------------------------------------------

  /** Where the seed ids are known. */
  ghost function KnownAt(g: ConstraintGraph, seedIds: seq<string>): set<nat> {
    set k: nat | k < |seedIds| && seedIds[k] in g.idToIdx
  }

  lemma KnownAtExtends(g: ConstraintGraph, seedIds: seq<string>, n: nat)
    requires |seedIds| == n + 1
    ensures n !in KnownAt(g, seedIds[..n])
    ensures KnownAt(g, seedIds) == KnownAt(g, seedIds[..n]) + if seedIds[n] in g.idToIdx then {n} else {}
  {
  }

  lemma NothingKnown(g: ConstraintGraph)
    ensures KnownAt(g, []) == {}
  {
  }

  lemma {:induction false} SeedsAreCounted(g: ConstraintGraph, seedIds: seq<string>)
    ensures |SeedIndices(g, seedIds)| == |KnownAt(g, seedIds)|
    decreases |seedIds|
  {
    hide KnownAt;
    if seedIds == [] {
      NothingKnown(g);
    } else {
      SeedsAreCounted(g, seedIds[..|seedIds| - 1]);
      KnownAtExtends(g, seedIds, |seedIds| - 1);
    }
  }

  /** The seeds are the positions of the known seed ids, one for each time one is given. */
  lemma {:induction false} SeedsAreResolved(g: ConstraintGraph, seedIds: seq<string>, i: nat)
    ensures i in SeedIndices(g, seedIds) <==> exists id :: id in seedIds && id in g.idToIdx && g.idToIdx[id] == i
    ensures |SeedIndices(g, seedIds)| == |KnownAt(g, seedIds)|
    decreases |seedIds|
  {
    SeedsAreCounted(g, seedIds);
    if seedIds != [] {
      SeedsAreResolved(g, seedIds[..|seedIds| - 1], i);
      assert seedIds == seedIds[..|seedIds| - 1] + [seedIds[|seedIds| - 1]];
    }
  }

  /** The entries are the scored ids of these positions, in order. */
  ghost predicate ListsPositions(
    g: ConstraintGraph, hits: seq<Scored<string>>, r: seq<real>, positions: seq<nat>)
  {
    && |hits| == |positions|
    && forall j :: 0 <= j < |hits| ==>
      positions[j] < |g.nodeIds| && positions[j] < |r|
      && hits[j] == Scored(g.nodeIds[positions[j]], r[positions[j]])
  }

  lemma {:induction false} HitsAreFiltered(g: ConstraintGraph, seeds: seq<nat>, r: seq<real>, k: nat)
      returns (positions: seq<nat>)
    requires |r| == |g.nodeIds| && k <= |r|
    ensures ListsPositions(g, Hits(g, seeds, r, k), r, positions) && Increasing(positions)
    ensures forall i: nat :: i in positions <==> i < k && i !in seeds && r[i] > 0.0
  {
    positions := [];
    if k > 0 {
      positions := HitsAreFiltered(g, seeds, r, k - 1);
      assert forall j :: 0 <= j < |positions| ==> positions[j] in positions;
      if k - 1 !in seeds && r[k - 1] > 0.0 {
        positions := positions + [k - 1];
      }
    }
  }

  /** The score of node i: that of the iteration with alpha, taken as 0.01 below and as 0.99 above that range. */
  ghost predicate HasScore(
    g: ConstraintGraph, seedIds: seq<string>, alpha: real, maxIter: nat, i: nat, score: real)
    requires |g.adj| == |g.nodeIds|
  {
    var seeds, nbrs := SeedIndices(g, seedIds), NeighbourSets(g);
    && seeds != [] && i < |nbrs|
    && (alpha <= 0.01 ==> score == Iterate(nbrs, Personal(|nbrs|, seeds), 0.01, maxIter)[i])
    && (0.01 <= alpha <= 0.99 ==> score == Iterate(nbrs, Personal(|nbrs|, seeds), alpha, maxIter)[i])
    && (alpha >= 0.99 ==> score == Iterate(nbrs, Personal(|nbrs|, seeds), 0.99, maxIter)[i])
  }

  /**
   Before truncation the hits are, in the order of their positions and each once, exactly the
   non-seed nodes within maxIter edges of a valid seed, with their scores.
   */
  lemma HitsAreTheReachableNonSeeds(g: ConstraintGraph, seedIds: seq<string>, alpha: real, maxIter: nat)
      returns (positions: seq<nat>)
    requires WellFormed(g)
    ensures var hits := AllHits(g, seedIds, alpha, maxIter);
      && |hits| == |positions| && Increasing(positions)
      && forall j :: 0 <= j < |hits| ==>
        positions[j] < |g.nodeIds| && hits[j].item == g.nodeIds[positions[j]]
        && HasScore(g, seedIds, alpha, maxIter, positions[j], hits[j].score)
    ensures var seeds, nbrs := SeedIndices(g, seedIds), NeighbourSets(g);
      forall i: nat :: i in positions <==> i < |nbrs| && i !in seeds && WithinReach(nbrs, seeds, i, maxIter)
  {
    hide Iterate, Hits, Targets, RowOf, WithinReach, Undirected;
    var seeds, nbrs := SeedIndices(g, seedIds), NeighbourSets(g);
    if seeds == [] {
      NothingInReach(nbrs, maxIter);
      positions := [];
    } else {
      var r := Iterate(nbrs, Personal(|nbrs|, seeds), Restart(alpha), maxIter);
      positions := HitsAreFiltered(g, seeds, r, |r|);
      forall i: nat | i < |nbrs|
        ensures r[i] > 0.0 <==> WithinReach(nbrs, seeds, i, maxIter)
      {
        PositiveIffWithinReach(nbrs, seeds, Restart(alpha), maxIter, i);
      }
      hide Increasing;
      forall j | 0 <= j < |positions|
        ensures HasScore(g, seedIds, alpha, maxIter, positions[j], r[positions[j]])
      {
      }
    }
  }

  lemma NothingInReach(nbrs: seq<set<nat>>, t: nat)
    ensures forall i: nat :: !WithinReach(nbrs, [], i, t)
  {
    assert forall walk :: !WalkFromSeed(nbrs, [], walk);
  }
}
