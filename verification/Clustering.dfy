/** Grouping constraint documents into connected components of their `relatedTo` references. */
module Clustering {
  import opened Collections
  import opened ConstraintTypes

  // ---------------------------------------------------------------------------
  // The graph
  // ---------------------------------------------------------------------------

  predicate Known(docs: seq<ConstraintDoc>, id: string) {
    exists i :: 0 <= i < |docs| && docs[i].id == id
  }

  /** References between known ids, read in both directions. */
  predicate Edge(docs: seq<ConstraintDoc>, a: string, b: string) {
    Known(docs, a) && Known(docs, b) && (Refers(docs, a, b) || Refers(docs, b, a))
  }

  predicate IsPath(docs: seq<ConstraintDoc>, path: seq<string>) {
    && path != []
    && (forall i :: 0 <= i < |path| ==> Known(docs, path[i]))
    && forall i :: 0 < i < |path| ==> Edge(docs, path[i - 1], path[i])
  }

  ghost predicate Connected(docs: seq<ConstraintDoc>, a: string, b: string) {
    exists path :: IsPath(docs, path) && path[0] == a && path[|path| - 1] == b
  }

  lemma ConnectedIsReflexive(docs: seq<ConstraintDoc>, a: string)
    requires Known(docs, a)
    ensures Connected(docs, a, a)
  {
    assert IsPath(docs, [a]) && [a][0] == a && [a][|[a]| - 1] == a;
  }

  lemma ConnectedExtends(docs: seq<ConstraintDoc>, a: string, b: string, c: string)
    requires Connected(docs, a, b) && Edge(docs, b, c)
    ensures Connected(docs, a, c)
  {
    hide Edge, Known;
    var path :| IsPath(docs, path) && path[0] == a && path[|path| - 1] == b;
    EdgeIsSymmetric(docs, b, c);
    var longer := path + [c];
    assert IsPath(docs, longer) && longer[0] == a && longer[|longer| - 1] == c;
  }

  lemma EdgeIsSymmetric(docs: seq<ConstraintDoc>, a: string, b: string)
    requires Edge(docs, a, b)
    ensures Edge(docs, b, a) && Known(docs, a) && Known(docs, b)
  {
  }

  lemma {:induction false} ConnectedIsTransitive(docs: seq<ConstraintDoc>, a: string, b: string, path: seq<string>)
    requires Connected(docs, a, b) && IsPath(docs, path) && path[0] == b
    ensures Connected(docs, a, path[|path| - 1])
    decreases |path|
  {
    hide Connected, Edge, Known;
    if |path| > 1 {
      var n := |path| - 1;
      assert IsPath(docs, path[..n]);
      ConnectedIsTransitive(docs, a, b, path[..n]);
      assert path[..n][n - 1] == path[n - 1];
      ConnectedExtends(docs, a, path[n - 1], path[n]);
    }
  }

  lemma {:induction false} PathIsReversible(docs: seq<ConstraintDoc>, path: seq<string>)
    requires IsPath(docs, path)
    ensures Connected(docs, path[|path| - 1], path[0])
    decreases |path|
  {
    hide Connected, Edge, Known;
    var n := |path| - 1;
    if n == 0 {
      ConnectedIsReflexive(docs, path[0]);
    } else {
      assert path[..n][n - 1] == path[n - 1];
      PathIsReversible(docs, path[..n]);
      EdgeIsSymmetric(docs, path[n - 1], path[n]);
      ConnectedIsReflexive(docs, path[n]);
      ConnectedExtends(docs, path[n], path[n], path[n - 1]);
      Concatenate(docs, path[n], path[n - 1], path[0]);
    }
  }

  lemma Concatenate(docs: seq<ConstraintDoc>, a: string, b: string, c: string)
    requires Connected(docs, a, b) && Connected(docs, b, c)
    ensures Connected(docs, a, c)
  {
    hide Edge, Known;
    var path :| IsPath(docs, path) && path[0] == b && path[|path| - 1] == c;
    ConnectedIsTransitive(docs, a, b, path);
  }

  lemma ConnectedIsSymmetric(docs: seq<ConstraintDoc>, a: string, b: string)
    requires Connected(docs, a, b)
    ensures Connected(docs, b, a)
  {
    hide Edge, Known;
    var path :| IsPath(docs, path) && path[0] == a && path[|path| - 1] == b;
    PathIsReversible(docs, path);
  }

  /** No edge leaves the set. */
  ghost predicate Closed(docs: seq<ConstraintDoc>, ids: set<string>) {
    forall a, b :: a in ids && Edge(docs, a, b) ==> b in ids
  }

  lemma {:induction false} PathStaysInside(docs: seq<ConstraintDoc>, ids: set<string>, path: seq<string>)
    requires Closed(docs, ids) && IsPath(docs, path) && path[0] in ids
    ensures path[|path| - 1] in ids
    decreases |path|
  {
    hide Edge, Known;
    var n := |path| - 1;
    if n > 0 {
      assert path[..n][n - 1] == path[n - 1];
      PathStaysInside(docs, ids, path[..n]);
    }
  }

  lemma ConnectedStaysInside(docs: seq<ConstraintDoc>, ids: set<string>, a: string, b: string)
    requires Closed(docs, ids) && a in ids && Connected(docs, a, b)
    ensures b in ids
  {
    hide Edge, Known, Closed;
    var path :| IsPath(docs, path) && path[0] == a && path[|path| - 1] == b;
    PathStaysInside(docs, ids, path);
  }

  // ---------------------------------------------------------------------------
  // The adjacency lists
  // ---------------------------------------------------------------------------

  type Adjacency = map<string, seq<string>>

  ghost predicate Represents(adj: Adjacency, docs: seq<ConstraintDoc>) {
    && (forall a :: a in adj <==> Known(docs, a))
    && forall a, b :: a in adj ==> (b in adj[a] <==> Edge(docs, a, b))
  }

  function Neighbours(adj: Adjacency, a: string): seq<string> {
    if a in adj then adj[a] else []
  }

  type References = set<(string, string)>

  /** The lists hold each collected reference at both its ends, and nothing else. */
  ghost predicate Mirrors(adj: Adjacency, refs: References) {
    forall a, b :: b in Neighbours(adj, a) <==> (a, b) in refs || (b, a) in refs
  }

  function Link(adj: Adjacency, a: string, b: string): Adjacency {
    var there := adj[a := Neighbours(adj, a) + [b]];
    there[b := Neighbours(there, b) + [a]]
  }

  lemma LinkAddsBothEnds(adj: Adjacency, a: string, b: string, x: string, y: string)
    ensures y in Neighbours(Link(adj, a, b), x) <==>
      y in Neighbours(adj, x) || (x == a && y == b) || (x == b && y == a)
  {
  }

  lemma LinkMirrors(adj: Adjacency, refs: References, a: string, b: string)
    requires Mirrors(adj, refs)
    ensures Mirrors(Link(adj, a, b), refs + {(a, b)})
  {
    hide Link, Neighbours;
    forall x, y
      ensures y in Neighbours(Link(adj, a, b), x) <==> (x, y) in refs + {(a, b)} || (y, x) in refs + {(a, b)}
    {
      LinkAddsBothEnds(adj, a, b, x, y);
    }
  }

  /** Only references between known documents. */
  ghost predicate Genuine(docs: seq<ConstraintDoc>, refs: References) {
    forall a, b :: (a, b) in refs ==> Known(docs, a) && Known(docs, b) && Refers(docs, a, b)
  }

  /** Every reference to a known document among the first k of document n. */
  ghost predicate HasFrom(docs: seq<ConstraintDoc>, refs: References, n: nat, k: nat)
    requires n < |docs|
  {
    forall j :: 0 <= j < k && j < |docs[n].relatedTo| && Known(docs, docs[n].relatedTo[j]) ==>
      (docs[n].id, docs[n].relatedTo[j]) in refs
  }

  ghost predicate HasAll(docs: seq<ConstraintDoc>, refs: References, n: nat) {
    forall i :: 0 <= i < n && i < |docs| ==> HasFrom(docs, refs, i, |docs[i].relatedTo|)
  }

  lemma MirrorIsRepresentation(docs: seq<ConstraintDoc>, adj: Adjacency, refs: References)
    requires Mirrors(adj, refs) && Genuine(docs, refs) && HasAll(docs, refs, |docs|)
    requires forall a :: a in adj <==> Known(docs, a)
    ensures Represents(adj, docs)
  {
    hide Known;
    forall a, b | Known(docs, a) && Known(docs, b) && Refers(docs, a, b)
      ensures (a, b) in refs
    {
      var i :| 0 <= i < |docs| && docs[i].id == a && b in docs[i].relatedTo;
      assert HasFrom(docs, refs, i, |docs[i].relatedTo|);
    }
    forall a, b | a in adj
      ensures b in adj[a] <==> Edge(docs, a, b)
    {
      assert Neighbours(adj, a) == adj[a];
    }
  }

  lemma AddGenuine(docs: seq<ConstraintDoc>, refs: References, n: nat, k: nat)
    requires Genuine(docs, refs) && n < |docs| && k < |docs[n].relatedTo|
    requires HasAll(docs, refs, n) && HasFrom(docs, refs, n, k)
    requires Known(docs, docs[n].relatedTo[k])
    ensures var more := refs + {(docs[n].id, docs[n].relatedTo[k])};
      Genuine(docs, more) && HasAll(docs, more, n) && HasFrom(docs, more, n, k + 1)
  {
    assert Known(docs, docs[n].id) && Refers(docs, docs[n].id, docs[n].relatedTo[k]);
    hide Known, Refers;
    var more := refs + {(docs[n].id, docs[n].relatedTo[k])};
    forall i | 0 <= i < n
      ensures HasFrom(docs, more, i, |docs[i].relatedTo|)
    {
      assert HasFrom(docs, refs, i, |docs[i].relatedTo|);
    }
  }

  method BuildAdjacency(docs: seq<ConstraintDoc>) returns (adj: Adjacency)
    ensures Represents(adj, docs)
  {
    hide Mirrors, Genuine, Refers, Represents;
    adj := map[];
    ghost var refs: References := {};
    assert Mirrors(adj, refs) && Genuine(docs, refs) by {
      NothingCollected(docs);
    }
    for n := 0 to |docs|
      invariant Mirrors(adj, refs) && Genuine(docs, refs) && HasAll(docs, refs, n)
      invariant forall a :: a in adj ==> Known(docs, a)
      invariant forall i :: 0 <= i < n ==> docs[i].id in adj
    {
      hide HasAll;
      var id := docs[n].id;
      TouchMirrors(adj, refs, id);
      adj := adj[id := Neighbours(adj, id)];
      for k := 0 to |docs[n].relatedTo|
        invariant Mirrors(adj, refs) && Genuine(docs, refs) && HasAll(docs, refs, n) && HasFrom(docs, refs, n, k)
        invariant forall a :: a in adj ==> Known(docs, a)
        invariant forall i :: 0 <= i <= n ==> docs[i].id in adj
      {
        var related := docs[n].relatedTo[k];
        if Known(docs, related) {
          AddGenuine(docs, refs, n, k);
          LinkMirrors(adj, refs, id, related);
          adj := Link(adj, id, related);
          refs := refs + {(id, related)};
        }
      }
      HasAllExtends(docs, refs, n);
    }
    MirrorIsRepresentation(docs, adj, refs);
  }

  lemma NothingCollected(docs: seq<ConstraintDoc>)
    ensures Mirrors(map[], {}) && Genuine(docs, {})
  {
  }

  lemma TouchMirrors(adj: Adjacency, refs: References, id: string)
    requires Mirrors(adj, refs)
    ensures Mirrors(adj[id := Neighbours(adj, id)], refs)
  {
    assert forall a :: Neighbours(adj[id := Neighbours(adj, id)], a) == Neighbours(adj, a);
  }

  lemma HasAllExtends(docs: seq<ConstraintDoc>, refs: References, n: nat)
    requires n < |docs| && HasAll(docs, refs, n) && HasFrom(docs, refs, n, |docs[n].relatedTo|)
    ensures HasAll(docs, refs, n + 1)
  {
  }

  // ---------------------------------------------------------------------------
  // One breadth-first search
  // ---------------------------------------------------------------------------

  ghost function Members(s: seq<string>): set<string> {
    set x | x in s
  }

  lemma {:induction false} DistinctIsBounded(s: seq<string>, ids: set<string>)
    requires Distinct(s) && Members(s) <= ids
    ensures |s| <= |ids|
    decreases |s|
  {
    if s != [] {
      var n := |s| - 1;
      assert s[n] in Members(s);
      forall x | x in Members(s[..n])
        ensures x in ids - {s[n]}
      {
        assert x in Members(s);
      }
      DistinctIsBounded(s[..n], ids - {s[n]});
    }
  }

  /** What a search from `start` has discovered, in order, beside what was visited before it. */
  ghost predicate Discovered(
    docs: seq<ConstraintDoc>, start: string, before: set<string>, order: seq<string>, visited: set<string>)
  {
    && Distinct(order) && order != [] && order[0] == start
    && Members(order) !! before && visited == before + Members(order)
    && forall x :: x in order ==> Connected(docs, start, x)
  }

  /** The neighbours of every dequeued node have been visited. */
  ghost predicate Expanded(docs: seq<ConstraintDoc>, cluster: seq<string>, visited: set<string>) {
    forall x, y :: x in cluster && Edge(docs, x, y) ==> y in visited
  }

  lemma StartIsDiscovered(docs: seq<ConstraintDoc>, start: string, before: set<string>)
    requires Known(docs, start) && start !in before
    ensures Discovered(docs, start, before, [start], before + {start})
  {
    hide Connected, Known;
    ConnectedIsReflexive(docs, start);
    assert Members([start]) == {start};
  }

  lemma NeighbourIsDiscovered(
    docs: seq<ConstraintDoc>, start: string, before: set<string>, order: seq<string>, visited: set<string>,
    x: string, y: string)
    requires Discovered(docs, start, before, order, visited)
    requires x in order && Edge(docs, x, y) && y !in visited
    ensures Discovered(docs, start, before, order + [y], visited + {y})
  {
    hide Connected, Edge;
    ConnectedExtends(docs, start, x, y);
    assert Members(order + [y]) == Members(order) + {y};
    assert forall i :: 0 <= i < |order| ==> order[i] in Members(order);
  }

  lemma DiscoveredIsKnown(
    docs: seq<ConstraintDoc>, start: string, before: set<string>, order: seq<string>, visited: set<string>,
    adj: Adjacency)
    requires Discovered(docs, start, before, order, visited) && Represents(adj, docs)
    ensures Members(order) <= adj.Keys
  {
    forall x | x in order
      ensures x in adj
    {
      var path :| IsPath(docs, path) && path[0] == start && path[|path| - 1] == x;
    }
  }

  lemma PrefixIsBounded(cluster: seq<string>, queue: seq<string>, ids: set<string>)
    requires Distinct(cluster + queue) && Members(cluster + queue) <= ids
    ensures |cluster| + |queue| <= |ids|
  {
    DistinctIsBounded(cluster + queue, ids);
  }

  /** A cluster is everything connected to its first member. */
  ghost predicate IsComponent(docs: seq<ConstraintDoc>, cluster: seq<string>) {
    && cluster != [] && Distinct(cluster) && Closed(docs, Members(cluster))
    && forall x :: x in cluster ==> Connected(docs, cluster[0], x)
  }

  lemma SearchIsComponent(
    docs: seq<ConstraintDoc>, start: string, before: set<string>, cluster: seq<string>, visited: set<string>)
    requires Discovered(docs, start, before, cluster, visited)
    requires Closed(docs, before) && Expanded(docs, cluster, visited)
    ensures IsComponent(docs, cluster) && Closed(docs, visited) && start in visited
    ensures Members(cluster) !! before && visited == before + Members(cluster)
  {
    hide Connected, Edge, Known, Distinct;
    assert cluster[0] in cluster;
    forall a, b | a in visited && Edge(docs, a, b)
      ensures b in visited && (a in Members(cluster) ==> b in Members(cluster))
    {
      EdgeIsSymmetric(docs, a, b);
    }
  }

  method Search(ghost docs: seq<ConstraintDoc>, adj: Adjacency, start: string, before: set<string>)
    returns (cluster: seq<string>, visited: set<string>)
    requires Represents(adj, docs) && Known(docs, start)
    requires start !in before && Closed(docs, before)
    ensures IsComponent(docs, cluster) && Closed(docs, visited) && start in visited
    ensures Members(cluster) !! before && visited == before + Members(cluster)
  {
    hide *;
    cluster := [];
    var queue := [start];
    visited := before + {start};
    ghost var order := [start];
    StartIsDiscovered(docs, start, before);
    NothingExpanded(docs, visited);
    assert cluster + queue == order;
    KeysBoundSearch(docs, adj, start, before, cluster, queue, visited);
    while queue != []
      invariant cluster + queue == order
      invariant Discovered(docs, start, before, order, visited)
      invariant Expanded(docs, cluster, visited)
      invariant cluster + queue != []
      invariant |cluster| + |queue| <= |adj.Keys|
      decreases |adj.Keys| - |cluster|
    {
      var node := queue[0];
      queue := queue[1..];
      ghost var done := cluster;
      cluster := cluster + [node];
      assert cluster + queue == order && node == order[|cluster| - 1];
      var neighbours := Neighbours(adj, node);
      for k := 0 to |neighbours|
        invariant cluster + queue == order && node in order
        invariant Discovered(docs, start, before, order, visited)
        invariant Expanded(docs, done, visited)
        invariant forall j :: 0 <= j < k ==> neighbours[j] in visited
      {
        var n := neighbours[k];
        if n !in visited {
          EdgeOfNeighbour(docs, adj, node, n);
          NeighbourIsDiscovered(docs, start, before, order, visited, node, n);
          ExpandedGrows(docs, done, visited, n);
          visited := visited + {n};
          queue := queue + [n];
          order := order + [n];
        }
      }
      NodeIsExpanded(docs, adj, done, node, visited);
      KeysBoundSearch(docs, adj, start, before, cluster, queue, visited);
    }
    assert cluster == order;
    SearchIsComponent(docs, start, before, cluster, visited);
  }

  lemma NothingExpanded(docs: seq<ConstraintDoc>, visited: set<string>)
    ensures Expanded(docs, [], visited)
  {
  }

  lemma KeysBoundSearch(
    docs: seq<ConstraintDoc>, adj: Adjacency, start: string, before: set<string>,
    cluster: seq<string>, queue: seq<string>, visited: set<string>)
    requires Represents(adj, docs) && Discovered(docs, start, before, cluster + queue, visited)
    ensures |cluster| + |queue| <= |adj.Keys|
  {
    hide Represents;
    DiscoveredIsKnown(docs, start, before, cluster + queue, visited, adj);
    PrefixIsBounded(cluster, queue, adj.Keys);
  }

  lemma EdgeOfNeighbour(docs: seq<ConstraintDoc>, adj: Adjacency, node: string, n: string)
    requires Represents(adj, docs) && n in Neighbours(adj, node)
    ensures Edge(docs, node, n)
  {
  }

  lemma ExpandedGrows(docs: seq<ConstraintDoc>, cluster: seq<string>, visited: set<string>, n: string)
    requires Expanded(docs, cluster, visited)
    ensures Expanded(docs, cluster, visited + {n})
  {
    hide Edge;
  }

  lemma NodeIsExpanded(
    docs: seq<ConstraintDoc>, adj: Adjacency, done: seq<string>, node: string, visited: set<string>)
    requires Represents(adj, docs) && Expanded(docs, done, visited)
    requires forall j :: 0 <= j < |Neighbours(adj, node)| ==> Neighbours(adj, node)[j] in visited
    ensures Expanded(docs, done + [node], visited)
  {
    forall y | Edge(docs, node, y)
      ensures y in visited
    {
      assert y in Neighbours(adj, node);
    }
  }

  // ---------------------------------------------------------------------------
  // All clusters
  // ---------------------------------------------------------------------------

  /** Member i of cluster k is id. */
  ghost predicate At(clusters: seq<seq<string>>, k: nat, i: nat, id: string) {
    k < |clusters| && i < |clusters[k]| && clusters[k][i] == id
  }

  ghost predicate InSomeCluster(clusters: seq<seq<string>>, id: string) {
    exists k :: 0 <= k < |clusters| && id in clusters[k]
  }

  ghost predicate ArePartialComponents(docs: seq<ConstraintDoc>, clusters: seq<seq<string>>, visited: set<string>) {
    && (forall k :: 0 <= k < |clusters| ==> IsComponent(docs, clusters[k]))
    && (forall k, l :: 0 <= k < l < |clusters| ==> Members(clusters[k]) !! Members(clusters[l]))
    && forall id :: id in visited <==> InSomeCluster(clusters, id)
  }

  /** Exactly the connected components of the known ids, each id once. */
  ghost predicate ArePartition(docs: seq<ConstraintDoc>, clusters: seq<seq<string>>) {
    && (forall k :: 0 <= k < |clusters| ==> clusters[k] != [])
    && (forall id :: Known(docs, id) <==> InSomeCluster(clusters, id))
    && (forall k: nat, l: nat, i: nat, j: nat, id ::
          At(clusters, k, i, id) && At(clusters, l, j, id) ==> k == l && i == j)
    && forall k: nat, l: nat, i: nat, j: nat, a, b ::
      At(clusters, k, i, a) && At(clusters, l, j, b) ==> (k == l <==> Connected(docs, a, b))
  }

  method BuildClusters(docs: seq<ConstraintDoc>) returns (clusters: seq<seq<string>>)
    ensures ArePartition(docs, clusters)
  {
    hide *;
    var adj := BuildAdjacency(docs);
    var visited: set<string> := {};
    clusters := [];
    NoClusters(docs);
    for n := 0 to |docs|
      invariant ArePartialComponents(docs, clusters, visited) && Closed(docs, visited)
      invariant forall i :: 0 <= i < n ==> docs[i].id in visited
    {
      var id := docs[n].id;
      if id !in visited {
        IdsAreKnown(docs, n);
        var cluster, after := Search(docs, adj, id, visited);
        ComponentIsAdded(docs, clusters, visited, cluster);
        visited := after;
        clusters := clusters + [cluster];
      }
    }
    ComponentsArePartition(docs, clusters, visited);
  }

  lemma NoClusters(docs: seq<ConstraintDoc>)
    ensures ArePartialComponents(docs, [], {}) && Closed(docs, {})
  {
  }

  lemma IdsAreKnown(docs: seq<ConstraintDoc>, n: nat)
    requires n < |docs|
    ensures Known(docs, docs[n].id)
  {
  }

  lemma ComponentIsAdded(
    docs: seq<ConstraintDoc>, clusters: seq<seq<string>>, visited: set<string>, cluster: seq<string>)
    requires ArePartialComponents(docs, clusters, visited)
    requires IsComponent(docs, cluster) && Members(cluster) !! visited
    ensures ArePartialComponents(docs, clusters + [cluster], visited + Members(cluster))
  {
    hide IsComponent;
    var more := clusters + [cluster];
    forall k | 0 <= k < |clusters|
      ensures Members(clusters[k]) <= visited
    {
      assert forall id :: id in clusters[k] ==> InSomeCluster(clusters, id);
    }
    forall id
      ensures InSomeCluster(more, id) <==> InSomeCluster(clusters, id) || id in cluster
    {
      assert more[|clusters|] == cluster;
      if InSomeCluster(clusters, id) {
        var k :| 0 <= k < |clusters| && id in clusters[k];
        assert more[k] == clusters[k];
      }
    }
  }

  lemma ComponentHoldsKnownIds(docs: seq<ConstraintDoc>, cluster: seq<string>, id: string)
    requires IsComponent(docs, cluster) && id in cluster
    ensures Known(docs, id)
  {
    hide Edge, Known, Closed;
    assert Connected(docs, cluster[0], id);
    var path :| IsPath(docs, path) && path[0] == cluster[0] && path[|path| - 1] == id;
  }

  /** Two members are connected exactly when they are in the same component. */
  lemma ComponentIsConnectivity(docs: seq<ConstraintDoc>, cluster: seq<string>, a: string, b: string)
    requires IsComponent(docs, cluster) && a in cluster
    ensures b in cluster <==> Connected(docs, a, b)
  {
    hide Edge, Known, Closed, Connected;
    if b in cluster {
      ConnectedIsSymmetric(docs, cluster[0], a);
      Concatenate(docs, a, cluster[0], b);
    }
    if Connected(docs, a, b) {
      ConnectedStaysInside(docs, Members(cluster), a, b);
    }
  }

  lemma ComponentsArePartition(docs: seq<ConstraintDoc>, clusters: seq<seq<string>>, visited: set<string>)
    requires ArePartialComponents(docs, clusters, visited)
    requires forall i :: 0 <= i < |docs| ==> docs[i].id in visited
    ensures ArePartition(docs, clusters)
  {
    hide Connected, Edge, Closed;
    forall id
      ensures Known(docs, id) <==> InSomeCluster(clusters, id)
    {
      if InSomeCluster(clusters, id) {
        var k :| 0 <= k < |clusters| && id in clusters[k];
        ComponentHoldsKnownIds(docs, clusters[k], id);
      }
    }
    hide Known, InSomeCluster;
    forall k: nat, l: nat, i: nat, j: nat, id | At(clusters, k, i, id) && At(clusters, l, j, id)
      ensures k == l && i == j
    {
      assert id in Members(clusters[k]) && id in Members(clusters[l]);
    }
    hide Distinct;
    forall k: nat, l: nat, i: nat, j: nat, a, b | At(clusters, k, i, a) && At(clusters, l, j, b)
      ensures k == l <==> Connected(docs, a, b)
    {
      ComponentIsConnectivity(docs, clusters[k], a, b);
      assert b in Members(clusters[l]);
    }
  }

  // ---------------------------------------------------------------------------
  // The checks of a cluster
  // ---------------------------------------------------------------------------

  /** The part of a check id before its first colon. */
  function Prefix(check: string): (prefix: string)
    ensures prefix <= check && ':' !in prefix
    ensures prefix == check || check[|prefix|] == ':'
  {
    if check == [] || check[0] == ':' then [] else [check[0]] + Prefix(check[1..])
  }

  /** The positions below n whose prefix is a cluster id, ascending. */
  function IndicesUpTo(cluster: seq<string>, checks: seq<string>, n: nat): seq<nat>
    requires n <= |checks|
  {
    if n == 0 then []
    else IndicesUpTo(cluster, checks, n - 1) + if Prefix(checks[n - 1]) in cluster then [n - 1] else []
  }

  function ClusterCheckIndices(cluster: seq<string>, checks: seq<string>): seq<nat> {
    IndicesUpTo(cluster, checks, |checks|)
  }

  lemma IndicesExtend(cluster: seq<string>, checks: seq<string>, n: nat)
    requires 0 < n <= |checks|
    ensures IndicesUpTo(cluster, checks, n)
      == IndicesUpTo(cluster, checks, n - 1) + if Prefix(checks[n - 1]) in cluster then [n - 1] else []
  {
  }

  lemma {:induction false} IndicesAreExact(cluster: seq<string>, checks: seq<string>, n: nat)
    requires n <= |checks|
    ensures var r := IndicesUpTo(cluster, checks, n);
      && (forall i, j :: 0 <= i < j < |r| ==> r[i] < r[j])
      && forall c: nat :: c in r <==> c < n && Prefix(checks[c]) in cluster
  {
    if n > 0 {
      IndicesAreExact(cluster, checks, n - 1);
      hide IndicesUpTo, Prefix;
      var shorter, r := IndicesUpTo(cluster, checks, n - 1), IndicesUpTo(cluster, checks, n);
      IndicesExtend(cluster, checks, n);
      forall i, j | 0 <= i < j < |r|
        ensures r[i] < r[j]
      {
        assert r[i] in shorter;
      }
      assert forall c: nat :: c in r <==> c in shorter || (c == n - 1 && Prefix(checks[c]) in cluster);
    }
  }

  lemma {:induction false} PrefixOfFormatted(id: string, text: string)
    requires ':' !in id
    ensures Prefix(id + ":" + text) == id
    decreases |id|
  {
    var check := id + ":" + text;
    if id != [] {
      assert check[1..] == id[1..] + ":" + text;
      PrefixOfFormatted(id[1..], text);
    } else {
      assert check[0] == ':';
    }
  }

  /** No check belongs to two clusters. */
  lemma ChecksOfClustersAreDisjoint(
    docs: seq<ConstraintDoc>, clusters: seq<seq<string>>, checks: seq<string>, k: nat, l: nat, c: nat)
    requires ArePartition(docs, clusters) && k < |clusters| && l < |clusters|
    requires c in ClusterCheckIndices(clusters[k], checks) && c in ClusterCheckIndices(clusters[l], checks)
    ensures k == l
  {
    IndicesAreExact(clusters[k], checks, |checks|);
    IndicesAreExact(clusters[l], checks, |checks|);
    var id := Prefix(checks[c]);
    var i: nat :| i < |clusters[k]| && clusters[k][i] == id;
    var j: nat :| j < |clusters[l]| && clusters[l][j] == id;
    assert At(clusters, k, i, id) && At(clusters, l, j, id);
  }

  /** A check named `<id>:<text>` after a known id without a colon is in the cluster of that id. */
  lemma KnownChecksHaveTheirCluster(
    docs: seq<ConstraintDoc>, clusters: seq<seq<string>>, checks: seq<string>, c: nat, id: string, text: string)
    requires ArePartition(docs, clusters) && Known(docs, id) && ':' !in id
    requires c < |checks| && checks[c] == id + ":" + text
    ensures exists k :: 0 <= k < |clusters| && id in clusters[k] && c in ClusterCheckIndices(clusters[k], checks)
  {
    PrefixOfFormatted(id, text);
    assert InSomeCluster(clusters, id);
    var k :| 0 <= k < |clusters| && id in clusters[k];
    IndicesAreExact(clusters[k], checks, |checks|);
  }
}
