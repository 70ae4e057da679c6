/** Bounded queries over the code graph: shortest paths and impact closures. */
module GraphQuery {
  import opened Ordering

  type NodeId = nat
  type EdgeId = nat

  datatype Edge = Edge(id: EdgeId, source: NodeId, target: NodeId)

  type Edges = map<EdgeId, Edge>

  datatype Direction = Incoming | Outgoing

  datatype TraversalResult = TraversalResult(edges: seq<EdgeId>, nodes: seq<NodeId>, truncated: bool)

  /** Each edge is stored under its own identifier. */
  predicate Keyed(g: Edges) {
    forall e :: e in g ==> g[e].id == e
  }

  function From(edge: Edge, direction: Direction): NodeId {
    if direction == Outgoing then edge.source else edge.target
  }

  function To(edge: Edge, direction: Direction): NodeId {
    if direction == Outgoing then edge.target else edge.source
  }

  /** `es` leads from `a` to `b`, edge by edge. */
  ghost predicate Route(g: Edges, d: Direction, a: NodeId, es: seq<EdgeId>, b: NodeId) {
    if es == [] then a == b
    else
      var e := es[|es| - 1];
      e in g && To(g[e], d) == b && Route(g, d, a, es[..|es| - 1], From(g[e], d))
  }

  lemma RouteLonger(g: Edges, d: Direction, a: NodeId, es: seq<EdgeId>, e: EdgeId)
    requires e in g && Route(g, d, a, es, From(g[e], d))
    ensures Route(g, d, a, es + [e], To(g[e], d))
  {
    assert (es + [e])[..|es|] == es;
  }

  // ---------- adjacency ----------

  type Adjacency = map<NodeId, seq<(EdgeId, NodeId)>>

  function Neighbours(adjacency: Adjacency, v: NodeId): seq<(EdgeId, NodeId)> {
    if v in adjacency then adjacency[v] else []
  }

  /** Lists every edge with its end, under the node it leaves, and nothing else. */
  ghost predicate Adjoins(g: Edges, d: Direction, adjacency: Adjacency) {
    forall v, e, n :: (e, n) in Neighbours(adjacency, v) <==> e in g && From(g[e], d) == v && To(g[e], d) == n
  }

  ghost predicate InEdgeOrder(list: seq<(EdgeId, NodeId)>) {
    forall i, j :: 0 <= i < j < |list| ==> list[i].0 < list[j].0
  }

  /** The edges listed so far, each list in edge order. */
  ghost predicate Listing(g: Edges, d: Direction, keys: seq<EdgeId>, adjacency: Adjacency) {
    && (forall v, e, n ::
          (e, n) in Neighbours(adjacency, v) <==> e in keys && e in g && From(g[e], d) == v && To(g[e], d) == n)
    && (forall v :: InEdgeOrder(Neighbours(adjacency, v)))
  }

  lemma ListNext(g: Edges, d: Direction, keys: seq<EdgeId>, e: EdgeId, adjacency: Adjacency)
    requires Listing(g, d, keys, adjacency) && e in g && forall k :: k in keys ==> k < e
    ensures Listing(g, d, keys + [e], Attach(adjacency, From(g[e], d), (e, To(g[e], d))))
  {
    var from, to := From(g[e], d), To(g[e], d);
    var more := Attach(adjacency, from, (e, to));
    forall v ensures InEdgeOrder(Neighbours(more, v)) {
      var list := Neighbours(adjacency, v);
      AttachAt(adjacency, from, (e, to), v);
      forall i | 0 <= i < |list| ensures list[i].0 < e {
        assert (list[i].0, list[i].1) in list;
      }
    }
    forall v, x, n
      ensures (x, n) in Neighbours(more, v) <==>
        x in keys + [e] && x in g && From(g[x], d) == v && To(g[x], d) == n
    {
      AttachAt(adjacency, from, (e, to), v);
    }
  }

  /** The edges come in key order, so each list is sorted as it stands. */
  method BuildAdjacency(g: Edges, d: Direction) returns (adjacency: Adjacency)
    requires Keyed(g)
    ensures Adjoins(g, d, adjacency) && forall v :: InEdgeOrder(Neighbours(adjacency, v))
  {
    hide Listing, InEdgeOrder, Adjoins, Attach, NoDuplicates;
    adjacency := map[];
    var keys := InOrder(g.Keys);
    ListingStarts(g, d);
    assert keys[..0] == [];
    for k := 0 to |keys|
      invariant Listing(g, d, keys[..k], adjacency)
    {
      assert keys[k] in keys;
      assert keys[..k + 1] == keys[..k] + [keys[k]];
      ListNext(g, d, keys[..k], keys[k], adjacency);
      var edge := g[keys[k]];
      adjacency := Attach(adjacency, From(edge, d), (edge.id, To(edge, d)));
    }
    assert keys[..|keys|] == keys;
    ListingIsWhole(g, d, keys, adjacency);
  }

  lemma ListingStarts(g: Edges, d: Direction)
    ensures Listing(g, d, [], map[])
  {
  }

  lemma ListingIsWhole(g: Edges, d: Direction, keys: seq<EdgeId>, adjacency: Adjacency)
    requires Listing(g, d, keys, adjacency) && forall e :: e in g ==> e in keys
    ensures Adjoins(g, d, adjacency) && forall v :: InEdgeOrder(Neighbours(adjacency, v))
  {
  }

  /** Appends one entry to one list. */
  function Attach(adjacency: Adjacency, from: NodeId, entry: (EdgeId, NodeId)): Adjacency {
    adjacency[from := Neighbours(adjacency, from) + [entry]]
  }

  lemma AttachAt(adjacency: Adjacency, from: NodeId, entry: (EdgeId, NodeId), v: NodeId)
    ensures var before, after := Neighbours(adjacency, v), Neighbours(Attach(adjacency, from, entry), v);
      && after == (if v == from then before + [entry] else before)
      && forall x :: x in after <==> x in before || (v == from && x == entry)
  {
  }

  // ---------- breadth-first search ----------

  /** The search's knowledge: how far each visited node is, and the edge it was reached by. */
  ghost predicate Tree(g: Edges, source: NodeId, depth: map<NodeId, nat>, previous: map<NodeId, (NodeId, EdgeId)>) {
    && source in depth && depth[source] == 0
    && previous.Keys == depth.Keys - {source}
    && forall v :: v in previous ==>
         var (u, e) := previous[v];
         u in depth && e in g && g[e].source == u && g[e].target == v && depth[v] == depth[u] + 1
  }

  /** No route is shorter than the depth recorded. */
  ghost predicate Shortest(g: Edges, source: NodeId, depth: map<NodeId, nat>) {
    forall v, es :: v in depth && Route(g, Outgoing, source, es, v) ==> depth[v] <= |es|
  }

  /** Every edge out of `v` leads to a visited node that is at most one further. */
  ghost predicate Expanded(g: Edges, depth: map<NodeId, nat>, v: NodeId)
    requires v in depth
  {
    forall e :: e in g && g[e].source == v ==> g[e].target in depth && depth[g[e].target] <= depth[v] + 1
  }

  /** All visited nodes nearer than `k` are expanded. */
  ghost predicate ExpandedBelow(g: Edges, depth: map<NodeId, nat>, k: nat) {
    forall v :: v in depth && depth[v] < k ==> Expanded(g, depth, v)
  }

  /** Whatever has a route of at most `k` edges is visited by then. */
  lemma {:induction false} NearNodesVisited(g: Edges, source: NodeId, depth: map<NodeId, nat>, k: nat,
                                            es: seq<EdgeId>, v: NodeId)
    requires source in depth && depth[source] == 0 && ExpandedBelow(g, depth, k)
    requires Route(g, Outgoing, source, es, v) && |es| <= k
    ensures v in depth && depth[v] <= |es|
  {
    if es != [] {
      var e := es[|es| - 1];
      NearNodesVisited(g, source, depth, k, es[..|es| - 1], g[e].source);
      assert Expanded(g, depth, g[e].source);
    }
  }

  /** The search so far: `k` is the depth being worked on. */
  ghost predicate Searching(g: Edges, source: NodeId, depth: map<NodeId, nat>,
                            previous: map<NodeId, (NodeId, EdgeId)>, k: nat) {
    && Tree(g, source, depth, previous)
    && Shortest(g, source, depth)
    && ExpandedBelow(g, depth, k)
  }

  /** A node met for the first time from depth `k` is at distance `k + 1`. */
  lemma VisitNew(g: Edges, source: NodeId, depth: map<NodeId, nat>, previous: map<NodeId, (NodeId, EdgeId)>, k: nat,
                 u: NodeId, e: EdgeId)
    requires Searching(g, source, depth, previous, k)
    requires u in depth && depth[u] == k && e in g && g[e].source == u && g[e].target !in depth
    ensures Searching(g, source, depth[g[e].target := k + 1], previous[g[e].target := (u, e)], k)
  {
    NewIsShortest(g, source, depth, k, g[e].target);
    NewKeepsExpanded(g, depth, k, g[e].target);
  }

  lemma NewIsShortest(g: Edges, source: NodeId, depth: map<NodeId, nat>, k: nat, v: NodeId)
    requires source in depth && depth[source] == 0 && Shortest(g, source, depth) && ExpandedBelow(g, depth, k)
    requires v !in depth
    ensures Shortest(g, source, depth[v := k + 1])
  {
    forall es | Route(g, Outgoing, source, es, v) ensures k + 1 <= |es| {
      if |es| <= k {
        NearNodesVisited(g, source, depth, k, es, v);
      }
    }
  }

  lemma NewKeepsExpanded(g: Edges, depth: map<NodeId, nat>, k: nat, v: NodeId)
    requires ExpandedBelow(g, depth, k) && v !in depth
    ensures ExpandedBelow(g, depth[v := k + 1], k)
  {
    var depth' := depth[v := k + 1];
    forall x | x in depth' && depth'[x] < k ensures Expanded(g, depth', x) {
      assert Expanded(g, depth, x);
    }
  }

  /** Every visited node has a route of exactly its depth. */
  lemma {:induction false} RecordedRoute(g: Edges, source: NodeId, depth: map<NodeId, nat>,
                                         previous: map<NodeId, (NodeId, EdgeId)>, v: NodeId)
    returns (es: seq<EdgeId>)
    requires Tree(g, source, depth, previous) && v in depth
    ensures Route(g, Outgoing, source, es, v) && |es| == depth[v]
    decreases depth[v]
  {
    if v == source {
      es := [];
    } else {
      assert v in previous;
      var (u, e) := previous[v];
      var front := RecordedRoute(g, source, depth, previous, u);
      RouteLonger(g, Outgoing, source, front, e);
      es := front + [e];
    }
  }

  lemma EdgeBound(g: Edges, source: NodeId, depth: map<NodeId, nat>, previous: map<NodeId, (NodeId, EdgeId)>, e: EdgeId)
    requires Tree(g, source, depth, previous) && Shortest(g, source, depth)
    requires e in g && g[e].source in depth && g[e].target in depth
    ensures depth[g[e].target] <= depth[g[e].source] + 1
  {
    var es := RecordedRoute(g, source, depth, previous, g[e].source);
    RouteLonger(g, Outgoing, source, es, e);
  }

  // ---------- the path found ----------

  /** The nodes and edges of a route from `source` to `target`. */
  ghost predicate IsPath(g: Edges, source: NodeId, target: NodeId, edges: seq<EdgeId>, nodes: seq<NodeId>) {
    && |nodes| == |edges| + 1 && nodes[0] == source && nodes[|edges|] == target
    && forall i :: 0 <= i < |edges| ==>
      edges[i] in g && g[edges[i]].source == nodes[i] && g[edges[i]].target == nodes[i + 1]
  }

  lemma PathLonger(g: Edges, source: NodeId, target: NodeId, edges: seq<EdgeId>, nodes: seq<NodeId>, e: EdgeId)
    requires IsPath(g, source, target, edges, nodes) && e in g && g[e].target == source
    ensures IsPath(g, g[e].source, target, [e] + edges, [g[e].source] + nodes)
  {
  }

  /** Follows the recorded edges back from the target. */
  method Reconstruct(g: Edges, source: NodeId, target: NodeId, previous: map<NodeId, (NodeId, EdgeId)>,
                     ghost depth: map<NodeId, nat>, truncated: bool) returns (r: TraversalResult)
    requires Tree(g, source, depth, previous) && target in depth
    ensures IsPath(g, source, target, r.edges, r.nodes)
    ensures |r.edges| == depth[target] && NoDuplicates(r.nodes) && r.truncated == truncated
  {
    var at := target;
    var nodes, edges := [target], [];
    while at != source
      invariant at in depth && |nodes| == |edges| + 1 && nodes[0] == at
      invariant IsPath(g, at, target, edges, nodes)
      invariant |edges| + depth[at] == depth[target]
      invariant forall i :: 0 <= i < |nodes| ==> nodes[i] in depth && depth[nodes[i]] == depth[at] + i
      decreases depth[at]
    {
      var (parent, edge) := previous[at];
      PathLonger(g, at, target, edges, nodes, edge);
      assert forall i :: 0 <= i < |nodes| ==> ([parent] + nodes)[i + 1] == nodes[i];
      edges := [edge] + edges;
      nodes := [parent] + nodes;
      at := parent;
    }
    r := TraversalResult(edges, nodes, truncated);
  }

  // ---------- shortest path ----------

  ghost predicate Open(queue: seq<(NodeId, nat)>, v: NodeId) {
    exists i :: 0 <= i < |queue| && queue[i].0 == v
  }

  ghost predicate Covered(g: Edges, depth: map<NodeId, nat>, queue: seq<(NodeId, nat)>, v: NodeId)
    requires v in depth
  {
    Open(queue, v) || Expanded(g, depth, v)
  }

  /** The queue holds visited nodes at depth `k`, then at depth `k + 1`. */
  ghost predicate QueueOk(queue: seq<(NodeId, nat)>, depth: map<NodeId, nat>, k: nat) {
    && (forall i :: 0 <= i < |queue| ==>
          queue[i].0 in depth && depth[queue[i].0] == queue[i].1 && k <= queue[i].1 <= k + 1)
    && (forall i, j :: 0 <= i < j < |queue| ==> queue[i].1 <= queue[j].1)
  }

  /** Everything the search keeps between two nodes. */
  ghost predicate Sound(g: Edges, source: NodeId, target: NodeId, depth: map<NodeId, nat>,
                        previous: map<NodeId, (NodeId, EdgeId)>, maxDepth: nat) {
    && Tree(g, source, depth, previous) && Shortest(g, source, depth)
    && target !in depth && forall v :: v in depth ==> depth[v] <= maxDepth
  }

  ghost predicate AllCovered(g: Edges, depth: map<NodeId, nat>, queue: seq<(NodeId, nat)>) {
    forall v :: v in depth ==> Covered(g, depth, queue, v)
  }

  ghost predicate NearCovered(g: Edges, depth: map<NodeId, nat>, queue: seq<(NodeId, nat)>, maxDepth: nat) {
    forall v :: v in depth && depth[v] < maxDepth ==> Covered(g, depth, queue, v)
  }

  lemma NearExpanded(g: Edges, depth: map<NodeId, nat>, queue: seq<(NodeId, nat)>, k: nat, maxDepth: nat)
    requires NearCovered(g, depth, queue, maxDepth) && QueueOk(queue, depth, k) && k <= maxDepth
    ensures ExpandedBelow(g, depth, k)
  {
    forall v | v in depth && depth[v] < k ensures Expanded(g, depth, v) {
      assert Covered(g, depth, queue, v);
    }
  }

  lemma CoveredStays(g: Edges, depth: map<NodeId, nat>, queue: seq<(NodeId, nat)>, v: NodeId, n: nat, x: NodeId)
    requires x in depth && v !in depth && Covered(g, depth, queue, x)
    ensures Covered(g, depth[v := n], queue + [(v, n)], x)
  {
    if Open(queue, x) {
      var i :| 0 <= i < |queue| && queue[i].0 == x;
      assert (queue + [(v, n)])[i].0 == x;
    }
  }

  /** The first `n` entries lead to visited nodes at depth `k + 1` or less. */
  ghost predicate Scanned(list: seq<(EdgeId, NodeId)>, n: nat, depth: map<NodeId, nat>, k: nat) {
    n <= |list| && forall j :: 0 <= j < n ==> list[j].1 in depth && depth[list[j].1] <= k + 1
  }

  ghost predicate Grown(known: map<NodeId, nat>, depth: map<NodeId, nat>) {
    forall v :: v in known ==> v in depth && depth[v] == known[v]
  }

  lemma ScannedNext(list: seq<(EdgeId, NodeId)>, n: nat, known: map<NodeId, nat>, depth: map<NodeId, nat>, k: nat)
    requires Scanned(list, n, known, k) && Grown(known, depth)
    requires n < |list| && list[n].1 in depth && depth[list[n].1] <= k + 1
    ensures Scanned(list, n + 1, depth, k)
  {
  }

  lemma ScannedExpands(g: Edges, adjacency: Adjacency, depth: map<NodeId, nat>, u: NodeId)
    requires Adjoins(g, Outgoing, adjacency) && u in depth
    requires Scanned(Neighbours(adjacency, u), |Neighbours(adjacency, u)|, depth, depth[u])
    ensures Expanded(g, depth, u)
  {
    forall e | e in g && g[e].source == u ensures g[e].target in depth && depth[g[e].target] <= depth[u] + 1 {
      assert (e, g[e].target) in Neighbours(adjacency, u);
    }
  }

  datatype Search = Search(
    queue: seq<(NodeId, nat)>, visited: set<NodeId>, previous: map<NodeId, (NodeId, EdgeId)>, truncated: bool)

  /** Every visited node but `u`, as far as `limit` says, is covered. */
  ghost predicate OthersCovered(g: Edges, depth: map<NodeId, nat>, queue: seq<(NodeId, nat)>, u: NodeId) {
    forall v :: v in depth && v != u ==> Covered(g, depth, queue, v)
  }

  ghost predicate NearOthersCovered(g: Edges, depth: map<NodeId, nat>, queue: seq<(NodeId, nat)>, u: NodeId,
                                    maxDepth: nat) {
    forall v :: v in depth && v != u && depth[v] < maxDepth ==> Covered(g, depth, queue, v)
  }

  /** What the scan of the edges of `u`, at depth `k`, keeps. */
  ghost predicate Scanning(g: Edges, source: NodeId, target: NodeId, depth: map<NodeId, nat>, s: Search,
                           u: NodeId, k: nat, maxDepth: nat, maxVisited: nat) {
    && s.visited == depth.Keys && u in depth && depth[u] == k < maxDepth
    && Sound(g, source, target, depth, s.previous, maxDepth) && QueueOk(s.queue, depth, k)
    && (s.truncated ==> |s.visited| >= maxVisited)
    && (|s.visited| < maxVisited ==> ExpandedBelow(g, depth, k) && NearOthersCovered(g, depth, s.queue, u, maxDepth))
    && (!s.truncated ==> OthersCovered(g, depth, s.queue, u))
  }

  lemma OthersStay(g: Edges, depth: map<NodeId, nat>, queue: seq<(NodeId, nat)>, u: NodeId, v: NodeId, n: nat,
                   maxDepth: nat)
    requires v !in depth
    ensures OthersCovered(g, depth, queue, u) ==> OthersCovered(g, depth[v := n], queue + [(v, n)], u)
    ensures NearOthersCovered(g, depth, queue, u, maxDepth) ==>
      NearOthersCovered(g, depth[v := n], queue + [(v, n)], u, maxDepth)
  {
    var depth', queue' := depth[v := n], queue + [(v, n)];
    assert queue'[|queue|].0 == v;
    forall x | x in depth && Covered(g, depth, queue, x) ensures Covered(g, depth', queue', x) {
      CoveredStays(g, depth, queue, v, n, x);
    }
  }

  lemma QueueGrows(queue: seq<(NodeId, nat)>, depth: map<NodeId, nat>, k: nat, v: NodeId)
    requires QueueOk(queue, depth, k) && v !in depth
    ensures QueueOk(queue + [(v, k + 1)], depth[v := k + 1], k)
  {
  }

  lemma SoundGrows(g: Edges, source: NodeId, target: NodeId, depth: map<NodeId, nat>,
                   previous: map<NodeId, (NodeId, EdgeId)>,
                   u: NodeId, k: nat, e: EdgeId, maxDepth: nat)
    requires Sound(g, source, target, depth, previous, maxDepth) && ExpandedBelow(g, depth, k)
    requires u in depth && depth[u] == k < maxDepth
    requires e in g && g[e].source == u && g[e].target !in depth && g[e].target != target
    ensures Sound(g, source, target, depth[g[e].target := k + 1], previous[g[e].target := (u, e)], maxDepth)
    ensures ExpandedBelow(g, depth[g[e].target := k + 1], k)
  {
    VisitNew(g, source, depth, previous, k, u, e);
  }

  /** Visiting one new neighbour that is not the target. */
  lemma ScanNew(g: Edges, source: NodeId, target: NodeId, depth: map<NodeId, nat>, s: Search,
                u: NodeId, k: nat, e: EdgeId, maxDepth: nat, maxVisited: nat)
    requires Scanning(g, source, target, depth, s, u, k, maxDepth, maxVisited) && |s.visited| < maxVisited
    requires e in g && g[e].source == u && g[e].target !in depth && g[e].target != target
    ensures var v := g[e].target;
      Scanning(g, source, target, depth[v := k + 1],
               Search(s.queue + [(v, k + 1)], s.visited + {v}, s.previous[v := (u, e)], s.truncated),
               u, k, maxDepth, maxVisited)
  {
    var v := g[e].target;
    SoundGrows(g, source, target, depth, s.previous, u, k, e, maxDepth);
    QueueGrows(s.queue, depth, k, v);
    OthersStay(g, depth, s.queue, u, v, k + 1, maxDepth);
  }

  lemma ScanDone(g: Edges, source: NodeId, target: NodeId, adjacency: Adjacency, depth: map<NodeId, nat>, s: Search,
                 u: NodeId, k: nat, maxDepth: nat, maxVisited: nat)
    requires Scanning(g, source, target, depth, s, u, k, maxDepth, maxVisited)
    requires Adjoins(g, Outgoing, adjacency) && Scanned(Neighbours(adjacency, u), |Neighbours(adjacency, u)|, depth, k)
    ensures |s.visited| < maxVisited ==> NearCovered(g, depth, s.queue, maxDepth)
    ensures !s.truncated ==> AllCovered(g, depth, s.queue)
  {
    ScannedExpands(g, adjacency, depth, u);
    assert Covered(g, depth, s.queue, u);
  }

  /** Visits a new neighbour. */
  method Meet(g: Edges, ghost source: NodeId, target: NodeId, ghost known: map<NodeId, nat>, before: Search,
              u: NodeId, k: nat, edge: EdgeId, ghost maxDepth: nat, maxVisited: nat)
    returns (hit: bool, s: Search, ghost depth: map<NodeId, nat>)
    requires Scanning(g, source, target, known, before, u, k, maxDepth, maxVisited) && |before.visited| < maxVisited
    requires edge in g && g[edge].source == u && g[edge].target !in before.visited
    ensures hit ==> !s.truncated && Tree(g, source, depth, s.previous) && Shortest(g, source, depth)
    ensures hit ==> target in depth && depth[target] <= maxDepth
    ensures !hit ==> Scanning(g, source, target, depth, s, u, k, maxDepth, maxVisited)
    ensures s.visited == before.visited + {g[edge].target}
    ensures !hit ==> depth == known[g[edge].target := k + 1]
  {
    var next := g[edge].target;
    depth := known[next := k + 1];
    if next == target {
      VisitNew(g, source, known, before.previous, k, u, edge);
      s := before.(visited := before.visited + {next}, previous := before.previous[next := (u, edge)]);
      hit := true;
    } else {
      ScanNew(g, source, target, known, before, u, k, edge, maxDepth, maxVisited);
      s := Search(before.queue + [(next, k + 1)], before.visited + {next}, before.previous[next := (u, edge)],
                  before.truncated);
      hit := false;
    }
  }

  /** One entry of an adjacency list; `full` when enough nodes are visited already. */
  method ScanEntry(g: Edges, ghost source: NodeId, target: NodeId, ghost known: map<NodeId, nat>, before: Search,
                   u: NodeId, k: nat, edge: EdgeId, ghost maxDepth: nat, maxVisited: nat)
    returns (full: bool, hit: bool, s: Search, ghost depth: map<NodeId, nat>)
    requires Scanning(g, source, target, known, before, u, k, maxDepth, maxVisited)
    requires edge in g && g[edge].source == u
    ensures full ==> !hit && s.truncated && |s.visited| >= maxVisited
    ensures hit ==> !s.truncated && Tree(g, source, depth, s.previous) && Shortest(g, source, depth)
    ensures hit ==> target in depth && depth[target] <= maxDepth
    ensures !hit ==> Scanning(g, source, target, depth, s, u, k, maxDepth, maxVisited)
    ensures !hit ==> before.visited <= s.visited <= before.visited + {g[edge].target}
    ensures !hit && s.visited == before.visited ==> s.queue == before.queue
    ensures !hit && !full ==> g[edge].target in depth && depth[g[edge].target] <= k + 1
    ensures !hit ==> Grown(known, depth)
  {
    full, hit, s, depth := false, false, before, known;
    if |s.visited| >= maxVisited {
      s := s.(truncated := true);
      full := true;
    } else {
      if g[edge].target !in s.visited {
        hit, s, depth := Meet(g, source, target, known, before, u, k, edge, maxDepth, maxVisited);
      }
      if !hit {
        EdgeBound(g, source, depth, s.previous, edge);
      }
    }
  }

  /** Scans the edges of one node. Stops early when enough nodes are visited or at the target. */
  method Scan(g: Edges, ghost source: NodeId, target: NodeId, adjacency: Adjacency, u: NodeId, k: nat, before: Search,
              ghost known: map<NodeId, nat>, ghost maxDepth: nat, maxVisited: nat)
    returns (hit: bool, s: Search, ghost depth: map<NodeId, nat>)
    requires Adjoins(g, Outgoing, adjacency)
    requires Scanning(g, source, target, known, before, u, k, maxDepth, maxVisited)
    ensures hit ==> !s.truncated && Tree(g, source, depth, s.previous) && Shortest(g, source, depth)
    ensures hit ==> target in depth && depth[target] <= maxDepth
    ensures !hit ==> Scanning(g, source, target, depth, s, u, k, maxDepth, maxVisited)
    ensures !hit && |s.visited| < maxVisited ==> NearCovered(g, depth, s.queue, maxDepth)
    ensures !hit && !s.truncated ==> AllCovered(g, depth, s.queue)
    ensures !hit ==> before.visited <= s.visited <= before.visited + Targets(g)
    ensures !hit && s.visited == before.visited ==> s.queue == before.queue
  {
    var list := Neighbours(adjacency, u);
    hit, s, depth := false, before, known;
    for j := 0 to |list|
      invariant !hit && Scanning(g, source, target, depth, s, u, k, maxDepth, maxVisited)
      invariant Scanned(list, j, depth, k)
      invariant before.visited <= s.visited <= before.visited + Targets(g)
      invariant s.visited == before.visited ==> s.queue == before.queue
    {
      var (edge, next) := list[j];
      assert (edge, next) in list;
      var full;
      ghost var earlier := depth;
      full, hit, s, depth := ScanEntry(g, source, target, depth, s, u, k, edge, maxDepth, maxVisited);
      if full || hit {
        return;
      }
      ScannedNext(list, j, earlier, depth, k);
    }
    ScanDone(g, source, target, adjacency, depth, s, u, k, maxDepth, maxVisited);
  }

  ghost function Targets(g: Edges): set<NodeId> {
    set e | e in g :: g[e].target
  }

  // ---------- the whole search ----------

  /** Between two nodes of the search, with the queue's front at depth `k`. */
  ghost predicate Between(g: Edges, source: NodeId, target: NodeId, depth: map<NodeId, nat>, s: Search,
                          k: nat, maxDepth: nat, maxVisited: nat) {
    && s.visited == depth.Keys
    && Sound(g, source, target, depth, s.previous, maxDepth) && QueueOk(s.queue, depth, k)
    && (s.truncated ==> |s.visited| >= maxVisited || forall i :: 0 <= i < |s.queue| ==> s.queue[i].1 >= maxDepth)
    && (s.truncated ==> |s.visited| >= maxVisited || Reaches(depth, maxDepth))
    && (|s.visited| < maxVisited ==> NearCovered(g, depth, s.queue, maxDepth))
    && (!s.truncated ==> AllCovered(g, depth, s.queue))
  }

  /** The depth limit has been reached. */
  ghost predicate Reaches(depth: map<NodeId, nat>, maxDepth: nat) {
    exists v :: v in depth && depth[v] >= maxDepth
  }

  lemma OpenAfterPop(queue: seq<(NodeId, nat)>)
    requires queue != []
    ensures forall v :: Open(queue, v) && v != queue[0].0 ==> Open(queue[1..], v)
  {
    forall v | Open(queue, v) && v != queue[0].0 ensures Open(queue[1..], v) {
      var i :| 0 <= i < |queue| && queue[i].0 == v;
      assert queue[1..][i - 1].0 == v;
    }
  }

  lemma Popped(g: Edges, depth: map<NodeId, nat>, queue: seq<(NodeId, nat)>, k: nat, maxDepth: nat)
    requires queue != [] && QueueOk(queue, depth, k)
    ensures QueueOk(queue[1..], depth, queue[0].1)
    ensures AllCovered(g, depth, queue) ==> OthersCovered(g, depth, queue[1..], queue[0].0)
    ensures NearCovered(g, depth, queue, maxDepth) ==> NearOthersCovered(g, depth, queue[1..], queue[0].0, maxDepth)
  {
    OpenAfterPop(queue);
  }

  lemma HeadIsFront(queue: seq<(NodeId, nat)>, depth: map<NodeId, nat>, k: nat)
    requires queue != [] && QueueOk(queue, depth, k)
    ensures QueueOk(queue, depth, queue[0].1)
  {
  }

  /** Whether something is too far away is settled when the queue is empty. */
  lemma NotFound(g: Edges, source: NodeId, target: NodeId, depth: map<NodeId, nat>, s: Search, k: nat, maxDepth: nat,
                 maxVisited: nat)
    requires Between(g, source, target, depth, s, k, maxDepth, maxVisited) && s.queue == []
    ensures !s.truncated ==> forall es :: !Route(g, Outgoing, source, es, target)
    ensures |s.visited| < maxVisited ==> forall es :: Route(g, Outgoing, source, es, target) ==> |es| > maxDepth
  {
    forall es | Route(g, Outgoing, source, es, target)
      ensures s.truncated && (|s.visited| < maxVisited ==> |es| > maxDepth)
    {
      if |s.visited| < maxVisited && |es| <= maxDepth {
        NearIsExpanded(g, depth, maxDepth);
        NearNodesVisited(g, source, depth, maxDepth, es, target);
      }
      if !s.truncated {
        AllIsExpanded(g, depth, |es|);
        NearNodesVisited(g, source, depth, |es|, es, target);
      }
    }
  }

  lemma NearIsExpanded(g: Edges, depth: map<NodeId, nat>, maxDepth: nat)
    requires NearCovered(g, depth, [], maxDepth)
    ensures ExpandedBelow(g, depth, maxDepth)
  {
    forall v | v in depth && depth[v] < maxDepth ensures Expanded(g, depth, v) {
      assert Covered(g, depth, [], v);
    }
  }

  lemma AllIsExpanded(g: Edges, depth: map<NodeId, nat>, k: nat)
    requires AllCovered(g, depth, [])
    ensures ExpandedBelow(g, depth, k)
  {
    forall v | v in depth ensures Expanded(g, depth, v) {
      assert Covered(g, depth, [], v);
    }
  }

  /** The nodes that the source reaches. */
  ghost predicate Reachable(g: Edges, source: NodeId, v: NodeId) {
    exists es :: Route(g, Outgoing, source, es, v)
  }

  lemma VisitedReachable(g: Edges, source: NodeId, depth: map<NodeId, nat>, previous: map<NodeId, (NodeId, EdgeId)>)
    requires Tree(g, source, depth, previous)
    ensures forall v :: v in depth ==> Reachable(g, source, v)
  {
    forall v | v in depth ensures Reachable(g, source, v) {
      var es := RecordedRoute(g, source, depth, previous, v);
    }
  }

  /** Some node is exactly `n` edges away. */
  ghost predicate AtDistance(g: Edges, source: NodeId, v: NodeId, n: nat) {
    && (exists es :: Route(g, Outgoing, source, es, v) && |es| == n)
    && forall es :: Route(g, Outgoing, source, es, v) ==> n <= |es|
  }

  /** A limit was really reached: some node stands at the depth limit, or the visit limit was used up. */
  ghost predicate CutOff(g: Edges, source: NodeId, maxDepth: nat, maxVisited: nat) {
    || (exists v :: AtDistance(g, source, v, maxDepth))
    || (exists s: set<NodeId> :: |s| >= maxVisited && forall v :: v in s ==> Reachable(g, source, v))
  }

  lemma DeepestIsAtDistance(g: Edges, source: NodeId, target: NodeId, depth: map<NodeId, nat>,
                            previous: map<NodeId, (NodeId, EdgeId)>, maxDepth: nat)
    requires Sound(g, source, target, depth, previous, maxDepth) && Reaches(depth, maxDepth)
    ensures exists v :: AtDistance(g, source, v, maxDepth)
  {
    var v :| v in depth && depth[v] >= maxDepth;
    var es := RecordedRoute(g, source, depth, previous, v);
    assert AtDistance(g, source, v, maxDepth);
  }

  /** Either no route is short enough, or the visit limit was used up on reachable nodes. */
  ghost predicate Exhausted(g: Edges, source: NodeId, target: NodeId, maxDepth: nat, maxVisited: nat) {
    || (forall es :: Route(g, Outgoing, source, es, target) ==> |es| > maxDepth)
    || (exists s: set<NodeId> :: |s| >= maxVisited && forall v :: v in s ==> Reachable(g, source, v))
  }

  ghost predicate ShortestRoute(g: Edges, source: NodeId, target: NodeId, r: TraversalResult) {
    && IsPath(g, source, target, r.edges, r.nodes) && NoDuplicates(r.nodes)
    && forall es :: Route(g, Outgoing, source, es, target) ==> |r.edges| <= |es|
  }

  lemma StartSearch(g: Edges, source: NodeId, target: NodeId, maxDepth: nat, maxVisited: nat)
    requires source != target && maxVisited >= 1
    ensures Between(g, source, target, map[source := 0], Search([(source, 0)], {source}, map[], false), 0, maxDepth,
                    maxVisited)
  {
    assert [(source, 0)][0].0 == source;
    assert Open([(source, 0)], source);
  }

  /** Taking a node that is too deep to be scanned. */
  lemma TooDeep(g: Edges, source: NodeId, target: NodeId, depth: map<NodeId, nat>, s: Search, k: nat, maxDepth: nat,
                maxVisited: nat)
    requires Between(g, source, target, depth, s, k, maxDepth, maxVisited) && s.queue != [] && s.queue[0].1 >= maxDepth
    ensures Between(g, source, target, depth, s.(queue := s.queue[1..], truncated := true), s.queue[0].1, maxDepth,
                    maxVisited)
  {
    Popped(g, depth, s.queue, k, maxDepth);
    assert s.queue[0].0 in depth && depth[s.queue[0].0] >= maxDepth;
  }

  lemma StartScan(g: Edges, source: NodeId, target: NodeId, depth: map<NodeId, nat>, s: Search, k: nat, maxDepth: nat,
                  maxVisited: nat)
    requires Between(g, source, target, depth, s, k, maxDepth, maxVisited) && s.queue != [] && s.queue[0].1 < maxDepth
    ensures Scanning(g, source, target, depth, s.(queue := s.queue[1..]), s.queue[0].0, s.queue[0].1, maxDepth,
                     maxVisited)
  {
    Popped(g, depth, s.queue, k, maxDepth);
    HeadIsFront(s.queue, depth, k);
    if |s.visited| < maxVisited {
      NearExpanded(g, depth, s.queue, s.queue[0].1, maxDepth);
    }
  }

  /** What the search promises of its answer. */
  ghost predicate Answers(g: Edges, source: NodeId, target: NodeId, maxDepth: nat, maxVisited: nat,
                          r: TraversalResult) {
    if r.nodes != [] then
      ShortestRoute(g, source, target, r) && |r.edges| <= maxDepth && !r.truncated
    else
      && r.edges == [] && Exhausted(g, source, target, maxDepth, maxVisited)
      && (!r.truncated ==> !Reachable(g, source, target))
      && (r.truncated ==> CutOff(g, source, maxDepth, maxVisited))
  }

  lemma SearchOver(g: Edges, source: NodeId, target: NodeId, depth: map<NodeId, nat>, s: Search, k: nat,
                   maxDepth: nat, maxVisited: nat)
    requires Between(g, source, target, depth, s, k, maxDepth, maxVisited) && s.queue == []
    ensures Answers(g, source, target, maxDepth, maxVisited, TraversalResult([], [], s.truncated))
  {
    NotFound(g, source, target, depth, s, k, maxDepth, maxVisited);
    VisitedReachable(g, source, depth, s.previous);
    assert |s.visited| >= maxVisited ==> forall v :: v in s.visited ==> Reachable(g, source, v);
    if s.truncated && |s.visited| < maxVisited {
      DeepestIsAtDistance(g, source, target, depth, s.previous, maxDepth);
    }
  }

  /** Takes one node off the queue; `done` when the target has been met. */
  method Advance(g: Edges, source: NodeId, target: NodeId, adjacency: Adjacency, before: Search,
                 ghost known: map<NodeId, nat>, ghost front: nat, maxDepth: nat, maxVisited: nat,
                 ghost universe: set<NodeId>)
    returns (done: bool, r: TraversalResult, s: Search, ghost depth: map<NodeId, nat>, ghost k: nat)
    requires Adjoins(g, Outgoing, adjacency) && before.queue != []
    requires Between(g, source, target, known, before, front, maxDepth, maxVisited)
    ensures done ==> Answers(g, source, target, maxDepth, maxVisited, r)
    ensures !done ==> Between(g, source, target, depth, s, k, maxDepth, maxVisited)
    requires before.visited <= universe && Targets(g) <= universe
    ensures !done ==> s.visited <= universe
    ensures !done ==> universe - s.visited <= universe - before.visited
    ensures !done && universe - s.visited == universe - before.visited ==> |s.queue| < |before.queue|
  {
    var (u, at) := before.queue[0];
    done, r, depth, k := false, TraversalResult([], [], false), known, at;
    if at >= maxDepth {
      TooDeep(g, source, target, known, before, front, maxDepth, maxVisited);
      s := before.(queue := before.queue[1..], truncated := true);
    } else {
      StartScan(g, source, target, known, before, front, maxDepth, maxVisited);
      done, s, depth := Scan(g, source, target, adjacency, u, at, before.(queue := before.queue[1..]), known,
                             maxDepth, maxVisited);
      if done {
        r := Reconstruct(g, source, target, s.previous, depth, s.truncated);
      }
    }
  }

  /** The loop of the search, up to its answer. */
  method Explore(g: Edges, source: NodeId, target: NodeId, adjacency: Adjacency, start: Search,
                 ghost known: map<NodeId, nat>, maxDepth: nat, maxVisited: nat)
    returns (r: TraversalResult)
    requires Adjoins(g, Outgoing, adjacency)
    requires Between(g, source, target, known, start, 0, maxDepth, maxVisited)
    ensures Answers(g, source, target, maxDepth, maxVisited, r)
  {
    hide Tree, Shortest, Sound, Between;
    var s := start;
    ghost var depth, k := known, 0;
    ghost var universe := start.visited + Targets(g);
    var done := false;
    r := TraversalResult([], [], false);
    while !done && s.queue != []
      invariant done ==> Answers(g, source, target, maxDepth, maxVisited, r)
      invariant !done ==> Between(g, source, target, depth, s, k, maxDepth, maxVisited)
      invariant !done ==> s.visited <= universe
      decreases !done, universe - s.visited, |s.queue|
    {
      done, r, s, depth, k := Advance(g, source, target, adjacency, s, depth, k, maxDepth, maxVisited, universe);
    }
    if !done {
      SearchOver(g, source, target, depth, s, k, maxDepth, maxVisited);
      r := TraversalResult([], [], s.truncated);
    }
  }

  /** A path found is simple, as short as any route, and within the depth limit; it comes with
      `truncated` unset whatever the limits. An empty answer means that there is no route at all
      when nothing was cut off, and otherwise that every route is too long or that the visit limit
      was used up on reachable nodes. */
  method ShortestPath(g: Edges, source: NodeId, target: NodeId, maxDepth: nat,
                      maxVisited: nat) returns (r: TraversalResult)
    requires Keyed(g)
    ensures source == target ==> r == TraversalResult([], [source], false)
    ensures r.nodes != [] ==> ShortestRoute(g, source, target, r) && |r.edges| <= maxDepth && !r.truncated
    ensures r.nodes == [] ==>
      r.edges == [] && Exhausted(g, source, target, maxDepth, if maxVisited < 1 then 1 else maxVisited)
    ensures r.nodes == [] && !r.truncated ==> !Reachable(g, source, target)
    ensures r.truncated ==> CutOff(g, source, maxDepth, if maxVisited < 1 then 1 else maxVisited)
  {
    if source == target {
      return TraversalResult([], [source], false);
    }
    var adjacency := BuildAdjacency(g, Outgoing);
    var limit := if maxVisited < 1 then 1 else maxVisited;
    StartSearch(g, source, target, maxDepth, limit);
    r := Explore(g, source, target, adjacency, Search([(source, 0)], {source}, map[], false), map[source := 0],
                 maxDepth, limit);
  }

  // ---------- impact ----------

  /** `v` lies within `n` edges of a root. */
  ghost predicate Within(g: Edges, d: Direction, roots: set<NodeId>, v: NodeId, n: nat) {
    exists root, es :: root in roots && Route(g, d, root, es, v) && |es| <= n
  }

  /** Some path over the stored edges, followed from source to target, has at most `n` edges. */
  ghost predicate PathWithin(g: Edges, a: NodeId, b: NodeId, n: nat) {
    exists edges, nodes :: IsPath(g, a, b, edges, nodes) && |edges| <= n
  }

  lemma PathAppended(g: Edges, a: NodeId, edges: seq<EdgeId>, nodes: seq<NodeId>, e: EdgeId)
    requires e in g && IsPath(g, a, g[e].source, edges, nodes)
    ensures IsPath(g, a, g[e].target, edges + [e], nodes + [g[e].target])
  {
  }

  lemma {:induction false} OutgoingIsForward(g: Edges, a: NodeId, es: seq<EdgeId>, b: NodeId)
    requires Route(g, Outgoing, a, es, b)
    ensures PathWithin(g, a, b, |es|)
  {
    if es == [] {
      assert IsPath(g, a, b, [], [a]);
    } else {
      var e := es[|es| - 1];
      OutgoingIsForward(g, a, es[..|es| - 1], g[e].source);
      var edges, nodes :| IsPath(g, a, g[e].source, edges, nodes) && |edges| <= |es| - 1;
      PathAppended(g, a, edges, nodes, e);
    }
  }

  lemma {:induction false} IncomingIsBackward(g: Edges, a: NodeId, es: seq<EdgeId>, b: NodeId)
    requires Route(g, Incoming, a, es, b)
    ensures PathWithin(g, b, a, |es|)
  {
    if es == [] {
      assert IsPath(g, b, a, [], [a]);
    } else {
      var e := es[|es| - 1];
      IncomingIsBackward(g, a, es[..|es| - 1], g[e].target);
      var edges, nodes :| IsPath(g, g[e].target, a, edges, nodes) && |edges| <= |es| - 1;
      PathLonger(g, g[e].target, a, edges, nodes, e);
    }
  }

  lemma {:induction false} ForwardIsOutgoing(g: Edges, a: NodeId, b: NodeId, edges: seq<EdgeId>, nodes: seq<NodeId>)
    requires IsPath(g, a, b, edges, nodes)
    ensures Route(g, Outgoing, a, edges, b)
    decreases |edges|
  {
    if edges != [] {
      var k := |edges| - 1;
      ForwardIsOutgoing(g, a, nodes[k], edges[..k], nodes[..k + 1]);
    }
  }

  lemma {:induction false} BackwardIsIncoming(g: Edges, a: NodeId, b: NodeId, edges: seq<EdgeId>, nodes: seq<NodeId>)
    returns (es: seq<EdgeId>)
    requires IsPath(g, a, b, edges, nodes)
    ensures Route(g, Incoming, b, es, a) && |es| == |edges|
    decreases |edges|
  {
    if edges == [] {
      es := [];
    } else {
      var front := BackwardIsIncoming(g, nodes[1], b, edges[1..], nodes[1..]);
      RouteLonger(g, Incoming, b, front, edges[0]);
      es := front + [edges[0]];
    }
  }

  /** Outgoing, what the roots lead to; incoming, what leads to a root. */
  lemma WithinMeans(g: Edges, roots: set<NodeId>, v: NodeId, n: nat)
    ensures Within(g, Outgoing, roots, v, n) <==> exists root :: root in roots && PathWithin(g, root, v, n)
    ensures Within(g, Incoming, roots, v, n) <==> exists root :: root in roots && PathWithin(g, v, root, n)
  {
    forall root, es | root in roots && |es| <= n
      ensures Route(g, Outgoing, root, es, v) ==> PathWithin(g, root, v, n)
      ensures Route(g, Incoming, root, es, v) ==> PathWithin(g, v, root, n)
    {
      if Route(g, Outgoing, root, es, v) {
        OutgoingIsForward(g, root, es, v);
      }
      if Route(g, Incoming, root, es, v) {
        IncomingIsBackward(g, root, es, v);
      }
    }
    forall root | root in roots
      ensures PathWithin(g, root, v, n) ==> Within(g, Outgoing, roots, v, n)
      ensures PathWithin(g, v, root, n) ==> Within(g, Incoming, roots, v, n)
    {
      if PathWithin(g, root, v, n) {
        var edges, nodes :| IsPath(g, root, v, edges, nodes) && |edges| <= n;
        ForwardIsOutgoing(g, root, v, edges, nodes);
      }
      if PathWithin(g, v, root, n) {
        var edges, nodes :| IsPath(g, v, root, edges, nodes) && |edges| <= n;
        var es := BackwardIsIncoming(g, v, root, edges, nodes);
      }
    }
  }

  /** So an incoming route is an outgoing one walked backwards. */
  lemma IncomingIsReversed(g: Edges, roots: set<NodeId>, v: NodeId, n: nat)
    ensures Within(g, Incoming, roots, v, n) <==>
      exists root, es :: root in roots && Route(g, Outgoing, v, es, root) && |es| <= n
  {
    WithinMeans(g, roots, v, n);
    forall root ensures PathWithin(g, v, root, n) <==> exists es :: Route(g, Outgoing, v, es, root) && |es| <= n {
      RoutesArePaths(g, v, root, n);
    }
  }

  lemma RoutesArePaths(g: Edges, a: NodeId, b: NodeId, n: nat)
    ensures PathWithin(g, a, b, n) <==> exists es :: Route(g, Outgoing, a, es, b) && |es| <= n
  {
    if PathWithin(g, a, b, n) {
      var edges, nodes :| IsPath(g, a, b, edges, nodes) && |edges| <= n;
      ForwardIsOutgoing(g, a, b, edges, nodes);
    }
    forall es | Route(g, Outgoing, a, es, b) && |es| <= n ensures PathWithin(g, a, b, n) {
      OutgoingIsForward(g, a, es, b);
    }
  }

  ghost predicate NoNearer(g: Edges, d: Direction, roots: set<NodeId>, v: NodeId, n: nat) {
    forall m: nat :: Within(g, d, roots, v, m) ==> n <= m
  }

  lemma WithinNext(g: Edges, d: Direction, roots: set<NodeId>, e: EdgeId, n: nat)
    requires e in g && Within(g, d, roots, From(g[e], d), n)
    ensures Within(g, d, roots, To(g[e], d), n + 1)
  {
    var root, es :| root in roots && Route(g, d, root, es, From(g[e], d)) && |es| <= n;
    RouteLonger(g, d, root, es, e);
  }

  lemma WithinIsSensible(g: Edges, d: Direction, roots: set<NodeId>)
    ensures Sensible(g, d, (v: NodeId, n: nat) => Within(g, d, roots, v, n))
    ensures forall v :: v in roots ==> Within(g, d, roots, v, 0)
  {
    forall e, n: nat | e in g && Within(g, d, roots, From(g[e], d), n) ensures Within(g, d, roots, To(g[e], d), n + 1) {
      WithinNext(g, d, roots, e, n);
    }
    forall v | v in roots ensures Within(g, d, roots, v, 0) {
      assert Route(g, d, v, [], v);
    }
  }

  /** `near(v, n)` stands for: `v` is at most `n` edges from a root. */
  ghost predicate Sensible(g: Edges, d: Direction, near: (NodeId, nat) -> bool) {
    && (forall e, n: nat :: e in g && near(From(g[e], d), n) ==> near(To(g[e], d), n + 1))
    && (forall v, n: nat, m: nat {:trigger near(v, n), near(v, m)} :: near(v, n) && n <= m ==> near(v, m))
  }

  datatype Spread = Spread(queue: seq<(NodeId, nat)>, visited: set<NodeId>, edges: set<EdgeId>, truncated: bool)

  /** Every edge out of `v` has been noted. */
  ghost predicate Noted(g: Edges, d: Direction, s: Spread, v: NodeId) {
    forall e :: e in g && From(g[e], d) == v ==> e in s.edges
  }

  ghost predicate Spreading(g: Edges, d: Direction, near: (NodeId, nat) -> bool, roots: set<NodeId>, s: Spread,
                            maxDepth: nat, limit: nat) {
    && roots <= s.visited && |s.visited| <= limit
    && (forall v :: v in s.visited ==> near(v, maxDepth))
    && (forall e :: e in s.edges ==> e in g && From(g[e], d) in s.visited && To(g[e], d) in s.visited)
    && (forall i :: 0 <= i < |s.queue| ==> s.queue[i].0 in s.visited && near(s.queue[i].0, s.queue[i].1))
  }

  /** Until something is cut off, every visited node but `u` waits in the queue or is noted. */
  ghost predicate OthersNoted(g: Edges, d: Direction, s: Spread, u: NodeId) {
    !s.truncated ==> forall v :: v in s.visited && v != u ==> Open(s.queue, v) || Noted(g, d, s, v)
  }

  ghost predicate AllNoted(g: Edges, d: Direction, s: Spread) {
    !s.truncated ==> forall v :: v in s.visited ==> Open(s.queue, v) || Noted(g, d, s, v)
  }

  lemma OpenStays(queue: seq<(NodeId, nat)>, more: seq<(NodeId, nat)>)
    ensures forall v :: Open(queue, v) ==> Open(queue + more, v)
    ensures forall v :: Open(more, v) ==> Open(queue + more, v)
  {
    forall v | Open(queue, v) ensures Open(queue + more, v) {
      var i :| 0 <= i < |queue| && queue[i].0 == v;
      assert (queue + more)[i].0 == v;
    }
    forall v | Open(more, v) ensures Open(queue + more, v) {
      var i :| 0 <= i < |more| && more[i].0 == v;
      assert (queue + more)[|queue| + i].0 == v;
    }
  }

  /** The state once an edge from depth `k` to `next` is noted. */
  function Touched(s: Spread, k: nat, e: EdgeId, next: NodeId): Spread {
    var noted := s.(edges := s.edges + {e});
    if next in s.visited then noted
    else noted.(visited := s.visited + {next}, queue := s.queue + [(next, k + 1)])
  }

  /** Notes one edge out of `u` and visits its end, unless the node limit is reached. */
  method Touch(g: Edges, d: Direction, ghost near: (NodeId, nat) -> bool, ghost roots: set<NodeId>, before: Spread,
               ghost u: NodeId, k: nat, e: EdgeId, ghost maxDepth: nat, limit: nat, ghost universe: set<NodeId>)
    returns (s: Spread, full: bool)
    requires before.visited <= universe && Ends(g, d) <= universe
    requires Spreading(g, d, near, roots, before, maxDepth, limit) && OthersNoted(g, d, before, u)
    requires e in g && From(g[e], d) == u && u in before.visited && k < maxDepth && near(u, k) && Sensible(g, d, near)
    ensures Spreading(g, d, near, roots, s, maxDepth, limit) && OthersNoted(g, d, s, u)
    ensures full <==> |before.visited| >= limit
    ensures s == if full then before.(truncated := true) else Touched(before, k, e, To(g[e], d))
    ensures before.edges <= s.edges && before.visited <= s.visited <= universe
    ensures s.visited == before.visited ==> s.queue == before.queue
  {
    full := |before.visited| >= limit;
    if full {
      s := before.(truncated := true);
      return;
    }
    var next := To(g[e], d);
    assert near(next, k + 1) && near(next, maxDepth);
    OpenStays(before.queue, [(next, k + 1)]);
    assert [(next, k + 1)][0].0 == next;
    s := Touched(before, k, e, next);
  }

  ghost function Ends(g: Edges, d: Direction): set<NodeId> {
    set e | e in g :: To(g[e], d)
  }

  // ---------- how far the closure gets ----------

  /** Every edge out of `v` has been noted and leads at most one level further. */
  ghost predicate Passed(g: Edges, d: Direction, s: Spread, level: map<NodeId, nat>, v: NodeId)
    requires v in level
  {
    forall e :: e in g && From(g[e], d) == v ==>
      e in s.edges && To(g[e], d) in level && level[To(g[e], d)] <= level[v] + 1
  }

  /** The level at which each node was visited: the queue holds level `k`, then level `k + 1`, and
      nothing deeper has been visited. */
  ghost predicate Levels(roots: set<NodeId>, s: Spread, level: map<NodeId, nat>, k: nat) {
    && level.Keys == s.visited
    && (forall v :: v in roots ==> v in level && level[v] == 0)
    && (forall v :: v in level ==> level[v] <= k + 1)
    && QueueOk(s.queue, level, k)
  }

  /** Until the node limit is reached, every node of a level that is followed, but `u`, waits in the
      queue or is passed. */
  ghost predicate OthersPassed(g: Edges, d: Direction, s: Spread, level: map<NodeId, nat>, u: NodeId, maxDepth: nat,
                               limit: nat) {
    |s.visited| < limit ==>
      forall v :: v in level && v != u && level[v] < maxDepth ==> Open(s.queue, v) || Passed(g, d, s, level, v)
  }

  ghost predicate AllPassed(g: Edges, d: Direction, s: Spread, level: map<NodeId, nat>, maxDepth: nat, limit: nat) {
    |s.visited| < limit ==>
      forall v :: v in level && level[v] < maxDepth ==> Open(s.queue, v) || Passed(g, d, s, level, v)
  }

  /** The search is marked as cut off only for a limit that was reached. */
  ghost predicate CutRightly(s: Spread, level: map<NodeId, nat>, maxDepth: nat, limit: nat) {
    s.truncated ==> |s.visited| >= limit || Reaches(level, maxDepth)
  }

  /** The levels once `next` has been seen from level `k`. */
  ghost function Levelled(level: map<NodeId, nat>, k: nat, next: NodeId): map<NodeId, nat> {
    if next in level then level else level[next := k + 1]
  }

  lemma TouchedLevels(g: Edges, d: Direction, roots: set<NodeId>, before: Spread, level: map<NodeId, nat>, u: NodeId,
                      k: nat, e: EdgeId, maxDepth: nat, limit: nat)
    requires Levels(roots, before, level, k) && OthersPassed(g, d, before, level, u, maxDepth, limit)
    requires e in g
    ensures var s, more := Touched(before, k, e, To(g[e], d)), Levelled(level, k, To(g[e], d));
      Levels(roots, s, more, k) && OthersPassed(g, d, s, more, u, maxDepth, limit)
  {
    TouchedKeepsLevels(roots, before, level, k, e, To(g[e], d));
    TouchedKeepsPassed(g, d, before, level, u, k, e, maxDepth, limit);
  }

  lemma TouchedKeepsLevels(roots: set<NodeId>, before: Spread, level: map<NodeId, nat>, k: nat, e: EdgeId, next: NodeId)
    requires Levels(roots, before, level, k)
    ensures Levels(roots, Touched(before, k, e, next), Levelled(level, k, next), k)
  {
  }

  lemma TouchedKeepsPassed(g: Edges, d: Direction, before: Spread, level: map<NodeId, nat>, u: NodeId, k: nat,
                           e: EdgeId, maxDepth: nat, limit: nat)
    requires level.Keys == before.visited && OthersPassed(g, d, before, level, u, maxDepth, limit) && e in g
    ensures OthersPassed(g, d, Touched(before, k, e, To(g[e], d)), Levelled(level, k, To(g[e], d)), u, maxDepth, limit)
  {
    hide Passed, Open;
    var next := To(g[e], d);
    var s, more := Touched(before, k, e, next), Levelled(level, k, next);
    if |s.visited| < limit {
      assert before.visited <= s.visited;
      SubsetSize(before.visited, s.visited);
      forall v | v in more && v != u && more[v] < maxDepth ensures Open(s.queue, v) || Passed(g, d, s, more, v) {
        TouchedPassed(g, d, before, level, k, e, v);
      }
    }
  }

  lemma TouchedPassed(g: Edges, d: Direction, before: Spread, level: map<NodeId, nat>, k: nat, e: EdgeId, v: NodeId)
    requires e in g && level.Keys == before.visited && v in Levelled(level, k, To(g[e], d))
    requires v in level ==> Open(before.queue, v) || Passed(g, d, before, level, v)
    ensures var s := Touched(before, k, e, To(g[e], d));
      Open(s.queue, v) || Passed(g, d, s, Levelled(level, k, To(g[e], d)), v)
  {
    var next := To(g[e], d);
    if next !in before.visited {
      OpenStays(before.queue, [(next, k + 1)]);
      assert [(next, k + 1)][0].0 == next;
    }
  }

  lemma ScannedIsPassed(g: Edges, d: Direction, adjacency: Adjacency, s: Spread, level: map<NodeId, nat>, u: NodeId,
                        maxDepth: nat, limit: nat)
    requires Adjoins(g, d, adjacency) && u in level && OthersPassed(g, d, s, level, u, maxDepth, limit)
    requires var list := Neighbours(adjacency, u);
      EntriesNoted(list, |list|, s) && Scanned(list, |list|, level, level[u])
    ensures AllPassed(g, d, s, level, maxDepth, limit)
  {
    forall e | e in g && From(g[e], d) == u
      ensures e in s.edges && To(g[e], d) in level && level[To(g[e], d)] <= level[u] + 1
    {
      assert (e, To(g[e], d)) in Neighbours(adjacency, u);
    }
    assert Passed(g, d, s, level, u);
  }

  lemma PopLevels(g: Edges, d: Direction, roots: set<NodeId>, s: Spread, level: map<NodeId, nat>, k: nat, maxDepth: nat,
                  limit: nat)
    requires s.queue != [] && Levels(roots, s, level, k) && AllPassed(g, d, s, level, maxDepth, limit)
    ensures var (u, at) := s.queue[0];
      var rest := s.(queue := s.queue[1..]);
      && u in level && level[u] == at && Levels(roots, rest, level, at)
      && OthersPassed(g, d, rest, level, u, maxDepth, limit)
  {
    Popped(g, level, s.queue, k, maxDepth);
    OpenAfterPop(s.queue);
    hide Open;
    var rest := s.(queue := s.queue[1..]);
    forall v | v in level ensures Passed(g, d, s, level, v) <==> Passed(g, d, rest, level, v) {
    }
  }

  /** Each node visited is as far from the roots as its level says, and whatever is nearer has been
      visited as well. */
  ghost predicate NearestFirst(g: Edges, d: Direction, roots: set<NodeId>, level: map<NodeId, nat>) {
    && (forall v :: v in level ==> Within(g, d, roots, v, level[v]))
    && (forall v, x, n: nat :: v in level && Within(g, d, roots, x, n) && n < level[v] ==> x in level)
  }

  /** While a node of level `k` is scanned below the node limit, every route of at most `k` edges has been
      followed. */
  lemma {:induction false} RouteReached(g: Edges, d: Direction, roots: set<NodeId>, s: Spread,
                                        level: map<NodeId, nat>, u: NodeId, k: nat, maxDepth: nat, limit: nat,
                                        root: NodeId, es: seq<EdgeId>, v: NodeId)
    requires Levels(roots, s, level, k) && OthersPassed(g, d, s, level, u, maxDepth, limit)
    requires u in level && level[u] == k && k < maxDepth && |s.visited| < limit
    requires root in roots && Route(g, d, root, es, v) && |es| <= k
    ensures v in level && level[v] <= |es|
    decreases |es|
  {
    if es != [] {
      var e := es[|es| - 1];
      var p := From(g[e], d);
      RouteReached(g, d, roots, s, level, u, k, maxDepth, limit, root, es[..|es| - 1], p);
      assert !Open(s.queue, p);
      assert Passed(g, d, s, level, p);
    }
  }

  lemma NextIsNearest(g: Edges, d: Direction, roots: set<NodeId>, s: Spread, level: map<NodeId, nat>, u: NodeId,
                      k: nat, e: EdgeId, maxDepth: nat, limit: nat)
    requires Levels(roots, s, level, k) && OthersPassed(g, d, s, level, u, maxDepth, limit)
    requires u in level && level[u] == k && k < maxDepth && |s.visited| < limit
    requires e in g && From(g[e], d) == u && NearestFirst(g, d, roots, level)
    ensures NearestFirst(g, d, roots, Levelled(level, k, To(g[e], d)))
  {
    hide Levels, OthersPassed, Within;
    WithinNext(g, d, roots, e, k);
    NearerReached(g, d, roots, s, level, u, k, maxDepth, limit);
  }

  lemma NearerReached(g: Edges, d: Direction, roots: set<NodeId>, s: Spread, level: map<NodeId, nat>, u: NodeId,
                      k: nat, maxDepth: nat, limit: nat)
    requires Levels(roots, s, level, k) && OthersPassed(g, d, s, level, u, maxDepth, limit)
    requires u in level && level[u] == k && k < maxDepth && |s.visited| < limit
    ensures forall x, n: nat :: Within(g, d, roots, x, n) && n <= k ==> x in level
  {
    hide Levels, OthersPassed;
    forall x, n: nat | Within(g, d, roots, x, n) && n <= k ensures x in level {
      var root, es :| root in roots && Route(g, d, root, es, x) && |es| <= n;
      RouteReached(g, d, roots, s, level, u, k, maxDepth, limit, root, es, x);
    }
  }

  lemma NearestIsAnswered(g: Edges, d: Direction, roots: set<NodeId>, level: map<NodeId, nat>)
    requires NearestFirst(g, d, roots, level)
    ensures forall v, x, n: nat :: v in level && x !in level && Within(g, d, roots, x, n) ==> Within(g, d, roots, v, n)
  {
  }

  /** With the queue empty and the node limit not reached, every route of at most `maxDepth` edges has
      been followed to its end. */
  lemma {:induction false} RouteFollowed(g: Edges, d: Direction, roots: set<NodeId>, s: Spread, level: map<NodeId, nat>,
                                         k: nat, maxDepth: nat, limit: nat, root: NodeId, es: seq<EdgeId>, v: NodeId)
    requires Levels(roots, s, level, k) && AllPassed(g, d, s, level, maxDepth, limit)
    requires s.queue == [] && |s.visited| < limit
    requires root in roots && Route(g, d, root, es, v) && |es| <= maxDepth
    ensures v in level && level[v] <= |es|
    ensures |es| < maxDepth ==> Noted(g, d, s, v)
    decreases |es|
  {
    if es != [] {
      var e := es[|es| - 1];
      RouteFollowed(g, d, roots, s, level, k, maxDepth, limit, root, es[..|es| - 1], From(g[e], d));
      assert Passed(g, d, s, level, From(g[e], d));
    }
    assert |es| < maxDepth ==> Passed(g, d, s, level, v);
  }

  lemma AllFollowed(g: Edges, d: Direction, roots: set<NodeId>, s: Spread, level: map<NodeId, nat>, k: nat,
                    maxDepth: nat, limit: nat)
    requires Levels(roots, s, level, k) && AllPassed(g, d, s, level, maxDepth, limit)
    requires s.queue == [] && |s.visited| < limit
    ensures forall v :: Within(g, d, roots, v, maxDepth) ==> v in s.visited
    ensures d == Outgoing ==>
      forall e, n: nat :: e in g && Within(g, d, roots, g[e].source, n) && n < maxDepth ==> e in s.edges
    ensures d == Incoming ==>
      forall e, n: nat :: e in g && Within(g, d, roots, g[e].target, n) && n < maxDepth ==> e in s.edges
  {
    forall v, n: nat | Within(g, d, roots, v, n) && n <= maxDepth
      ensures v in s.visited && (n < maxDepth ==> Noted(g, d, s, v))
    {
      var root, es :| root in roots && Route(g, d, root, es, v) && |es| <= n;
      RouteFollowed(g, d, roots, s, level, k, maxDepth, limit, root, es, v);
    }
    assert forall e :: e in g ==> From(g[e], d) == if d == Outgoing then g[e].source else g[e].target;
  }

  /** One edge of a scan, with the levels. */
  method FollowEdge(g: Edges, d: Direction, ghost near: (NodeId, nat) -> bool, ghost roots: set<NodeId>, before: Spread,
                    ghost u: NodeId, k: nat, e: EdgeId, ghost maxDepth: nat, limit: nat, ghost universe: set<NodeId>,
                    ghost known: map<NodeId, nat>)
    returns (s: Spread, full: bool, ghost level: map<NodeId, nat>)
    requires before.visited <= universe && Ends(g, d) <= universe
    requires Spreading(g, d, near, roots, before, maxDepth, limit) && OthersNoted(g, d, before, u)
    requires e in g && From(g[e], d) == u && u in before.visited && k < maxDepth && near(u, k) && Sensible(g, d, near)
    requires Levels(roots, before, known, k) && OthersPassed(g, d, before, known, u, maxDepth, limit)
    requires CutRightly(before, known, maxDepth, limit)
    requires u in known && known[u] == k && NearestFirst(g, d, roots, known)
    ensures CutRightly(s, level, maxDepth, limit) && NearestFirst(g, d, roots, level)
    ensures Spreading(g, d, near, roots, s, maxDepth, limit) && OthersNoted(g, d, s, u)
    ensures before.edges <= s.edges && before.visited <= s.visited <= universe
    ensures s.visited == before.visited ==> s.queue == before.queue
    ensures Levels(roots, s, level, k) && OthersPassed(g, d, s, level, u, maxDepth, limit) && Grown(known, level)
    ensures full ==> AllPassed(g, d, s, level, maxDepth, limit) && AllNoted(g, d, s)
    ensures !full ==> e in s.edges && To(g[e], d) in level && level[To(g[e], d)] <= k + 1
  {
    hide NearestFirst;
    TouchedLevels(g, d, roots, before, known, u, k, e, maxDepth, limit);
    if |before.visited| < limit {
      NextIsNearest(g, d, roots, before, known, u, k, e, maxDepth, limit);
    }
    s, full := Touch(g, d, near, roots, before, u, k, e, maxDepth, limit, universe);
    level := if full then known else Levelled(known, k, To(g[e], d));
  }

  /** Scans the edges of one node, stopping when the node limit is reached. */
  method Follow(g: Edges, d: Direction, adjacency: Adjacency, ghost near: (NodeId, nat) -> bool,
                ghost roots: set<NodeId>, before: Spread, u: NodeId, k: nat, ghost maxDepth: nat, limit: nat,
                ghost universe: set<NodeId>, ghost known: map<NodeId, nat>)
    returns (s: Spread, ghost level: map<NodeId, nat>)
    requires u in known && known[u] == k && Levels(roots, before, known, k)
    requires OthersPassed(g, d, before, known, u, maxDepth, limit) && CutRightly(before, known, maxDepth, limit)
    requires NearestFirst(g, d, roots, known)
    ensures Levels(roots, s, level, k) && AllPassed(g, d, s, level, maxDepth, limit)
    ensures CutRightly(s, level, maxDepth, limit) && NearestFirst(g, d, roots, level)
    requires before.visited <= universe && Ends(g, d) <= universe
    requires Adjoins(g, d, adjacency) && Spreading(g, d, near, roots, before, maxDepth, limit)
    requires OthersNoted(g, d, before, u)
    requires u in before.visited && k < maxDepth && near(u, k) && Sensible(g, d, near)
    ensures Spreading(g, d, near, roots, s, maxDepth, limit) && AllNoted(g, d, s)
    ensures before.visited <= s.visited <= universe
    ensures s.visited == before.visited ==> s.queue == before.queue
  {
    hide Levels, OthersPassed, AllPassed, Spreading, Sensible, NearestFirst;
    var list := Neighbours(adjacency, u);
    s, level := before, known;
    for j := 0 to |list|
      invariant Levels(roots, s, level, k) && OthersPassed(g, d, s, level, u, maxDepth, limit)
      invariant CutRightly(s, level, maxDepth, limit) && NearestFirst(g, d, roots, level)
      invariant u in level && level[u] == k && Scanned(list, j, level, k)
      invariant Spreading(g, d, near, roots, s, maxDepth, limit) && OthersNoted(g, d, s, u)
      invariant before.visited <= s.visited <= universe
      invariant s.visited == before.visited ==> s.queue == before.queue
      invariant EntriesNoted(list, j, s)
    {
      var (e, next) := list[j];
      assert (e, next) in list;
      var full;
      ghost var before' := level;
      s, full, level := FollowEdge(g, d, near, roots, s, u, k, e, maxDepth, limit, universe, level);
      if full {
        return;
      }
      ScannedNext(list, j, before', level, k);
    }
    AllEntriesNoted(g, d, adjacency, u, s);
    ScannedIsPassed(g, d, adjacency, s, level, u, maxDepth, limit);
  }

  ghost predicate EntriesNoted(list: seq<(EdgeId, NodeId)>, n: nat, s: Spread) {
    n <= |list| && forall i :: 0 <= i < n ==> list[i].0 in s.edges
  }

  lemma AllEntriesNoted(g: Edges, d: Direction, adjacency: Adjacency, u: NodeId, s: Spread)
    requires Adjoins(g, d, adjacency) && EntriesNoted(Neighbours(adjacency, u), |Neighbours(adjacency, u)|, s)
    ensures Noted(g, d, s, u)
  {
    forall e | e in g && From(g[e], d) == u ensures e in s.edges {
      assert (e, To(g[e], d)) in Neighbours(adjacency, u);
    }
  }

  ghost predicate InNodeOrder(s: seq<nat>) {
    forall i, j :: 0 <= i < j < |s| ==> s[i] < s[j]
  }

  /** The roots always fit. */
  function NodeLimit(roots: set<NodeId>, maxNodes: nat): nat {
    if maxNodes < |roots| then |roots| else maxNodes
  }

  /** What a change of the roots may affect: no node beyond the limits, no edge to a node left
      out. Unless the answer is marked as truncated, everything that the roots lead to; and unless
      the node limit is reached, everything within the depth limit. */
  method Impact(g: Edges, roots: set<NodeId>, d: Direction, maxDepth: nat, maxNodes: nat) returns (r: TraversalResult)
    requires Keyed(g)
    ensures forall v :: v in roots ==> v in r.nodes
    ensures forall v :: v in r.nodes ==> Within(g, d, roots, v, maxDepth)
    ensures InNodeOrder(r.nodes) && InNodeOrder(r.edges)
    ensures |r.nodes| <= if maxNodes < |roots| then |roots| else maxNodes
    ensures forall e :: e in r.edges ==> e in g && g[e].source in r.nodes && g[e].target in r.nodes
    ensures !r.truncated && d == Outgoing ==>
      forall e :: e in g && g[e].source in r.nodes ==> g[e].target in r.nodes && e in r.edges
    ensures !r.truncated && d == Incoming ==>
      forall e :: e in g && g[e].target in r.nodes ==> g[e].source in r.nodes && e in r.edges
    ensures !r.truncated ==> forall v, n :: Within(g, d, roots, v, n) ==> v in r.nodes
    ensures |r.nodes| < maxNodes ==> forall v :: Within(g, d, roots, v, maxDepth) ==> v in r.nodes
    ensures |r.nodes| < maxNodes && d == Outgoing ==>
      forall e, n: nat :: e in g && Within(g, d, roots, g[e].source, n) && n < maxDepth ==> e in r.edges
    ensures |r.nodes| < maxNodes && d == Incoming ==>
      forall e, n: nat :: e in g && Within(g, d, roots, g[e].target, n) && n < maxDepth ==> e in r.edges
    ensures r.truncated ==> |r.nodes| >= maxNodes || exists v :: v in r.nodes && NoNearer(g, d, roots, v, maxDepth)
    ensures forall v, x, n: nat :: v in r.nodes && x !in r.nodes && Within(g, d, roots, x, n) ==>
      Within(g, d, roots, v, n)
  {
    hide Within, AllNoted, AllPassed, Levels, Adjoins, NearestFirst;
    var adjacency := BuildAdjacency(g, d);
    var limit := NodeLimit(roots, maxNodes);
    ghost var near := (v: NodeId, n: nat) => Within(g, d, roots, v, n);
    WithinIsSensible(g, d, roots);
    var s;
    ghost var level, k;
    s, level, k := Flood(g, d, adjacency, near, roots, maxDepth, limit);
    r := TraversalResult(InOrder(s.edges), InOrder(s.visited), s.truncated);
    DistinctSize(r.nodes);
    assert Elements(r.nodes) == s.visited;
    LevelsAreVisited(roots, s, level, k);
    NearestIsAnswered(g, d, roots, level);
    if !s.truncated {
      WholeClosure(g, d, roots, s);
    }
    if |s.visited| < limit {
      AllFollowed(g, d, roots, s, level, k, maxDepth, limit);
      if s.truncated {
        CutIsDeep(g, d, roots, s, level, k, maxDepth, limit);
      }
    }
  }

  lemma LevelsAreVisited(roots: set<NodeId>, s: Spread, level: map<NodeId, nat>, k: nat)
    requires Levels(roots, s, level, k)
    ensures level.Keys == s.visited
  {
  }

  /** Below the node limit only a node at the depth limit cuts a search off. */
  lemma CutIsDeep(g: Edges, d: Direction, roots: set<NodeId>, s: Spread, level: map<NodeId, nat>, k: nat,
                  maxDepth: nat, limit: nat)
    requires Levels(roots, s, level, k) && AllPassed(g, d, s, level, maxDepth, limit)
    requires s.queue == [] && |s.visited| < limit && s.truncated && CutRightly(s, level, maxDepth, limit)
    ensures exists v :: v in s.visited && NoNearer(g, d, roots, v, maxDepth)
  {
    var v :| v in level && level[v] >= maxDepth;
    forall n: nat | Within(g, d, roots, v, n) ensures n >= maxDepth {
      var root, es :| root in roots && Route(g, d, root, es, v) && |es| <= n;
      if |es| <= maxDepth {
        RouteFollowed(g, d, roots, s, level, k, maxDepth, limit, root, es, v);
      }
    }
  }

  lemma WholeClosure(g: Edges, d: Direction, roots: set<NodeId>, s: Spread)
    requires roots <= s.visited && AllNoted(g, d, s) && s.queue == [] && !s.truncated
    requires forall e :: e in s.edges ==> e in g && To(g[e], d) in s.visited
    ensures forall e :: e in g && From(g[e], d) in s.visited ==> e in s.edges
    ensures forall v, n :: Within(g, d, roots, v, n) ==> v in s.visited
  {
    forall v | v in s.visited ensures Noted(g, d, s, v) {
      assert !Open(s.queue, v);
    }
    forall root, es, v | root in roots && Route(g, d, root, es, v) ensures v in s.visited {
      ClosedUnderEdges(g, d, s, root, es, v);
    }
  }

  lemma {:induction false} ClosedUnderEdges(g: Edges, d: Direction, s: Spread, root: NodeId, es: seq<EdgeId>, v: NodeId)
    requires root in s.visited && Route(g, d, root, es, v)
    requires forall x :: x in s.visited ==> Noted(g, d, s, x)
    requires forall e :: e in s.edges ==> e in g && To(g[e], d) in s.visited
    ensures v in s.visited
  {
    if es != [] {
      var e := es[|es| - 1];
      ClosedUnderEdges(g, d, s, root, es[..|es| - 1], From(g[e], d));
      assert Noted(g, d, s, From(g[e], d));
    }
  }

  /** Takes one node off the queue. */
  method FloodNext(g: Edges, d: Direction, adjacency: Adjacency, ghost near: (NodeId, nat) -> bool,
                   ghost roots: set<NodeId>,
                   before: Spread, maxDepth: nat, limit: nat, ghost universe: set<NodeId>,
                   ghost known: map<NodeId, nat>, ghost front: nat)
    returns (s: Spread, ghost level: map<NodeId, nat>, ghost k: nat)
    requires Adjoins(g, d, adjacency) && Sensible(g, d, near) && before.queue != []
    requires Levels(roots, before, known, front) && AllPassed(g, d, before, known, maxDepth, limit)
    requires CutRightly(before, known, maxDepth, limit) && NearestFirst(g, d, roots, known)
    ensures Levels(roots, s, level, k) && AllPassed(g, d, s, level, maxDepth, limit)
    ensures CutRightly(s, level, maxDepth, limit) && NearestFirst(g, d, roots, level)
    requires Spreading(g, d, near, roots, before, maxDepth, limit) && AllNoted(g, d, before)
    requires before.visited <= universe && Ends(g, d) <= universe
    ensures Spreading(g, d, near, roots, s, maxDepth, limit) && AllNoted(g, d, s)
    ensures s.visited <= universe && universe - s.visited <= universe - before.visited
    ensures universe - s.visited == universe - before.visited ==> |s.queue| < |before.queue|
  {
    hide Adjoins, Sensible, Open, NearestFirst;
    var (u, at) := before.queue[0];
    var rest := before.(queue := before.queue[1..]);
    PopNoted(g, d, before);
    PopLevels(g, d, roots, before, known, front, maxDepth, limit);
    assert forall i :: 0 <= i < |rest.queue| ==> rest.queue[i] == before.queue[i + 1];
    k := at;
    if at >= maxDepth {
      s, level := rest.(truncated := true), known;
    } else {
      s, level := Follow(g, d, adjacency, near, roots, rest, u, at, maxDepth, limit, universe, known);
    }
  }

  method Flood(g: Edges, d: Direction, adjacency: Adjacency, ghost near: (NodeId, nat) -> bool, roots: set<NodeId>,
               maxDepth: nat, limit: nat)
    returns (s: Spread, ghost level: map<NodeId, nat>, ghost k: nat)
    requires Adjoins(g, d, adjacency) && |roots| <= limit
    requires Sensible(g, d, near) && forall v :: v in roots ==> near(v, 0)
    ensures Spreading(g, d, near, roots, s, maxDepth, limit) && AllNoted(g, d, s) && s.queue == []
    ensures Levels(roots, s, level, k) && AllPassed(g, d, s, level, maxDepth, limit)
    ensures CutRightly(s, level, maxDepth, limit) && NearestFirst(g, d, roots, level)
  {
    hide AllPassed, AllNoted, Sensible, Adjoins, Levels, NearestFirst;
    var start := InOrder(roots);
    s := Spread(seq(|start|, i requires 0 <= i < |start| => (start[i], 0)), roots, {}, false);
    level, k := map v | v in roots :: 0, 0;
    RootsReady(g, d, near, roots, start, s, level, maxDepth, limit);
    RootsAreNearest(g, d, roots, level);
    ghost var universe := roots + Ends(g, d);
    while s.queue != []
      invariant Spreading(g, d, near, roots, s, maxDepth, limit) && AllNoted(g, d, s)
      invariant Levels(roots, s, level, k) && AllPassed(g, d, s, level, maxDepth, limit)
      invariant CutRightly(s, level, maxDepth, limit) && NearestFirst(g, d, roots, level)
      invariant s.visited <= universe
      decreases universe - s.visited, |s.queue|
    {
      s, level, k := FloodNext(g, d, adjacency, near, roots, s, maxDepth, limit, universe, level, k);
    }
  }

  lemma RootsAreNearest(g: Edges, d: Direction, roots: set<NodeId>, level: map<NodeId, nat>)
    requires level == map v | v in roots :: 0
    ensures NearestFirst(g, d, roots, level)
  {
    forall v | v in roots ensures Within(g, d, roots, v, 0) {
      assert Route(g, d, v, [], v);
    }
  }

  lemma PopNoted(g: Edges, d: Direction, s: Spread)
    requires s.queue != [] && AllNoted(g, d, s)
    ensures OthersNoted(g, d, s.(queue := s.queue[1..]), s.queue[0].0)
  {
    OpenAfterPop(s.queue);
  }

  lemma RootsReady(g: Edges, d: Direction, near: (NodeId, nat) -> bool, roots: set<NodeId>, start: seq<NodeId>,
                   s: Spread, level: map<NodeId, nat>, maxDepth: nat, limit: nat)
    requires level == map v | v in roots :: 0
    requires |roots| <= limit && (forall v :: v in start <==> v in roots)
    requires Sensible(g, d, near) && forall v :: v in roots ==> near(v, 0)
    requires s.visited == roots && s.edges == {} && |s.queue| == |start|
    requires forall i :: 0 <= i < |start| ==> s.queue[i] == (start[i], 0)
    ensures Spreading(g, d, near, roots, s, maxDepth, limit) && AllNoted(g, d, s)
    ensures Levels(roots, s, level, 0) && AllPassed(g, d, s, level, maxDepth, limit)
  {
    assert level.Keys == roots;
    forall v | v in roots ensures near(v, maxDepth) && Open(s.queue, v) {
      assert near(v, 0);
      var i :| 0 <= i < |start| && start[i] == v;
      assert s.queue[i].0 == v;
    }
    assert forall i :: 0 <= i < |start| ==> start[i] in start;
  }
}
