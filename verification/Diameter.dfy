/** `_all_pairs_diameter` of netlab/topology.py: one search per node, or two searches on a tree. */
module Diameter {
  import opened Options
  import opened Walks
  import opened Distances
  import Adjacency

  // ---------------------------------------------------------------- the search

  /** paths[v] extends the path of its last but one node by v. */
  ghost predicate Extended(arcs: set<Arc>, paths: map<Node, seq<Node>>, v: Node) {
    && v in paths && |paths[v]| >= 2 && paths[v][|paths[v]|-1] == v
    && var u := paths[v][|paths[v]|-2];
       u in paths && (u, v) in arcs && paths[v] == paths[u] + [v]
  }

  /** A tree of paths from the root, one for every labelled node, as long as its label says. */
  ghost predicate PathTree(arcs: set<Arc>, root: Node, dist: map<Node, int>, paths: map<Node, seq<Node>>) {
    && paths.Keys == dist.Keys && root in paths && paths[root] == [root]
    && (forall v {:trigger Extended(arcs, paths, v)} :: v in paths && v != root ==> Extended(arcs, paths, v))
    && (forall v {:trigger dist[v]} :: v in dist ==> v in paths && |paths[v]| == dist[v] + 1)
  }

  lemma GrowTree(arcs: set<Arc>, root: Node, dist: map<Node, int>, paths: map<Node, seq<Node>>, node: Node, nxt: Node)
    requires PathTree(arcs, root, dist, paths) && (node, nxt) in arcs && node in dist && nxt !in dist
    requires |paths[node]| >= 1 && paths[node][|paths[node]|-1] == node
    ensures PathTree(arcs, root, dist[nxt := dist[node] + 1], paths[nxt := paths[node] + [nxt]])
  {
    var paths' := paths[nxt := paths[node] + [nxt]];
    assert dist[node] == |paths[node]| - 1;
    forall v | v in paths' && v != root ensures Extended(arcs, paths', v) {
      if v != nxt {
        assert Extended(arcs, paths, v);
      }
    }
  }

  lemma PathEnds(arcs: set<Arc>, root: Node, dist: map<Node, int>, paths: map<Node, seq<Node>>, v: Node)
    requires PathTree(arcs, root, dist, paths) && v in paths
    ensures |paths[v]| >= 1 && paths[v][|paths[v]|-1] == v
    ensures v != root ==> Extended(arcs, paths, v)
  {
    if v != root { assert Extended(arcs, paths, v); }
  }

  /** The queue holds node and distance pairs. */
  ghost predicate Pairs(queue: seq<(Node, int)>, names: seq<Node>, dist: map<Node, int>) {
    && |queue| == |names|
    && forall i :: 0 <= i < |names| ==> names[i] in dist && queue[i] == (names[i], dist[names[i]])
  }

  lemma PairsTail(queue: seq<(Node, int)>, names: seq<Node>, dist: map<Node, int>)
    requires Pairs(queue, names, dist) && queue != []
    ensures queue[0] == (names[0], dist[names[0]]) && Pairs(queue[1..], names[1..], dist)
  {
  }

  /** The inner loop of `farthest` has dealt with the neighbours in scanned. */
  ghost predicate Searching(arcs: set<Arc>, start: Node, queue: seq<(Node, int)>, seen: set<Node>, names: seq<Node>,
                            dist: map<Node, int>, paths: map<Node, seq<Node>>, done: set<Node>,
                            node: Node, distance: int, scanned: set<Node>) {
    && Expanding(arcs, start, dist, names, done, node, scanned)
    && PathTree(arcs, start, dist, paths)
    && Pairs(queue, names, dist) && seen == dist.Keys && distance == dist[node]
  }

  lemma Found(arcs: set<Arc>, start: Node, queue: seq<(Node, int)>, seen: set<Node>, names: seq<Node>,
              dist: map<Node, int>, paths: map<Node, seq<Node>>, done: set<Node>,
              node: Node, distance: int, scanned: set<Node>, nxt: Node)
    requires Searching(arcs, start, queue, seen, names, dist, paths, done, node, distance, scanned)
    requires (node, nxt) in arcs && nxt !in seen
    ensures node in paths
    ensures Searching(arcs, start, queue + [(nxt, distance + 1)], seen + {nxt}, names + [nxt],
                      dist[nxt := distance + 1], paths[nxt := paths[node] + [nxt]], done, node, distance, scanned + {nxt})
  {
    PathEnds(arcs, start, dist, paths, node);
    GrowTree(arcs, start, dist, paths, node, nxt);
    Discover(arcs, start, dist, names, done, node, scanned, nxt);
    PairsPush(queue, names, dist, nxt, distance + 1);
  }

  lemma PairsPush(queue: seq<(Node, int)>, names: seq<Node>, dist: map<Node, int>, nxt: Node, d: int)
    requires Pairs(queue, names, dist) && nxt !in dist
    ensures Pairs(queue + [(nxt, d)], names + [nxt], dist[nxt := d])
  {
  }

  /** The inner loop of `farthest`. */
  method Expand(graph: Graph, node: Node, distance: int, queue0: seq<(Node, int)>, seen0: set<Node>,
                ghost start: Node, ghost names0: seq<Node>, ghost done: set<Node>,
                ghost dist0: map<Node, int>, ghost paths0: map<Node, seq<Node>>)
    returns (queue: seq<(Node, int)>, seen: set<Node>, ghost names: seq<Node>,
             ghost dist: map<Node, int>, ghost paths: map<Node, seq<Node>>)
    requires Searching(Arcs(graph), start, queue0, seen0, names0, dist0, paths0, done, node, distance, {})
    ensures Frontier(Arcs(graph), start, dist, names, done + {node})
    ensures PathTree(Arcs(graph), start, dist, paths)
    ensures Pairs(queue, names, dist) && seen == dist.Keys
    ensures forall n :: n in dist0 ==> n in dist && dist[n] == dist0[n]
  {
    ghost var arcs := Arcs(graph);
    queue, seen, names, dist, paths := queue0, seen0, names0, dist0, paths0;
    var todo := Succ(graph, node);
    ghost var scanned: set<Node> := {};
    while todo != {}
      invariant todo + scanned == Succ(graph, node)
      invariant Searching(arcs, start, queue, seen, names, dist, paths, done, node, distance, scanned)
      invariant forall n :: n in dist0 ==> n in dist && dist[n] == dist0[n]
    {
      var nxt :| nxt in todo;
      todo := todo - {nxt};
      if nxt !in seen {
        Found(arcs, start, queue, seen, names, dist, paths, done, node, distance, scanned, nxt);
        seen := seen + {nxt};
        queue := queue + [(nxt, distance + 1)];
        names, dist, paths := names + [nxt], dist[nxt := distance + 1], paths[nxt := paths[node] + [nxt]];
      }
      scanned := scanned + {nxt};
    }
    Expanded(arcs, start, dist, names, done, node, scanned);
  }

  /** A node farthest from start, its distance, and the number of nodes reached. */
  method Farthest(graph: Graph, start: Node)
    returns (farNode: Node, farDistance: int, reached: int,
             ghost dist: map<Node, int>, ghost paths: map<Node, seq<Node>>)
    ensures forall v :: v in dist ==> Distance(Arcs(graph), start, v, dist[v])
    ensures forall v :: v in dist <==> Reach(Arcs(graph), start, v)
    ensures reached == |dist.Keys| && farNode in dist && farDistance == dist[farNode]
    ensures forall v :: v in dist ==> dist[v] <= farDistance
    ensures PathTree(Arcs(graph), start, dist, paths)
  {
    ghost var arcs := Arcs(graph);
    var queue := [(start, 0)];
    var seen := {start};
    farNode, farDistance := start, 0;
    dist, paths := map[start := 0], map[start := [start]];
    ghost var names, done: set<Node> := [start], {};
    ghost var all := AllNodes(graph) + {start};
    Start(arcs, start);
    while queue != []
      invariant Frontier(arcs, start, dist, names, done)
      invariant PathTree(arcs, start, dist, paths)
      invariant Pairs(queue, names, dist) && seen == dist.Keys
      invariant farNode in dist && farDistance == dist[farNode]
      invariant farDistance >= 0 && forall v :: v in done ==> dist[v] <= farDistance
      decreases all - done
    {
      PairsTail(queue, names, dist);
      var (node, distance) := queue[0];
      LabelKnown(graph, start, dist, node);
      Pop(arcs, start, dist, names, done);
      if distance > farDistance {
        farNode, farDistance := node, distance;
      }
      queue, seen, names, dist, paths := Expand(graph, node, distance, queue[1..], seen, start, names[1..], done, dist, paths);
      done := done + {node};
    }
    reached := |seen|;
    Finished(arcs, start, dist, done);
  }

  ghost function AllNodes(graph: Graph): set<Node> {
    graph.Keys + set u, v | u in graph && v in graph[u] :: v
  }

  lemma LabelKnown(graph: Graph, start: Node, dist: map<Node, int>, v: Node)
    requires Labels(Arcs(graph), start, dist) && v in dist
    ensures v in AllNodes(graph) + {start}
  {
    if v != start {
      assert Supported(Arcs(graph), dist, v);
    }
  }

  // ---------------------------------------------------------------- distances in a tree

  /** The length of the longest common prefix. */
  ghost function Common(p: seq<Node>, q: seq<Node>): nat {
    if p == [] || q == [] || p[0] != q[0] then 0 else 1 + Common(p[1..], q[1..])
  }

  /** Hops from the end of one root path to the end of another through the tree. */
  ghost function Hops(p: seq<Node>, q: seq<Node>): int {
    |p| + |q| - 2 * Common(p, q)
  }

  lemma {:induction false} CommonBound(p: seq<Node>, q: seq<Node>)
    ensures Common(p, q) <= |p| && Common(p, q) <= |q|
    ensures Common(p, q) == Common(q, p)
    ensures Common(p, p) == |p|
    decreases |p|
  {
    if p != [] {
      CommonBound(p[1..], if q == [] then [] else q[1..]);
    }
  }

  /** Common prefixes are ultrametric. */
  lemma {:induction false} CommonUltra(p: seq<Node>, q: seq<Node>, r: seq<Node>)
    ensures Common(p, q) >= Common(p, r) || Common(p, q) >= Common(r, q)
    decreases |p|
  {
    if p != [] && q != [] && r != [] && p[0] == r[0] == q[0] {
      CommonUltra(p[1..], q[1..], r[1..]);
    }
  }

  /** Of the three ways to pair up four root paths, no pairing exceeds both others. */
  lemma FourPoints(a: seq<Node>, u: seq<Node>, v: seq<Node>, r: seq<Node>)
    requires |r| == 1 && |a| > 0 && |u| > 0 && |v| > 0 && a[0] == u[0] == v[0] == r[0]
    ensures Hops(u, v) + Hops(r, a) <= Hops(r, u) + Hops(a, v) || Hops(u, v) + Hops(r, a) <= Hops(r, v) + Hops(a, u)
  {
    CommonUltra(u, v, a);
    CommonBound(u, a);
    CommonBound(a, v);
    CommonFromRoot(r, a);
    CommonFromRoot(r, u);
    CommonFromRoot(r, v);
  }

  lemma {:induction false} CommonSnoc(p: seq<Node>, q: seq<Node>, y: Node)
    ensures Common(p, q + [y]) == Common(p, q) || Common(p, q + [y]) == Common(p, q) + 1
    decreases |q|
  {
    if q == [] {
      assert q + [y] == [y];
    } else if p != [] {
      assert (q + [y])[1..] == q[1..] + [y];
      CommonSnoc(p[1..], q[1..], y);
    }
  }

  /** Every edge between different nodes joins a node to the one its path goes through last. */
  ghost predicate TreeOnly(arcs: set<Arc>, paths: map<Node, seq<Node>>) {
    forall x, y :: (x, y) in arcs && x != y ==>
      x in paths && y in paths && (paths[y] == paths[x] + [y] || paths[x] == paths[y] + [x])
  }

  /** No walk is shorter than the way through the tree. */
  lemma {:induction false} WalkHops(arcs: set<Arc>, paths: map<Node, seq<Node>>, x: Node, y: Node, w: seq<Node>)
    requires TreeOnly(arcs, paths) && x in paths && Walk(arcs, x, y, w)
    ensures y in paths && Hops(paths[x], paths[y]) <= |w| - 1
    decreases |w|
  {
    CommonBound(paths[x], paths[x]);
    if |w| > 1 {
      var z := w[|w|-2];
      assert Walk(arcs, x, z, w[..|w|-1]);
      WalkHops(arcs, paths, x, z, w[..|w|-1]);
      assert (z, y) in arcs;
      if z != y {
        if paths[y] == paths[z] + [y] {
          CommonSnoc(paths[x], paths[z], y);
        } else {
          CommonSnoc(paths[x], paths[y], z);
        }
      }
    }
  }

  /** Root paths are walks that start at the root. */
  lemma {:induction false} RootPath(arcs: set<Arc>, root: Node, dist: map<Node, int>, paths: map<Node, seq<Node>>, v: Node)
    requires PathTree(arcs, root, dist, paths) && v in paths
    ensures Walk(arcs, root, v, paths[v])
    ensures forall i :: 0 <= i < |paths[v]| ==> paths[v][i] in paths && paths[paths[v][i]] == paths[v][..i+1]
    decreases |paths[v]|
  {
    if v != root {
      assert Extended(arcs, paths, v);
      var u := paths[v][|paths[v]|-2];
      RootPath(arcs, root, dist, paths, u);
      WalkSnoc(arcs, root, u, v, paths[u]);
    }
  }

  /** Some walk is as short as the way through the tree. */
  lemma {:induction false} TreeWalk(arcs: set<Arc>, root: Node, dist: map<Node, int>, paths: map<Node, seq<Node>>,
                                    x: Node, y: Node) returns (w: seq<Node>)
    requires Symmetric(arcs) && PathTree(arcs, root, dist, paths) && x in paths && y in paths
    ensures Walk(arcs, x, y, w) && |w| == Hops(paths[x], paths[y]) + 1
    decreases |paths[x]|
  {
    var p, q := paths[x], paths[y];
    CommonBound(p, q);
    RootPath(arcs, root, dist, paths, y);
    if Common(p, q) == |p| {
      CommonIsPrefix(p, q);
      PathEnds(arcs, root, dist, paths, x);
      w := q[|p|-1..];
    } else {
      RootPath(arcs, root, dist, paths, x);
      CommonRoot(p, q);
      assert Extended(arcs, paths, x);
      var z := p[|p|-2];
      CommonShorter(paths[z], q, x);
      var rest := TreeWalk(arcs, root, dist, paths, z, y);
      assert (x, z) in arcs;
      WalkCons(arcs, x, z, y, rest);
      w := [x] + rest;
    }
  }

  lemma CommonRoot(p: seq<Node>, q: seq<Node>)
    requires |p| > 0 && |q| > 0 && p[0] == q[0]
    ensures Common(p, q) >= 1
  {
  }

  lemma {:induction false} CommonIsPrefix(p: seq<Node>, q: seq<Node>)
    requires Common(p, q) == |p|
    ensures p <= q
    decreases |p|
  {
    if p != [] {
      CommonIsPrefix(p[1..], q[1..]);
    }
  }

  lemma {:induction false} CommonShorter(p: seq<Node>, q: seq<Node>, x: Node)
    requires Common(p + [x], q) <= |p|
    ensures Common(p + [x], q) == Common(p, q)
    decreases |p|
  {
    if p == [] {
    } else if q != [] && p[0] == q[0] {
      assert (p + [x])[1..] == p[1..] + [x];
      CommonShorter(p[1..], q[1..], x);
    }
  }

  lemma TreeDistance(arcs: set<Arc>, root: Node, dist: map<Node, int>, paths: map<Node, seq<Node>>, x: Node, y: Node)
    requires Symmetric(arcs) && PathTree(arcs, root, dist, paths) && TreeOnly(arcs, paths) && x in paths && y in paths
    ensures Distance(arcs, x, y, Hops(paths[x], paths[y]))
  {
    var w := TreeWalk(arcs, root, dist, paths, x, y);
    forall p | Walk(arcs, x, y, p) ensures |p| >= Hops(paths[x], paths[y]) + 1 {
      WalkHops(arcs, paths, x, y, p);
    }
  }

  /** In a tree, no two nodes are further apart than a node farthest from the root is from some node. */
  lemma TwoSweeps(arcs: set<Arc>, root: Node, dist: map<Node, int>, paths: map<Node, seq<Node>>,
                  a: Node, far: int, u: Node, v: Node, d: int)
    requires Symmetric(arcs) && PathTree(arcs, root, dist, paths) && TreeOnly(arcs, paths)
    requires a in paths && u in paths && v in paths
    requires forall x :: x in dist ==> dist[x] <= dist[a]
    requires forall x, e :: x in paths && Distance(arcs, a, x, e) ==> e <= far
    requires Distance(arcs, u, v, d)
    ensures d <= far
  {
    RootPath(arcs, root, dist, paths, a);
    RootPath(arcs, root, dist, paths, u);
    RootPath(arcs, root, dist, paths, v);
    assert dist[a] == |paths[a]| - 1 && dist[u] == |paths[u]| - 1 && dist[v] == |paths[v]| - 1;
    FourPoints(paths[a], paths[u], paths[v], paths[root]);
    CommonFromRoot(paths[root], paths[a]);
    CommonFromRoot(paths[root], paths[u]);
    CommonFromRoot(paths[root], paths[v]);
    TreeDistance(arcs, root, dist, paths, u, v);
    TreeDistance(arcs, root, dist, paths, a, u);
    TreeDistance(arcs, root, dist, paths, a, v);
    DistanceUnique(arcs, u, v, d, Hops(paths[u], paths[v]));
  }

  lemma CommonFromRoot(r: seq<Node>, p: seq<Node>)
    requires |r| == 1 && |p| > 0 && p[0] == r[0]
    ensures Common(r, p) == 1
  {
    assert r[1..] == [];
  }

  // ---------------------------------------------------------------- counting edges

  type Edge = set<Node>

  /** {tuple(sorted((src, dst))) for src, dst in edges if src != dst} */
  function SimpleEdges(edges: seq<Arc>): set<Edge> {
    set e | e in edges && e.0 != e.1 :: {e.0, e.1}
  }

  ghost function Previous(paths: map<Node, seq<Node>>, v: Node): Node {
    if v in paths && |paths[v]| >= 2 then paths[v][|paths[v]|-2] else v
  }

  ghost function TreeEdges(paths: map<Node, seq<Node>>, vs: set<Node>): set<Edge> {
    set v | v in vs :: {v, Previous(paths, v)}
  }

  /** Different nodes have different tree edges. */
  lemma {:induction false} TreeEdgeCount(arcs: set<Arc>, root: Node, dist: map<Node, int>, paths: map<Node, seq<Node>>, vs: set<Node>)
    requires PathTree(arcs, root, dist, paths) && vs <= paths.Keys - {root}
    ensures |TreeEdges(paths, vs)| == |vs|
    decreases |vs|
  {
    if vs == {} {
      assert TreeEdges(paths, vs) == {};
    } else {
      var v :| v in vs;
      var rest := vs - {v};
      TreeEdgeCount(arcs, root, dist, paths, rest);
      assert Extended(arcs, paths, v);
      var e := {v, Previous(paths, v)};
      forall w | w in rest ensures {w, Previous(paths, w)} != e {
        assert Extended(arcs, paths, w);
        assert w in {w, Previous(paths, w)} && Previous(paths, w) in {w, Previous(paths, w)};
      }
      assert TreeEdges(paths, vs) == TreeEdges(paths, rest) + {e};
    }
  }

  /** With one edge less than nodes, every edge of a connected graph is a tree edge. */
  lemma FewEdgesMakeATree(edges: seq<Arc>, root: Node, dist: map<Node, int>, paths: map<Node, seq<Node>>)
    requires PathTree(Undirected(edges), root, dist, paths)
    requires forall e :: e in edges ==> e.0 in paths && e.1 in paths
    requires |SimpleEdges(edges)| == |paths.Keys| - 1
    ensures TreeOnly(Undirected(edges), paths)
  {
    var arcs := Undirected(edges);
    var tree := TreeEdges(paths, paths.Keys - {root});
    TreeEdgeCount(arcs, root, dist, paths, paths.Keys - {root});
    forall t | t in tree ensures t in SimpleEdges(edges) {
      var v :| v in paths.Keys - {root} && t == {v, Previous(paths, v)};
      assert Extended(arcs, paths, v);
      var u := Previous(paths, v);
      assert u != v && {v, u} == {u, v} == t;
      if (u, v) !in edges { assert (v, u) in edges; }
    }
    SameSize(tree, SimpleEdges(edges));
    forall x, y | (x, y) in arcs && x != y
      ensures x in paths && y in paths && (paths[y] == paths[x] + [y] || paths[x] == paths[y] + [x])
    {
      if (x, y) !in edges { assert (y, x) in edges && {y, x} == {x, y}; }
      assert {x, y} in tree;
      var v :| v in paths.Keys - {root} && {x, y} == {v, Previous(paths, v)};
      assert Extended(arcs, paths, v);
      assert v in {x, y} && Previous(paths, v) in {x, y} && x in {v, Previous(paths, v)} && y in {v, Previous(paths, v)};
    }
  }

  // ---------------------------------------------------------------- the diameter

  ghost predicate Connected(nodes: seq<Node>, arcs: set<Arc>) {
    forall u, v :: u in nodes && v in nodes ==> Reach(arcs, u, v)
  }

  /** d is the greatest distance between two listed nodes. */
  ghost predicate Greatest(nodes: seq<Node>, arcs: set<Arc>, d: int) {
    && (exists u, v :: u in nodes && v in nodes && Distance(arcs, u, v, d))
    && (forall u, v, e :: u in nodes && v in nodes && Distance(arcs, u, v, e) ==> e <= d)
  }

  /** reached == len(nodes) exactly when all listed nodes, listed once each, are reached. */
  lemma ReachedAll(nodes: seq<Node>, edges: seq<Arc>, start: Node, dist: map<Node, int>)
    requires start in nodes && forall e :: e in edges ==> e.0 in nodes && e.1 in nodes
    requires forall v :: v in dist <==> Reach(Undirected(edges), start, v)
    ensures dist.Keys <= NodeSet(nodes)
    ensures |dist.Keys| == |nodes| <==> Distinct(nodes) && Connected(nodes, Undirected(edges))
    ensures |dist.Keys| == |nodes| ==> dist.Keys == NodeSet(nodes)
  {
    var arcs := Undirected(edges);
    forall v | v in dist ensures v in nodes {
      ReachStays(arcs, NodeSet(nodes), start, v);
    }
    SubsetSize(dist.Keys, NodeSet(nodes));
    NodeSetSize(nodes);
    if |dist.Keys| == |nodes| {
      SameSize(dist.Keys, NodeSet(nodes));
      forall u, v | u in nodes && v in nodes ensures Reach(arcs, u, v) {
        ReachSym(arcs, start, u);
        ReachTrans(arcs, u, start, v);
      }
    }
    if Distinct(nodes) && Connected(nodes, arcs) {
      assert dist.Keys == NodeSet(nodes);
    }
  }

  /** `_all_pairs_diameter`: None exactly when some listed nodes are not connected (or a name is listed
      twice), and otherwise the greatest distance, on the two-search shortcut as on the full loop. */
  method AllPairsDiameter(nodes: seq<Node>, edges: seq<Arc>) returns (r: Option<int>)
    requires forall e :: e in edges ==> e.0 in nodes && e.1 in nodes
    ensures nodes == [] ==> r == Some(0)
    ensures nodes != [] ==> (r == None <==> !Distinct(nodes) || !Connected(nodes, Undirected(edges)))
    ensures nodes != [] && r.Some? ==> Greatest(nodes, Undirected(edges), r.value)
  {
    var graph := Adjacency.Adjacency(nodes, edges, false);
    ghost var arcs := Undirected(edges);
    if nodes == [] {
      return Some(0);
    }
    var pairs := SimpleEdges(edges);
    var first, far1, reached, dist1, paths := Farthest(graph, nodes[0]);
    ReachedAll(nodes, edges, nodes[0], dist1);
    if reached != |nodes| {
      return None;
    }
    if |pairs| == (if |nodes| - 1 > 0 then |nodes| - 1 else 0) {
      var _, diameter, _, dist2, _ := Farthest(graph, first);
      ShortcutIsGreatest(nodes, edges, dist1, paths, first, dist2, diameter);
      return Some(diameter);
    }
    r := AllSources(graph, nodes, edges);
  }

  /** d is a distance between listed nodes, and none from the first i nodes is greater. */
  ghost predicate GreatestFrom(nodes: seq<Node>, i: nat, arcs: set<Arc>, d: int)
    requires i <= |nodes|
  {
    && (exists u, v :: u in nodes && v in nodes && Distance(arcs, u, v, d))
    && (forall u, v, e :: u in nodes[..i] && v in nodes && Distance(arcs, u, v, e) ==> e <= d)
  }

  lemma OneMoreSource(nodes: seq<Node>, i: nat, arcs: set<Arc>, d: int, dist: map<Node, int>, far: Node, distance: int)
    requires i < |nodes| && GreatestFrom(nodes, i, arcs, d) && dist.Keys == NodeSet(nodes)
    requires forall v :: v in dist ==> Distance(arcs, nodes[i], v, dist[v]) && dist[v] <= distance
    requires far in dist && distance == dist[far]
    ensures GreatestFrom(nodes, i + 1, arcs, if distance > d then distance else d)
  {
    assert nodes[..i+1] == nodes[..i] + [nodes[i]];
    forall v, e | v in nodes && Distance(arcs, nodes[i], v, e) ensures e <= distance {
      DistanceUnique(arcs, nodes[i], v, e, dist[v]);
    }
    if distance > d {
      assert Distance(arcs, nodes[i], far, distance);
    }
  }

  lemma DistanceSelf(arcs: set<Arc>, u: Node)
    ensures Distance(arcs, u, u, 0)
  {
    assert Walk(arcs, u, u, [u]);
  }

  lemma ShortcutIsGreatest(nodes: seq<Node>, edges: seq<Arc>, dist1: map<Node, int>, paths: map<Node, seq<Node>>,
                           first: Node, dist2: map<Node, int>, diameter: int)
    requires nodes != [] && (forall e :: e in edges ==> e.0 in nodes && e.1 in nodes)
    requires Distinct(nodes) && Connected(nodes, Undirected(edges))
    requires PathTree(Undirected(edges), nodes[0], dist1, paths) && dist1.Keys == NodeSet(nodes)
    requires |SimpleEdges(edges)| == |nodes| - 1
    requires first in dist1 && forall v :: v in dist1 ==> dist1[v] <= dist1[first]
    requires forall v :: v in dist2 ==> Distance(Undirected(edges), first, v, dist2[v])
    requires forall v :: v in dist2 <==> Reach(Undirected(edges), first, v)
    requires (exists v :: v in dist2 && dist2[v] == diameter) && forall v :: v in dist2 ==> dist2[v] <= diameter
    ensures Greatest(nodes, Undirected(edges), diameter)
  {
    var arcs := Undirected(edges);
    NodeSetSize(nodes);
    FewEdgesMakeATree(edges, nodes[0], dist1, paths);
    forall x, e | x in paths && Distance(arcs, first, x, e) ensures e <= diameter {
      DistanceReach(arcs, first, x, e);
      DistanceUnique(arcs, first, x, e, dist2[x]);
    }
    forall u, v, e | u in nodes && v in nodes && Distance(arcs, u, v, e) ensures e <= diameter {
      TwoSweeps(arcs, nodes[0], dist1, paths, first, diameter, u, v, e);
    }
    var v :| v in dist2 && dist2[v] == diameter;
    ReachStays(arcs, NodeSet(nodes), first, v);
    assert Distance(arcs, first, v, diameter);
  }

  /** The loop over all nodes. */
  method AllSources(graph: Graph, nodes: seq<Node>, edges: seq<Arc>) returns (r: Option<int>)
    requires nodes != [] && forall e :: e in edges ==> e.0 in nodes && e.1 in nodes
    requires Arcs(graph) == Undirected(edges) && Distinct(nodes) && Connected(nodes, Undirected(edges))
    ensures r == None <==> !Distinct(nodes) || !Connected(nodes, Undirected(edges))
    ensures r.Some? ==> Greatest(nodes, Undirected(edges), r.value)
  {
    ghost var arcs := Undirected(edges);
    var diameter := 0;
    DistanceSelf(arcs, nodes[0]);
    for i := 0 to |nodes|
      invariant GreatestFrom(nodes, i, arcs, diameter)
    {
      var far, distance, count, dist, _ := Farthest(graph, nodes[i]);
      ReachedAll(nodes, edges, nodes[i], dist);
      if count != |nodes| {
        return None;
      }
      OneMoreSource(nodes, i, arcs, diameter, dist, far, distance);
      diameter := if distance > diameter then distance else diameter;
    }
    return Some(diameter);
  }
}
