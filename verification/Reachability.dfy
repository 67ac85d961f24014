/** `reachable`, `connected_components` and `shortest_path` of netlab/topology.py. */
module Reachability {
  import opened Options
  import opened Walks
  import opened Distances
  import opened LowLink
  import Adj = Adjacency

  /** A set listed in some order. */
  method Listed(s: set<Node>) returns (names: seq<Node>)
    ensures NodeSet(names) == s && Distinct(names)
  {
    names := [];
    var todo := s;
    while todo != {}
      invariant todo <= s && NodeSet(names) == s - todo && Distinct(names)
    {
      var n :| n in todo;
      todo := todo - {n};
      assert NodeSet(names + [n]) == NodeSet(names) + {n};
      names := names + [n];
    }
  }

  // ---------------------------------------------------------------- reachable

  /** c holds exactly what start reaches. */
  ghost predicate ReachedFrom(arcs: set<Arc>, start: Node, c: set<Node>) {
    forall v :: v in c <==> Reach(arcs, start, v)
  }

  ghost predicate Spreading(arcs: set<Arc>, source: Node, seen: set<Node>, queue: seq<Node>) {
    && (source in seen || source in queue)
    && (forall n :: n in seen || n in queue ==> Reach(arcs, source, n))
    && (forall u, v :: (u, v) in arcs && u in seen ==> v in seen || v in queue)
  }

  lemma Spread(arcs: set<Arc>, source: Node, seen: set<Node>, queue: seq<Node>, names: seq<Node>)
    requires Spreading(arcs, source, seen, queue) && queue != [] && queue[0] !in seen
    requires NodeSet(names) == Neighbours(arcs, queue[0]) - (seen + {queue[0]})
    ensures Spreading(arcs, source, seen + {queue[0]}, queue[1..] + names)
  {
    var node := queue[0];
    assert queue == [node] + queue[1..];
    forall n | n in names ensures Reach(arcs, source, n) {
      assert n in NodeSet(names);
      ReachArc(arcs, node, n);
      ReachTrans(arcs, source, node, n);
    }
    forall u, v | (u, v) in arcs && u in seen + {node} ensures v in seen + {node} || v in queue[1..] + names {
      if u == node && v !in seen + {node} {
        assert v in Neighbours(arcs, node);
        assert v in NodeSet(names);
      }
    }
  }

  lemma SpreadSkip(arcs: set<Arc>, source: Node, seen: set<Node>, queue: seq<Node>)
    requires Spreading(arcs, source, seen, queue) && queue != [] && queue[0] in seen
    ensures Spreading(arcs, source, seen, queue[1..])
  {
    assert queue == [queue[0]] + queue[1..];
  }

  lemma SpreadEnd(arcs: set<Arc>, source: Node, seen: set<Node>)
    requires Spreading(arcs, source, seen, [])
    ensures forall v :: v in seen <==> Reach(arcs, source, v)
  {
    forall v | Reach(arcs, source, v) ensures v in seen {
      ReachStays(arcs, seen, source, v);
    }
  }

  /** Nodes named in the dictionary. */
  function Mentioned(graph: Graph): set<Node> {
    graph.Keys + set u, v | u in graph && v in graph[u] :: v
  }

  lemma SuccIsNeighbours(graph: Graph, n: Node)
    ensures Succ(graph, n) == Neighbours(Arcs(graph), n) && Succ(graph, n) <= Mentioned(graph)
  {
    forall w | w in Succ(graph, n) ensures w in Neighbours(Arcs(graph), n) {
      assert (n, w) in Arcs(graph);
    }
  }

  /** `reachable`: exactly the nodes some walk leads to. */
  method Reachable(graph: Graph, source: Node) returns (seen: set<Node>)
    ensures ReachedFrom(Arcs(graph), source, seen)
  {
    seen := {};
    var queue := [source];
    ReachRefl(Arcs(graph), source);
    while queue != []
      invariant Spreading(Arcs(graph), source, seen, queue)
      invariant seen + NodeSet(queue) <= Mentioned(graph) + {source}
      decreases Mentioned(graph) + {source} - seen, |queue|
    {
      var node := queue[0];
      if node in seen {
        SpreadSkip(Arcs(graph), source, seen, queue);
        queue := queue[1..];
        continue;
      }
      assert node in NodeSet(queue);
      SuccIsNeighbours(graph, node);
      var names := Listed(Succ(graph, node) - (seen + {node}));
      Spread(Arcs(graph), source, seen, queue, names);
      StillMentioned(queue, names);
      seen := seen + {node};
      queue := queue[1..] + names;
    }
    SpreadEnd(Arcs(graph), source, seen);
  }

  lemma StillMentioned(queue: seq<Node>, names: seq<Node>)
    requires queue != []
    ensures NodeSet(queue[1..] + names) <= NodeSet(queue) + NodeSet(names)
  {
  }

  // ---------------------------------------------------------------- connected_components

  ghost predicate IsComponent(arcs: set<Arc>, c: set<Node>) {
    exists start :: start in c && ReachedFrom(arcs, start, c)
  }

  ghost predicate Covered(components: seq<set<Node>>, n: Node) {
    exists i :: 0 <= i < |components| && n in components[i]
  }

  ghost predicate Listable(arcs: set<Arc>, keys: set<Node>, remaining: set<Node>, c: set<Node>) {
    IsComponent(arcs, c) && c <= keys && c !! remaining
  }

  /** The components listed so far: classes of mutually reachable nodes, disjoint, covering all but remaining. */
  ghost predicate Partition(arcs: set<Arc>, keys: set<Node>, components: seq<set<Node>>, remaining: set<Node>) {
    && (forall i :: 0 <= i < |components| ==> Listable(arcs, keys, remaining, components[i]))
    && (forall i, j :: 0 <= i < j < |components| ==> components[i] !! components[j])
    && (forall n {:trigger Covered(components, n)} :: n in keys && n !in remaining ==> Covered(components, n))
  }

  /** A node outside a class of mutually reachable nodes lies in a disjoint class. */
  lemma DisjointClasses(arcs: set<Arc>, c: set<Node>, start: Node, component: set<Node>)
    requires Symmetric(arcs) && IsComponent(arcs, c) && ReachedFrom(arcs, start, component) && start !in c
    ensures c !! component
  {
    var other :| other in c && ReachedFrom(arcs, other, c);
    forall v | v in c && v in component ensures false {
      ReachSym(arcs, start, v);
      ReachTrans(arcs, other, v, start);
    }
  }

  lemma ReachedInside(arcs: set<Arc>, keys: set<Node>, start: Node, component: set<Node>)
    requires ClosedUnder(arcs, keys) && start in keys && ReachedFrom(arcs, start, component)
    ensures component <= keys && start in component && IsComponent(arcs, component)
  {
    ReachRefl(arcs, start);
    forall v | v in component ensures v in keys {
      ReachStays(arcs, keys, start, v);
    }
  }

  lemma AllDisjoint(arcs: set<Arc>, components: seq<set<Node>>, start: Node, component: set<Node>)
    requires Symmetric(arcs) && ReachedFrom(arcs, start, component)
    requires forall i :: 0 <= i < |components| ==> IsComponent(arcs, components[i]) && start !in components[i]
    requires forall i, j :: 0 <= i < j < |components| ==> components[i] !! components[j]
    ensures var more := components + [component];
            forall i, j :: 0 <= i < j < |more| ==> more[i] !! more[j]
  {
    forall i | 0 <= i < |components| ensures components[i] !! component {
      DisjointClasses(arcs, components[i], start, component);
    }
  }

  lemma CoveredMore(components: seq<set<Node>>, component: set<Node>, n: Node)
    requires n in component || Covered(components, n)
    ensures Covered(components + [component], n)
  {
    var more := components + [component];
    if n in component {
      assert n in more[|components|];
    } else {
      var i :| 0 <= i < |components| && n in components[i];
      assert n in more[i];
    }
  }

  lemma OneMoreComponent(arcs: set<Arc>, keys: set<Node>, components: seq<set<Node>>, remaining: set<Node>,
                         start: Node, component: set<Node>)
    requires Symmetric(arcs) && Partition(arcs, keys, components, remaining) && start in remaining && remaining <= keys
    requires ClosedUnder(arcs, keys) && ReachedFrom(arcs, start, component)
    ensures start in component && Partition(arcs, keys, components + [component], remaining - component)
  {
    var more := components + [component];
    ReachedInside(arcs, keys, start, component);
    AllDisjoint(arcs, components, start, component);
    forall i | 0 <= i < |more| ensures Listable(arcs, keys, remaining - component, more[i]) {
      assert i < |components| ==> Listable(arcs, keys, remaining, more[i]);
    }
    forall n | n in keys && n !in remaining - component ensures Covered(more, n) {
      CoveredMore(components, component, n);
    }
  }

  /** `connected_components`: the classes of mutually reachable nodes, each once. */
  method ConnectedComponents(nodes: seq<Node>, edges: seq<Arc>) returns (components: seq<set<Node>>)
    ensures Partition(Undirected(edges), NodeSet(nodes) + Adj.Ends(edges), components, {})
  {
    var graph := Adj.Adjacency(nodes, edges, false);
    ghost var arcs := Undirected(edges);
    var remaining := graph.Keys;
    components := [];
    assert ClosedUnder(arcs, graph.Keys);
    while remaining != {}
      invariant remaining <= graph.Keys
      invariant Partition(arcs, graph.Keys, components, remaining)
    {
      var start :| start in remaining;
      var component := Reachable(graph, start);
      OneMoreComponent(arcs, graph.Keys, components, remaining, start, component);
      components := components + [component];
      remaining := remaining - component;
    }
  }

  // ---------------------------------------------------------------- shortest_path

  /** An entry of the queue: a labelled node and a walk to it of that many hops. */
  ghost predicate Entry(arcs: set<Arc>, s: Node, dist: map<Node, int>, entry: (Node, seq<Node>), name: Node) {
    entry.0 == name && name in dist && Walk(arcs, s, name, entry.1) && |entry.1| == dist[name] + 1
  }

  ghost predicate Entries(arcs: set<Arc>, s: Node, dist: map<Node, int>, queue: seq<(Node, seq<Node>)>, names: seq<Node>) {
    && |queue| == |names|
    && forall i {:trigger queue[i]} :: 0 <= i < |queue| ==> Entry(arcs, s, dist, queue[i], names[i])
  }

  lemma EntriesPush(arcs: set<Arc>, s: Node, dist: map<Node, int>, queue: seq<(Node, seq<Node>)>, names: seq<Node>,
                    node: Node, path: seq<Node>, nxt: Node)
    requires Entries(arcs, s, dist, queue, names) && nxt !in dist && node in dist && (node, nxt) in arcs
    requires Walk(arcs, s, node, path) && |path| == dist[node] + 1
    ensures Entries(arcs, s, dist[nxt := dist[node] + 1], queue + [(nxt, path + [nxt])], names + [nxt])
  {
    WalkSnoc(arcs, s, node, nxt, path);
  }

  /** `for nxt in graph.get(node, set())` */
  method Enqueue(graph: Graph, node: Node, path: seq<Node>, queue0: seq<(Node, seq<Node>)>, seen0: set<Node>,
                 ghost s: Node, ghost names0: seq<Node>, ghost dist0: map<Node, int>, ghost done: set<Node>)
    returns (queue: seq<(Node, seq<Node>)>, seen: set<Node>, ghost names: seq<Node>, ghost dist: map<Node, int>)
    requires seen0 == dist0.Keys && Expanding(Arcs(graph), s, dist0, names0, done, node, {})
    requires Entries(Arcs(graph), s, dist0, queue0, names0)
    requires Walk(Arcs(graph), s, node, path) && |path| == dist0[node] + 1
    ensures seen == dist.Keys && Frontier(Arcs(graph), s, dist, names, done + {node})
    ensures Entries(Arcs(graph), s, dist, queue, names)
    ensures dist.Keys <= dist0.Keys + Mentioned(graph)
  {
    queue, seen, names, dist := queue0, seen0, names0, dist0;
    var todo := Succ(graph, node);
    ghost var scanned: set<Node> := {};
    SuccIsNeighbours(graph, node);
    while todo != {}
      invariant todo <= Succ(graph, node) && scanned == Succ(graph, node) - todo
      invariant seen == dist.Keys && node in dist && dist[node] == dist0[node]
      invariant dist.Keys <= dist0.Keys + Mentioned(graph)
      invariant Expanding(Arcs(graph), s, dist, names, done, node, scanned)
      invariant Entries(Arcs(graph), s, dist, queue, names)
    {
      var nxt :| nxt in todo;
      todo := todo - {nxt};
      assert nxt in Neighbours(Arcs(graph), node);
      if nxt !in seen {
        Discover(Arcs(graph), s, dist, names, done, node, scanned, nxt);
        EntriesPush(Arcs(graph), s, dist, queue, names, node, path, nxt);
        seen := seen + {nxt};
        queue := queue + [(nxt, path + [nxt])];
        names, dist := names + [nxt], dist[nxt := dist[node] + 1];
      }
      scanned := scanned + {nxt};
    }
    forall v | (node, v) in Arcs(graph) ensures v in scanned {
      assert v in Neighbours(Arcs(graph), node);
    }
    Expanded(Arcs(graph), s, dist, names, done, node, scanned);
  }

  /** When a node comes off the queue, its label is its distance. */
  lemma HeadIsNearest(arcs: set<Arc>, s: Node, dist: map<Node, int>, names: seq<Node>, done: set<Node>)
    requires Frontier(arcs, s, dist, names, done) && names != []
    ensures Distance(arcs, s, names[0], dist[names[0]])
  {
    forall u, v | (u, v) in arcs && u in dist && dist[u] < dist[names[0]] ensures v in dist && dist[v] <= dist[u] + 1 {
      assert u in done;
    }
    LabelIsDistance(arcs, s, dist, dist[names[0]], names[0]);
  }

  /** `shortest_path`: a walk with the fewest hops, or None exactly when there is no walk. */
  method ShortestPath(graph: Graph, source: Node, target: Node) returns (result: Option<seq<Node>>)
    ensures result.None? <==> !Reach(Arcs(graph), source, target)
    ensures result.Some? ==> Walk(Arcs(graph), source, target, result.value)
                             && Distance(Arcs(graph), source, target, |result.value| - 1)
  {
    var queue := [(source, [source])];
    var seen := {source};
    ghost var names, dist, done: set<Node> := [source], map[source := 0], {};
    Start(Arcs(graph), source);
    while queue != []
      invariant seen == dist.Keys && Frontier(Arcs(graph), source, dist, names, done)
      invariant Entries(Arcs(graph), source, dist, queue, names)
      invariant target !in done && dist.Keys <= {source} + Mentioned(graph)
      decreases {source} + Mentioned(graph) - done
    {
      var (node, path) := queue[0];
      assert Entry(Arcs(graph), source, dist, queue[0], names[0]);
      if node == target {
        HeadIsNearest(Arcs(graph), source, dist, names, done);
        assert Reach(Arcs(graph), source, target);
        return Some(path);
      }
      Pop(Arcs(graph), source, dist, names, done);
      ghost var done0 := done;
      queue, seen, names, dist :=
        Enqueue(graph, node, path, queue[1..], seen, source, names[1..], dist, done);
      done := done + {node};
      assert node !in done0 && node in {source} + Mentioned(graph);
    }
    Finished(Arcs(graph), source, dist, done);
    result := None;
  }
}
