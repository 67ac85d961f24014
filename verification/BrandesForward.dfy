/** The forward pass of `_brandes_betweenness` in netlab/topology.py: distances, path counts, predecessors. */
module BrandesForward {
  import opened Walks
  import opened Sums
  import opened Distances
  import opened WalkCounts

  /** The labels that are not -1. */
  ghost function Known(distance: map<Node, int>): map<Node, int> {
    map n | n in distance && distance[n] >= 0 :: distance[n]
  }

  /** The number of shortest paths from s to a labelled node. */
  ghost function Paths(arcs: set<Arc>, s: Node, dist: map<Node, int>, v: Node): int {
    if v in dist && dist[v] >= 0 then Count(arcs, s, v, dist[v]) else 0
  }

  /** The tails of those arcs into v that lead one hop further from the source. */
  ghost function Feeding(arcs: set<Arc>, dist: map<Node, int>, v: Node): set<Node> {
    set a | a in arcs && a.1 == v && v in dist && a.0 in dist && dist[v] == dist[a.0] + 1 :: a.0
  }

  ghost predicate TallyAt(arcs: set<Arc>, s: Node, dist: map<Node, int>, seen: set<Arc>,
                          sigma: map<Node, int>, preds: map<Node, seq<Node>>, v: Node) {
    && v in sigma && v in preds
    && Distinct(preds[v]) && NodeSet(preds[v]) == Feeding(seen, dist, v)
    && sigma[v] == (if v == s then 1 else 0) + Sum(Feeding(seen, dist, v), u => Paths(arcs, s, dist, u))
  }

  /** sigma and preds account for the arcs seen so far. */
  ghost predicate Tally(arcs: set<Arc>, s: Node, nodes: set<Node>, dist: map<Node, int>, seen: set<Arc>,
                        sigma: map<Node, int>, preds: map<Node, seq<Node>>) {
    && (forall a :: a in seen ==> a.0 in dist && a.1 in dist)
    && (forall v {:trigger TallyAt(arcs, s, dist, seen, sigma, preds, v)} ::
          v in nodes ==> TallyAt(arcs, s, dist, seen, sigma, preds, v))
  }

  ghost predicate Sorted(dist: map<Node, int>, stack: seq<Node>) {
    && (forall n :: n in stack ==> n in dist)
    && forall i, j :: 0 <= i < j < |stack| ==> dist[stack[i]] <= dist[stack[j]]
  }

  /** The arcs out of finished nodes. */
  ghost function Out(arcs: set<Arc>, done: set<Node>): set<Arc> {
    set a | a in arcs && a.0 in done
  }

  /** Shortest paths to node, counted by the nodes that feed it. */
  lemma CountByFeeding(arcs: set<Arc>, s: Node, dist: map<Node, int>, queue: seq<Node>, done: set<Node>, node: Node)
    requires Expanding(arcs, s, dist, queue, done, node, {}) && dist[node] >= 1
    ensures Paths(arcs, s, dist, node) == Sum(Feeding(Out(arcs, done), dist, node), u => Paths(arcs, s, dist, u))
  {
    var d := dist[node];
    var feeding, all := Feeding(Out(arcs, done), dist, node), Predecessors(arcs, node);
    var count := u => Count(arcs, s, u, d - 1);
    CountByLastHop(arcs, s, node, d - 1);
    SumSame(all, u => Count(arcs, s, u, d - 1), count);
    forall u | u in feeding ensures u in all && count(u) == Paths(arcs, s, dist, u) {
    }
    SumSplit(all, feeding, count);
    SumSame(feeding, count, u => Paths(arcs, s, dist, u));
    forall u | u in all - feeding ensures count(u) == 0 {
      NotFeeding(arcs, s, dist, queue, done, node, u);
    }
    SumSame(all - feeding, count, u => 0);
    SumZero(all - feeding);
  }

  /** The node taken off the queue has its final count. */
  lemma CountAtPop(arcs: set<Arc>, s: Node, nodes: set<Node>, dist: map<Node, int>, queue: seq<Node>, done: set<Node>,
                   node: Node, sigma: map<Node, int>, preds: map<Node, seq<Node>>)
    requires Expanding(arcs, s, dist, queue, done, node, {})
    requires Tally(arcs, s, nodes, dist, Out(arcs, done), sigma, preds) && node in nodes
    ensures node in sigma && sigma[node] == Paths(arcs, s, dist, node)
  {
    assert TallyAt(arcs, s, dist, Out(arcs, done), sigma, preds, node);
    if node == s {
      assert Feeding(Out(arcs, done), dist, node) == {};
    } else {
      assert Supported(arcs, dist, node);
      CountByFeeding(arcs, s, dist, queue, done, node);
    }
  }

  /** A predecessor that does not feed node is not at distance d - 1. */
  lemma NotFeeding(arcs: set<Arc>, s: Node, dist: map<Node, int>, queue: seq<Node>, done: set<Node>, node: Node, u: Node)
    requires Expanding(arcs, s, dist, queue, done, node, {}) && dist[node] >= 1
    requires (u, node) in arcs && u !in Feeding(Out(arcs, done), dist, node)
    ensures Count(arcs, s, u, dist[node] - 1) == 0
  {
    var d := dist[node];
    assert u in done ==> (u, node) in Out(arcs, done);
    forall p | Walk(arcs, s, u, p) ensures |p| != d {
      if |p| == d {
        WalkBoundsLabel(arcs, s, dist, d, u, p);
      }
    }
    NoWalkNoCount(arcs, s, u, d - 1);
  }

  // ---------------------------------------------------------------- one arc

  /** A newly labelled node changes no account. */
  lemma TallyLabel(arcs: set<Arc>, s: Node, nodes: set<Node>, dist: map<Node, int>, seen: set<Arc>,
                   sigma: map<Node, int>, preds: map<Node, seq<Node>>, nxt: Node, d: int)
    requires Tally(arcs, s, nodes, dist, seen, sigma, preds) && nxt !in dist
    ensures Tally(arcs, s, nodes, dist[nxt := d], seen, sigma, preds)
  {
    var dist' := dist[nxt := d];
    forall v | v in nodes ensures TallyAt(arcs, s, dist', seen, sigma, preds, v) {
      assert TallyAt(arcs, s, dist, seen, sigma, preds, v);
      assert Feeding(seen, dist', v) == Feeding(seen, dist, v);
      SumSame(Feeding(seen, dist, v), u => Paths(arcs, s, dist, u), u => Paths(arcs, s, dist', u));
    }
  }

  /** The arc from node to nxt is entered into the accounts when it leads one hop further. */
  lemma TallyArc(arcs: set<Arc>, s: Node, nodes: set<Node>, dist: map<Node, int>, seen: set<Arc>,
                 sigma: map<Node, int>, preds: map<Node, seq<Node>>, node: Node, nxt: Node)
    requires Tally(arcs, s, nodes, dist, seen, sigma, preds) && (node, nxt) !in seen
    requires node in dist && nxt in dist && nxt in nodes && node in sigma && sigma[node] == Paths(arcs, s, dist, node)
    ensures nxt in sigma && nxt in preds
    ensures dist[nxt] == dist[node] + 1 ==>
              Tally(arcs, s, nodes, dist, seen + {(node, nxt)}, sigma[nxt := sigma[nxt] + sigma[node]], preds[nxt := preds[nxt] + [node]])
    ensures dist[nxt] != dist[node] + 1 ==> Tally(arcs, s, nodes, dist, seen + {(node, nxt)}, sigma, preds)
  {
    assert TallyAt(arcs, s, dist, seen, sigma, preds, nxt);
    var up := dist[nxt] == dist[node] + 1;
    var sigma' := if up then sigma[nxt := sigma[nxt] + sigma[node]] else sigma;
    var preds' := if up then preds[nxt := preds[nxt] + [node]] else preds;
    forall v | v in nodes ensures TallyAt(arcs, s, dist, seen + {(node, nxt)}, sigma', preds', v) {
      assert TallyAt(arcs, s, dist, seen, sigma, preds, v);
      TallyEntry(arcs, s, dist, seen, sigma, preds, node, nxt, v);
    }
  }

  lemma TallyEntry(arcs: set<Arc>, s: Node, dist: map<Node, int>, seen: set<Arc>,
                   sigma: map<Node, int>, preds: map<Node, seq<Node>>, node: Node, nxt: Node, v: Node)
    requires TallyAt(arcs, s, dist, seen, sigma, preds, v) && (node, nxt) !in seen
    requires node in dist && nxt in dist
    ensures v == nxt && dist[nxt] == dist[node] + 1 ==>
              && Feeding(seen + {(node, nxt)}, dist, v) == NodeSet(preds[v] + [node]) && Distinct(preds[v] + [node])
              && Sum(Feeding(seen + {(node, nxt)}, dist, v), u => Paths(arcs, s, dist, u))
                 == Sum(Feeding(seen, dist, v), u => Paths(arcs, s, dist, u)) + Paths(arcs, s, dist, node)
    ensures !(v == nxt && dist[nxt] == dist[node] + 1) ==> Feeding(seen + {(node, nxt)}, dist, v) == Feeding(seen, dist, v)
  {
    var before, after := Feeding(seen, dist, v), Feeding(seen + {(node, nxt)}, dist, v);
    if v == nxt && dist[nxt] == dist[node] + 1 {
      assert after == before + {node} by {
        assert (node, nxt) in seen + {(node, nxt)};
      }
      assert node !in before;
      SumPut(before, u => Paths(arcs, s, dist, u), node);
    } else {
      assert after == before;
    }
  }

  // ---------------------------------------------------------------- the loops

  /** Between two rounds of the outer loop. */
  ghost predicate Round(arcs: set<Arc>, s: Node, nodes: set<Node>, distance: map<Node, int>, queue: seq<Node>,
                        stack: seq<Node>, sigma: map<Node, int>, preds: map<Node, seq<Node>>) {
    var dist := Known(distance);
    && distance.Keys == nodes
    && Frontier(arcs, s, dist, queue, NodeSet(stack))
    && Tally(arcs, s, nodes, dist, Out(arcs, NodeSet(stack)), sigma, preds)
    && Distinct(stack) && Sorted(dist, stack)
    && (forall u :: u in stack ==> u in sigma && sigma[u] == Paths(arcs, s, dist, u))
  }

  /** The arcs out of finished nodes and those out of node that have been followed. */
  ghost function Seen(arcs: set<Arc>, done: set<Node>, node: Node, scanned: set<Node>): set<Arc> {
    set a | a in arcs && (a.0 in done || (a.0 == node && a.1 in scanned))
  }

  /** While node is being expanded; below is the stack under it. */
  ghost predicate Counting(arcs: set<Arc>, s: Node, nodes: set<Node>, distance: map<Node, int>, queue: seq<Node>,
                           below: seq<Node>, node: Node, scanned: set<Node>,
                           sigma: map<Node, int>, preds: map<Node, seq<Node>>) {
    var dist := Known(distance);
    && distance.Keys == nodes && scanned <= Successors(arcs, node)
    && Expanding(arcs, s, dist, queue, NodeSet(below), node, scanned)
    && Tally(arcs, s, nodes, dist, Seen(arcs, NodeSet(below), node, scanned), sigma, preds)
    && Distinct(below) && Sorted(dist, below)
    && (forall u :: u in below || u == node ==> u in sigma && sigma[u] == Paths(arcs, s, dist, u))
  }

  lemma RoundPop(arcs: set<Arc>, s: Node, nodes: set<Node>, distance: map<Node, int>, queue: seq<Node>,
                 stack: seq<Node>, sigma: map<Node, int>, preds: map<Node, seq<Node>>)
    requires Round(arcs, s, nodes, distance, queue, stack, sigma, preds) && queue != []
    ensures Counting(arcs, s, nodes, distance, queue[1..], stack, queue[0], {}, sigma, preds)
    ensures queue[0] in nodes - NodeSet(stack)
  {
    var dist := Known(distance);
    Pop(arcs, s, dist, queue, NodeSet(stack));
    assert Seen(arcs, NodeSet(stack), queue[0], {}) == Out(arcs, NodeSet(stack));
    CountAtPop(arcs, s, nodes, dist, queue[1..], NodeSet(stack), queue[0], sigma, preds);
  }

  lemma RoundEnd(arcs: set<Arc>, s: Node, nodes: set<Node>, distance: map<Node, int>, queue: seq<Node>,
                 below: seq<Node>, node: Node, sigma: map<Node, int>, preds: map<Node, seq<Node>>)
    requires Counting(arcs, s, nodes, distance, queue, below, node, Successors(arcs, node), sigma, preds)
    ensures Round(arcs, s, nodes, distance, queue, below + [node], sigma, preds)
  {
    var dist := Known(distance);
    forall v | (node, v) in arcs ensures v in Successors(arcs, node) { }
    Expanded(arcs, s, dist, queue, NodeSet(below), node, Successors(arcs, node));
    assert NodeSet(below + [node]) == NodeSet(below) + {node};
    assert Seen(arcs, NodeSet(below), node, Successors(arcs, node)) == Out(arcs, NodeSet(below + [node]));
  }

  lemma KnownUpdate(distance: map<Node, int>, n: Node, d: int)
    requires d >= 0
    ensures Known(distance[n := d]) == Known(distance)[n := d]
  {
  }

  /** A neighbour without a label gets one. */
  lemma CountingLabel(arcs: set<Arc>, s: Node, nodes: set<Node>, distance: map<Node, int>, queue: seq<Node>,
                      below: seq<Node>, node: Node, scanned: set<Node>, sigma: map<Node, int>, preds: map<Node, seq<Node>>,
                      nxt: Node)
    requires Counting(arcs, s, nodes, distance, queue, below, node, scanned, sigma, preds)
    requires (node, nxt) in arcs && nxt in nodes && nxt !in scanned && distance[nxt] < 0
    ensures node in distance && distance[node] >= 0
    ensures var distance' := distance[nxt := distance[node] + 1];
            && distance'.Keys == nodes
            && Expanding(arcs, s, Known(distance'), queue + [nxt], NodeSet(below), node, scanned + {nxt})
            && Tally(arcs, s, nodes, Known(distance'), Seen(arcs, NodeSet(below), node, scanned), sigma, preds)
            && Sorted(Known(distance'), below)
            && forall u :: u in below || u == node ==> u in sigma && sigma[u] == Paths(arcs, s, Known(distance'), u)
  {
    hide TallyAt, Labels, Feeding;
    var dist := Known(distance);
    var d := distance[node] + 1;
    KnownUpdate(distance, nxt, d);
    Discover(arcs, s, dist, queue, NodeSet(below), node, scanned, nxt);
    TallyLabel(arcs, s, nodes, dist, Seen(arcs, NodeSet(below), node, scanned), sigma, preds, nxt, d);
  }

  /** The test `distance[nxt] == distance[node] + 1` and what it guards. */
  lemma CountingArc(arcs: set<Arc>, s: Node, nodes: set<Node>, distance: map<Node, int>, queue: seq<Node>,
                    below: seq<Node>, node: Node, scanned: set<Node>, sigma: map<Node, int>, preds: map<Node, seq<Node>>,
                    nxt: Node)
    requires distance.Keys == nodes && scanned <= Successors(arcs, node)
    requires Expanding(arcs, s, Known(distance), queue, NodeSet(below), node, scanned + {nxt})
    requires Tally(arcs, s, nodes, Known(distance), Seen(arcs, NodeSet(below), node, scanned), sigma, preds)
    requires Distinct(below) && Sorted(Known(distance), below)
    requires forall u :: u in below || u == node ==> u in sigma && sigma[u] == Paths(arcs, s, Known(distance), u)
    requires (node, nxt) in arcs && nxt in nodes && nxt !in scanned
    ensures node in distance && nxt in sigma && nxt in preds
    ensures var up := distance[nxt] == distance[node] + 1;
            Counting(arcs, s, nodes, distance, queue, below, node, scanned + {nxt},
                     if up then sigma[nxt := sigma[nxt] + sigma[node]] else sigma,
                     if up then preds[nxt := preds[nxt] + [node]] else preds)
  {
    var dist, seen := Known(distance), Seen(arcs, NodeSet(below), node, scanned);
    TallyArc(arcs, s, nodes, dist, seen, sigma, preds, node, nxt);
    assert Seen(arcs, NodeSet(below), node, scanned + {nxt}) == seen + {(node, nxt)};
    assert nxt in Successors(arcs, node);
  }

  /** The inner loop: the neighbours of the node just taken off the queue. */
  method Expand(graph: Graph, node: Node, queue0: seq<Node>, distance0: map<Node, int>, sigma0: map<Node, int>,
                preds0: map<Node, seq<Node>>, ghost arcs: set<Arc>, ghost source: Node, ghost below: seq<Node>)
    returns (queue: seq<Node>, distance: map<Node, int>, sigma: map<Node, int>, preds: map<Node, seq<Node>>)
    requires node in graph && graph[node] == Successors(arcs, node) && graph[node] <= graph.Keys
    requires Counting(arcs, source, graph.Keys, distance0, queue0, below, node, {}, sigma0, preds0)
    ensures Round(arcs, source, graph.Keys, distance, queue, below + [node], sigma, preds)
  {
    queue, distance, sigma, preds := queue0, distance0, sigma0, preds0;
    var todo := graph[node];
    ghost var scanned: set<Node> := {};
    while todo != {}
      invariant todo <= graph[node] && scanned == graph[node] - todo
      invariant Counting(arcs, source, graph.Keys, distance, queue, below, node, scanned, sigma, preds)
    {
      var nxt :| nxt in todo;
      todo := todo - {nxt};
      queue, distance, sigma, preds :=
        Follow(node, nxt, queue, distance, sigma, preds, arcs, source, graph.Keys, below, scanned);
      scanned := scanned + {nxt};
    }
    assert scanned == Successors(arcs, node);
    RoundEnd(arcs, source, graph.Keys, distance, queue, below, node, sigma, preds);
  }

  /** One neighbour. */
  method Follow(node: Node, nxt: Node, queue0: seq<Node>, distance0: map<Node, int>, sigma0: map<Node, int>,
                preds0: map<Node, seq<Node>>, ghost arcs: set<Arc>, ghost source: Node, ghost nodes: set<Node>,
                ghost below: seq<Node>, ghost scanned: set<Node>)
    returns (queue: seq<Node>, distance: map<Node, int>, sigma: map<Node, int>, preds: map<Node, seq<Node>>)
    requires Counting(arcs, source, nodes, distance0, queue0, below, node, scanned, sigma0, preds0)
    requires (node, nxt) in arcs && nxt in nodes && nxt !in scanned
    ensures Counting(arcs, source, nodes, distance, queue, below, node, scanned + {nxt}, sigma, preds)
  {
    queue, distance, sigma, preds := queue0, distance0, sigma0, preds0;
    if distance[nxt] < 0 {
      CountingLabel(arcs, source, nodes, distance, queue, below, node, scanned, sigma, preds, nxt);
      queue := queue + [nxt];
      distance := distance[nxt := distance[node] + 1];
    }
    CountingArc(arcs, source, nodes, distance, queue, below, node, scanned, sigma, preds, nxt);
    if distance[nxt] == distance[node] + 1 {
      sigma := sigma[nxt := sigma[nxt] + sigma[node]];
      preds := preds[nxt := preds[nxt] + [node]];
    }
  }

  /** What the forward pass leaves for one source: hop distances, shortest-path counts, the predecessors
      on shortest paths, and the reached nodes in order of distance. */
  ghost predicate Forward(arcs: set<Arc>, s: Node, dist: map<Node, int>, stack: seq<Node>,
                          sigma: map<Node, int>, preds: map<Node, seq<Node>>) {
    && (forall v :: v in dist <==> Reach(arcs, s, v))
    && (forall v :: v in dist ==> Distance(arcs, s, v, dist[v]))
    && Distinct(stack) && NodeSet(stack) == dist.Keys && Sorted(dist, stack)
    && (forall v :: v in dist ==> v in sigma && sigma[v] == Paths(arcs, s, dist, v))
    && (forall v :: v in dist ==> v in preds && Distinct(preds[v]) && NodeSet(preds[v]) == Feeding(arcs, dist, v))
  }

  lemma InitialRound(arcs: set<Arc>, s: Node, nodes: set<Node>)
    requires s in nodes
    ensures Round(arcs, s, nodes, (map n | n in nodes :: -1)[s := 0], [s], [],
                  (map n | n in nodes :: 0)[s := 1], map n | n in nodes :: [])
  {
    var distance := (map n | n in nodes :: -1)[s := 0];
    var sigma := (map n | n in nodes :: 0)[s := 1];
    var preds: map<Node, seq<Node>> := map n | n in nodes :: [];
    assert Known(distance) == map[s := 0];
    Start(arcs, s);
    InitialTally(arcs, s, nodes, sigma, preds);
    assert NodeSet([]) == {} && Out(arcs, {}) == {};
  }

  lemma InitialTally(arcs: set<Arc>, s: Node, nodes: set<Node>, sigma: map<Node, int>, preds: map<Node, seq<Node>>)
    requires sigma.Keys == nodes && preds.Keys == nodes
    requires forall v :: v in nodes ==> sigma[v] == (if v == s then 1 else 0) && preds[v] == []
    ensures Tally(arcs, s, nodes, map[s := 0], {}, sigma, preds)
  {
    forall v | v in nodes ensures TallyAt(arcs, s, map[s := 0], {}, sigma, preds, v) {
      assert Feeding({}, map[s := 0], v) == {};
    }
  }

  lemma FinalRound(arcs: set<Arc>, s: Node, nodes: set<Node>, distance: map<Node, int>, stack: seq<Node>,
                   sigma: map<Node, int>, preds: map<Node, seq<Node>>)
    requires Round(arcs, s, nodes, distance, [], stack, sigma, preds)
    ensures Forward(arcs, s, Known(distance), stack, sigma, preds)
  {
    var dist := Known(distance);
    Finished(arcs, s, dist, NodeSet(stack));
    forall v | v in dist ensures v in preds && Distinct(preds[v]) && NodeSet(preds[v]) == Feeding(arcs, dist, v) {
      assert TallyAt(arcs, s, dist, Out(arcs, NodeSet(stack)), sigma, preds, v);
      assert Feeding(arcs, dist, v) == Feeding(Out(arcs, NodeSet(stack)), dist, v);
    }
  }

  method ForwardPass(graph: Graph, source: Node)
    returns (stack: seq<Node>, predecessors: map<Node, seq<Node>>, sigma: map<Node, int>, distance: map<Node, int>)
    requires Closed(graph) && source in graph
    ensures Forward(Arcs(graph), source, Known(distance), stack, sigma, predecessors)
  {
    ghost var arcs := Arcs(graph);
    stack := [];
    predecessors := map n | n in graph.Keys :: [];
    sigma := (map n | n in graph.Keys :: 0)[source := 1];
    distance := (map n | n in graph.Keys :: -1)[source := 0];
    var queue := [source];
    InitialRound(arcs, source, graph.Keys);
    while queue != []
      invariant Round(arcs, source, graph.Keys, distance, queue, stack, sigma, predecessors)
      decreases graph.Keys - NodeSet(stack)
    {
      var node := queue[0];
      RoundPop(arcs, source, graph.Keys, distance, queue, stack, sigma, predecessors);
      OwnSuccessors(graph, node);
      queue, distance, sigma, predecessors :=
        Expand(graph, node, queue[1..], distance, sigma, predecessors, arcs, source, stack);
      StackGrows(stack, node);
      stack := stack + [node];
    }
    FinalRound(arcs, source, graph.Keys, distance, stack, sigma, predecessors);
  }

  lemma StackGrows(stack: seq<Node>, node: Node)
    ensures NodeSet(stack + [node]) == NodeSet(stack) + {node}
  {
  }

  lemma OwnSuccessors(graph: Graph, node: Node)
    requires Closed(graph) && node in graph
    ensures graph[node] == Successors(Arcs(graph), node) && graph[node] <= graph.Keys
  {
    forall w | w in graph[node] ensures w in Successors(Arcs(graph), node) {
      assert (node, w) in Arcs(graph);
    }
  }
}
