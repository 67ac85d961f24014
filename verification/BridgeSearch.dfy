/** `bridge_edges` of netlab/topology.py. */
module BridgeSearch {
  import opened Options
  import opened Walks
  import opened LowLink
  import Adjacency

  /** A sorted pair of names stands for the unordered edge between them. */
  type Edge = set<Node>

  // ---------------------------------------------------------------- the argument

  lemma BridgeSym(arcs: set<Arc>, u: Node, v: Node)
    requires Symmetric(arcs)
    ensures Bridge(arcs, u, v) <==> Bridge(arcs, v, u)
  {
    assert WithoutEdge(arcs, u, v) == WithoutEdge(arcs, v, u);
    if Reach(WithoutEdge(arcs, u, v), u, v) { ReachSym(WithoutEdge(arcs, u, v), u, v); }
    if Reach(WithoutEdge(arcs, u, v), v, u) { ReachSym(WithoutEdge(arcs, u, v), v, u); }
  }

  /** Everything reported so far is a bridge. */
  ghost predicate Sound(arcs: set<Arc>, bridges: set<Edge>) {
    forall e :: e in bridges ==> exists u, v :: e == {u, v} && Bridge(arcs, u, v)
  }

  /** Every bridge at a finished node has been reported, except possibly the edge pending. */
  ghost predicate Complete(arcs: set<Arc>, disc: map<Node, int>, open: seq<Node>, pending: Edge, bridges: set<Edge>) {
    forall u, v :: Bridge(arcs, u, v) && u in disc && u !in open && {u, v} != pending ==> {u, v} in bridges
  }

  /** The tree edge above a node. */
  ghost function TreeEdge(stack: seq<Node>, node: Node): Edge {
    if stack == [] then {} else {stack[|stack|-1], node}
  }

  /** low[c] > discovery[node]: the edge to the child is the only way out of its subtree. */
  lemma ChildIsBridge(arcs: set<Arc>, disc: map<Node, int>, stack: seq<Node>, node: Node, dc: set<Node>, c: Node, lowc: int)
    requires Symmetric(arcs) && (node, c) in arcs && Stacked(arcs, disc, stack + [node])
    requires forall w :: w in stack + [node] ==> w in disc
    requires c in disc && node !in dc && (forall w :: w in stack ==> w !in dc)
    requires Subtree(arcs, dc, stack + [node], c) && forall w :: (c, w) in arcs ==> w in dc || w in stack + [node]
    requires LowIs(arcs, dc, stack + [node], disc, c, Neighbours(arcs, c), lowc) && lowc > disc[node]
    ensures Bridge(arcs, node, c)
  {
    var rest := WithoutEdge(arcs, node, c);
    var open := stack + [node];
    assert open[..|stack|] == stack;
    forall u, w | (u, w) in rest && u in dc ensures w in dc {
      assert w in dc || w in open;
      assert w in open ==> BackEdge(arcs, dc, open, c, Neighbours(arcs, c), u, w);
    }
    if Reach(rest, node, c) {
      ReachSym(rest, node, c);
      ReachStays(rest, dc, c, node);
    }
  }

  /** low[c] <= discovery[node]: another way leads from the child's subtree back to node. */
  lemma ChildIsNoBridge(arcs: set<Arc>, disc: map<Node, int>, stack: seq<Node>, node: Node, dc: set<Node>, c: Node, lowc: int)
    requires Symmetric(arcs) && Stacked(arcs, disc, stack + [node])
    requires forall w :: w in stack + [node] ==> w in disc
    requires c in disc && disc[c] > disc[node] && node !in dc && c !in stack + [node]
    requires Subtree(arcs, dc, stack + [node], c)
    requires LowIs(arcs, dc, stack + [node], disc, c, Neighbours(arcs, c), lowc) && lowc <= disc[node]
    ensures !Bridge(arcs, node, c)
  {
    var rest, open := WithoutEdge(arcs, node, c), stack + [node];
    var u, w :| BackEdge(arcs, dc, open, c, Neighbours(arcs, c), u, w) && lowc == disc[w];
    ReachMono(Inside(arcs, dc), rest, c, u);
    ReachArc(rest, u, w);
    ReachTrans(rest, c, u, w);
    StackReach(arcs, disc, open, w);
    ReachMono(Inside(arcs, Members(open)), rest, w, node);
    ReachTrans(rest, c, w, node);
    ReachSym(rest, c, node);
  }

  /** An edge from node to an open node other than its parent lies on a cycle. */
  lemma BackEdgeIsNoBridge(arcs: set<Arc>, disc: map<Node, int>, stack: seq<Node>, node: Node, w: Node)
    requires Symmetric(arcs) && Stacked(arcs, disc, stack) && node !in stack
    requires w in stack && w != stack[|stack|-1] && (stack[|stack|-1], node) in arcs
    ensures !Bridge(arcs, node, w)
  {
    var rest, up := WithoutEdge(arcs, node, w), stack[|stack|-1];
    StackReach(arcs, disc, stack, w);
    ReachMono(Inside(arcs, Members(stack)), rest, w, up);
    ReachArc(rest, up, node);
    ReachTrans(rest, w, up, node);
    ReachSym(rest, w, node);
  }

  /** Reporting the tree edge exactly when it is a bridge settles it. */
  lemma Reported(arcs: set<Arc>, disc: map<Node, int>, open: seq<Node>, node: Node, c: Node, isBridge: bool, bridges: set<Edge>)
    requires Sound(arcs, bridges) && Complete(arcs, disc, open, {node, c}, bridges)
    requires node in open && (isBridge <==> Bridge(arcs, node, c)) && (isBridge <==> Bridge(arcs, c, node))
    ensures var after := bridges + (if isBridge then {{node, c}} else {});
            Sound(arcs, after) && Complete(arcs, disc, open, {}, after)
  {
    var after := bridges + (if isBridge then {{node, c}} else {});
    forall u, v | Bridge(arcs, u, v) && u in disc && u !in open && {u, v} != {} ensures {u, v} in after {
      if {u, v} == {node, c} {
        assert node in {u, v} && c in {u, v};
        assert u == c && v == node;
      }
    }
  }

  /** The test that follows the visit of a child decides its tree edge. */
  lemma DecideChild(arcs: set<Arc>, disc0: map<Node, int>, disc1: map<Node, int>, disc: map<Node, int>,
                    stack: seq<Node>, node: Node, c: Node, scanned: set<Node>, low: int, lowc: int,
                    counter0: int, counter1: int, counter: int, bridges: set<Edge>)
    requires Symmetric(arcs) && (node, c) in arcs
    requires Visiting(arcs, disc0, disc1, stack, node, scanned, low, counter0, counter1)
    requires Visited(arcs, disc1, disc, stack + [node], c, lowc, counter1, counter)
    requires Sound(arcs, bridges) && Complete(arcs, disc, stack + [node], TreeEdge(stack + [node], c), bridges)
    ensures var after := bridges + (if lowc > disc[node] then {{node, c}} else {});
            Sound(arcs, after) && Complete(arcs, disc, stack + [node], {}, after)
  {
    var dc, open := disc.Keys - disc1.Keys, stack + [node];
    BridgeSym(arcs, node, c);
    if lowc > disc[node] {
      ChildIsBridge(arcs, disc, stack, node, dc, c, lowc);
    } else {
      ChildIsNoBridge(arcs, disc, stack, node, dc, c, lowc);
    }
    Reported(arcs, disc, open, node, c, lowc > disc[node], bridges);
  }

  /** When node is finished, its own edges are decided too. */
  lemma DecideEnd(arcs: set<Arc>, disc0: map<Node, int>, disc: map<Node, int>, stack: seq<Node>, node: Node,
                  low: int, counter0: int, counter: int, bridges: set<Edge>)
    requires MayVisit(arcs, disc0, stack, node, counter0)
    requires Visited(arcs, disc0, disc, stack, node, low, counter0, counter)
    requires Complete(arcs, disc, stack + [node], {}, bridges)
    ensures Complete(arcs, disc, stack, TreeEdge(stack, node), bridges)
  {
    forall u, v | Bridge(arcs, u, v) && u in disc && u !in stack && {u, v} != TreeEdge(stack, node)
      ensures {u, v} in bridges
    {
      if u == node {
        BridgeSym(arcs, u, v);
        if v in stack {
          if v != stack[|stack|-1] {
            BackEdgeIsNoBridge(arcs, disc, stack, node, v);
          }
        } else if v == node {
          ReachRefl(WithoutEdge(arcs, u, v), u);
        } else {
          assert {v, u} == {u, v};
        }
      }
    }
  }

  // ---------------------------------------------------------------- the search

  /** A visit leaves the entries of open nodes alone. */
  ghost predicate Untouched(open: seq<Node>, low0: map<Node, int>, low: map<Node, int>,
                            parent0: map<Node, Option<Node>>, parent: map<Node, Option<Node>>) {
    forall n :: n in open ==>
      && n in low0 && n in low && low[n] == low0[n]
      && Parent(parent, n) == Parent(parent0, n)
  }

  /** node has been numbered and its neighbours in scanned have been dealt with. */
  ghost predicate Scanning(arcs: set<Arc>, discS: map<Node, int>, counterS: int, stack: seq<Node>, node: Node,
                           scanned: set<Node>, counter: int, discovery: map<Node, int>, low: map<Node, int>,
                           parent: map<Node, Option<Node>>, bridges: set<Edge>) {
    && node in low && Parent(parent, node) == Top(stack)
    && Visiting(arcs, discS, discovery, stack, node, scanned, low[node], counterS, counter)
    && Sound(arcs, bridges) && Complete(arcs, discovery, stack + [node], {}, bridges)
  }

  /** The nested function: the visit of a node not yet numbered; stack is the path of open nodes above it. */
  method Dfs(graph: Graph, node: Node, counter0: int, discovery0: map<Node, int>, low0: map<Node, int>,
             parent0: map<Node, Option<Node>>, bridges0: set<Edge>, ghost arcs: set<Arc>, ghost stack: seq<Node>)
    returns (counter: int, discovery: map<Node, int>, low: map<Node, int>,
             parent: map<Node, Option<Node>>, bridges: set<Edge>)
    requires Lists(graph, arcs) && node in graph
    requires MayVisit(arcs, discovery0, stack, node, counter0)
    requires Sound(arcs, bridges0) && Complete(arcs, discovery0, stack, {}, bridges0)
    requires Parent(parent0, node) == Top(stack)
    requires forall n :: n in stack ==> n in low0
    ensures node in low && Visited(arcs, discovery0, discovery, stack, node, low[node], counter0, counter)
    ensures Sound(arcs, bridges) && Complete(arcs, discovery, stack, TreeEdge(stack, node), bridges)
    ensures Untouched(stack, low0, low, parent0, parent)
    decreases graph.Keys - discovery0.Keys, 0
  {
    Begin(arcs, discovery0, stack, node, counter0);
    counter := counter0 + 1;
    discovery, low := discovery0[node := counter], low0[node := counter];
    parent, bridges := parent0, bridges0;
    var todo := graph[node];
    ghost var scanned: set<Node> := {};
    while todo != {}
      invariant todo + scanned == graph[node]
      invariant node in discovery && node !in discovery0 && discovery0.Keys <= discovery.Keys
      invariant Scanning(arcs, discovery0, counter0, stack, node, scanned, counter, discovery, low, parent, bridges)
      invariant Untouched(stack, low0, low, parent0, parent)
    {
      var nxt :| nxt in todo;
      todo := todo - {nxt};
      counter, discovery, low, parent, bridges :=
        Scan(graph, node, nxt, counter, discovery, low, parent, bridges, arcs, stack, discovery0, counter0, scanned);
      scanned := scanned + {nxt};
    }
    End(arcs, discovery0, discovery, stack, node, low[node], counter0, counter);
    DecideEnd(arcs, discovery0, discovery, stack, node, low[node], counter0, counter, bridges);
  }

  /** The body of the loop over the neighbours: nxt is visited, or its number is taken into account. */
  method Scan(graph: Graph, node: Node, nxt: Node, counter0: int, discovery0: map<Node, int>, low0: map<Node, int>,
              parent0: map<Node, Option<Node>>, bridges0: set<Edge>, ghost arcs: set<Arc>, ghost stack: seq<Node>,
              ghost discS: map<Node, int>, ghost counterS: int, ghost scanned: set<Node>)
    returns (counter: int, discovery: map<Node, int>, low: map<Node, int>,
             parent: map<Node, Option<Node>>, bridges: set<Edge>)
    requires Lists(graph, arcs) && Symmetric(arcs) && node in graph && nxt in graph[node]
    requires forall n :: n in stack ==> n in low0
    requires Scanning(arcs, discS, counterS, stack, node, scanned, counter0, discovery0, low0, parent0, bridges0)
    ensures Scanning(arcs, discS, counterS, stack, node, scanned + {nxt}, counter, discovery, low, parent, bridges)
    ensures discovery0.Keys <= discovery.Keys && Untouched(stack, low0, low, parent0, parent)
    decreases graph.Keys - discovery0.Keys, 2
  {
    if nxt !in discovery0 {
      counter, discovery, low, parent, bridges :=
        Descend(graph, node, nxt, counter0, discovery0, low0, parent0, bridges0, arcs, stack, discS, counterS, scanned);
    } else {
      counter, discovery, low, parent, bridges := counter0, discovery0, low0, parent0, bridges0;
      AfterScan(arcs, discS, discovery, stack, node, nxt, scanned, low[node], counterS, counter);
      if Some(nxt) != Parent(parent, node) {
        low := low[node := Min(low[node], discovery[nxt])];
      }
    }
  }

  /** Below node nothing has changed. */
  lemma UntouchedBelow(arcs: set<Arc>, disc: map<Node, int>, stack: seq<Node>, node: Node, nxt: Node,
                       low0: map<Node, int>, low: map<Node, int>, lowNode: int,
                       parent0: map<Node, Option<Node>>, parent: map<Node, Option<Node>>)
    requires Stacked(arcs, disc, stack + [node]) && nxt !in stack + [node]
    requires Untouched(stack + [node], low0, low, parent0[nxt := Some(node)], parent)
    ensures Untouched(stack, low0, low[node := lowNode], parent0, parent)
    ensures node in low0 && node in low && low[node] == low0[node] && Parent(parent, node) == Parent(parent0, node)
  {
    assert (stack + [node])[..|stack|] == stack;
    forall n | n in stack ensures n in stack + [node] && n != node { }
    assert node in stack + [node];
  }

  /** The branch that visits a neighbour not yet numbered. */
  method Descend(graph: Graph, node: Node, nxt: Node, counter0: int, discovery0: map<Node, int>, low0: map<Node, int>,
                 parent0: map<Node, Option<Node>>, bridges0: set<Edge>, ghost arcs: set<Arc>, ghost stack: seq<Node>,
                 ghost discS: map<Node, int>, ghost counterS: int, ghost scanned: set<Node>)
    returns (counter: int, discovery: map<Node, int>, low: map<Node, int>,
             parent: map<Node, Option<Node>>, bridges: set<Edge>)
    requires Lists(graph, arcs) && Symmetric(arcs) && node in graph && nxt in graph[node] && nxt !in discovery0
    requires forall n :: n in stack ==> n in low0
    requires Scanning(arcs, discS, counterS, stack, node, scanned, counter0, discovery0, low0, parent0, bridges0)
    ensures Scanning(arcs, discS, counterS, stack, node, scanned + {nxt}, counter, discovery, low, parent, bridges)
    ensures discovery0.Keys <= discovery.Keys && Untouched(stack, low0, low, parent0, parent)
    decreases graph.Keys - discovery0.Keys, 1
  {
    parent := parent0[nxt := Some(node)];
    ChildMayBeVisited(arcs, discS, discovery0, stack, node, scanned, low0[node], counterS, counter0, nxt);
    counter, discovery, low, parent, bridges :=
      Dfs(graph, nxt, counter0, discovery0, low0, parent, bridges0, arcs, stack + [node]);
    AfterChild(arcs, discS, discovery0, discovery, stack, node, nxt, scanned, low0[node], low[nxt],
               counterS, counter0, counter);
    DecideChild(arcs, discS, discovery0, discovery, stack, node, nxt, scanned, low0[node], low[nxt],
                counterS, counter0, counter, bridges);
    UntouchedBelow(arcs, discovery, stack, node, nxt, low0, low, Min(low[node], low[nxt]), parent0, parent);
    low := low[node := Min(low[node], low[nxt])];
    if low[nxt] > discovery[node] {
      bridges := bridges + {{node, nxt}};
    }
  }

  /** `bridge_edges`: exactly the edges whose removal disconnects their ends. */
  method BridgeEdges(nodes: seq<Node>, edges: seq<Arc>) returns (bridges: set<Edge>)
    ensures forall u, v :: {u, v} in bridges <==> Bridge(Undirected(edges), u, v)
    ensures forall e :: e in bridges ==> exists u, v :: e == {u, v} && Bridge(Undirected(edges), u, v)
  {
    var graph := Adjacency.Adjacency(nodes, edges, false);
    ghost var arcs := Undirected(edges);
    var counter, discovery, low, parent := 0, map[], map[], map[];
    bridges := {};
    GraphLists(graph);
    var todo := graph.Keys;
    while todo != {}
      invariant Ready(arcs, discovery, [], counter)
      invariant Sound(arcs, bridges) && Complete(arcs, discovery, [], {}, bridges)
      invariant forall n :: n in graph && n !in todo ==> n in discovery
    {
      var node :| node in todo;
      todo := todo - {node};
      if node !in discovery {
        parent := parent[node := None];
        counter, discovery, low, parent, bridges := Dfs(graph, node, counter, discovery, low, parent, bridges, arcs, []);
      }
    }
    forall u, v ensures {u, v} in bridges <==> Bridge(arcs, u, v) {
      if {u, v} in bridges {
        var a, b :| {u, v} == {a, b} && Bridge(arcs, a, b);
        PairCases(u, v, a, b);
        BridgeSym(arcs, a, b);
      }
    }
  }

  lemma PairCases(u: Node, v: Node, a: Node, b: Node)
    requires {u, v} == {a, b}
    ensures (u == a && v == b) || (u == b && v == a)
  {
    assert u in {a, b} && v in {a, b} && a in {u, v} && b in {u, v};
  }
}
