/** `articulation_points`, in netlab/topology.py and again in netlab/topology_metrics.py. */
module ArticulationSearch {
  import opened Options
  import opened Walks
  import opened LowLink
  import Adjacency

  // ---------------------------------------------------------------- the argument

  /** What is known of node while its neighbours are scanned. Under an open parent: a point really
      separates, and otherwise every descendant reaches the parent without node. At a root: node is a
      point once it has two children, and with one child all descendants reach that child (anchor). */
  ghost predicate Judged(arcs: set<Arc>, d: set<Node>, stack: seq<Node>, node: Node,
                         children: nat, isPoint: bool, anchor: Node) {
    && (isPoint ==> Articulation(arcs, node))
    && (stack != [] ==> !isPoint ==>
          forall y :: y in d && y != node ==> Reach(Without(arcs, node), y, stack[|stack|-1]))
    && (stack == [] ==>
          && (isPoint <==> children > 1)
          && (children == 0 ==> d == {node})
          && (children > 0 ==> anchor in d && anchor != node)
          && (children == 1 ==> forall y :: y in d && y != node ==> Reach(Without(arcs, node), y, anchor)))
  }

  /** Open nodes reach the top of the stack without passing through a node off the stack. */
  lemma StackAround(arcs: set<Arc>, disc: map<Node, int>, stack: seq<Node>, w: Node, x: Node)
    requires Stacked(arcs, disc, stack) && w in stack && x !in stack
    ensures Reach(Without(arcs, x), w, stack[|stack|-1])
  {
    StackReach(arcs, disc, stack, w);
    ReachMono(Inside(arcs, Members(stack)), Without(arcs, x), w, stack[|stack|-1]);
  }

  /** Inside a child's subtree every node reaches the child without node. */
  lemma SubtreeReach(arcs: set<Arc>, dc: set<Node>, node: Node, c: Node, y: Node)
    requires Symmetric(arcs) && node !in dc && y in dc
    requires Reach(Inside(arcs, dc), c, y)
    ensures Reach(Without(arcs, node), y, c) && Reach(Without(arcs, node), c, y)
  {
    ReachMono(Inside(arcs, dc), Without(arcs, node), c, y);
    ReachSym(Without(arcs, node), c, y);
  }

  /** low[c] >= discovery[node]: the child's subtree hangs on node alone. */
  lemma ChildHangs(arcs: set<Arc>, disc: map<Node, int>, stack: seq<Node>, node: Node, dc: set<Node>, c: Node, lowc: int)
    requires forall w :: w in stack + [node] ==> w in disc
    requires node in disc && c in disc && node !in dc && forall w :: w in stack ==> w !in dc
    requires forall w :: w in stack ==> disc[w] < disc[node]
    requires Subtree(arcs, dc, stack + [node], c) && forall w :: (c, w) in arcs ==> w in dc || w in stack + [node]
    requires LowIs(arcs, dc, stack + [node], disc, c, Neighbours(arcs, c), lowc) && lowc >= disc[node]
    ensures forall u, w :: (u, w) in arcs && u in dc ==> w in dc || w == node
  {
    forall u, w | (u, w) in arcs && u in dc ensures w in dc || w == node {
      if w in stack {
        assert Top(stack + [node]) == Some(node);
        assert BackEdge(arcs, dc, stack + [node], c, Neighbours(arcs, c), u, w);
      }
    }
  }

  /** low[c] < discovery[node]: the child's subtree reaches the parent of node without node. */
  lemma ChildEscapes(arcs: set<Arc>, disc: map<Node, int>, stack: seq<Node>, node: Node, dc: set<Node>, c: Node, lowc: int)
    requires Symmetric(arcs) && stack != []
    requires forall w :: w in stack + [node] ==> w in disc
    requires Stacked(arcs, disc, stack)
    requires node in disc && c in disc && disc[c] > disc[node] && node !in dc && node !in stack
    requires forall w :: w in stack ==> disc[w] < disc[node]
    requires Subtree(arcs, dc, stack + [node], c)
    requires LowIs(arcs, dc, stack + [node], disc, c, Neighbours(arcs, c), lowc) && lowc < disc[node]
    ensures forall y :: y in dc ==> Reach(Without(arcs, node), y, stack[|stack|-1])
  {
    var up := stack[|stack|-1];
    var rest := Without(arcs, node);
    var u, w :| BackEdge(arcs, dc, stack + [node], c, Neighbours(arcs, c), u, w) && lowc == disc[w];
    StackAround(arcs, disc, stack, w, node);
    ReachArc(rest, u, w);
    ReachTrans(rest, u, w, up);
    SubtreeReach(arcs, dc, node, c, u);
    ReachTrans(rest, c, u, up);
    forall y | y in dc ensures Reach(rest, y, up) {
      SubtreeReach(arcs, dc, node, c, y);
      ReachTrans(rest, y, c, up);
    }
  }

  /** Nothing speaks for or against a node that has just been numbered. */
  lemma JudgeBegin(arcs: set<Arc>, disc0: map<Node, int>, disc: map<Node, int>, stack: seq<Node>, node: Node)
    requires node !in disc0 && disc.Keys == disc0.Keys + {node}
    ensures Judged(arcs, disc.Keys - disc0.Keys, stack, node, 0, false, node)
  {
    assert disc.Keys - disc0.Keys == {node};
  }

  /** The verdict on node after one more child. */
  lemma JudgeChild(arcs: set<Arc>, disc0: map<Node, int>, disc1: map<Node, int>, disc: map<Node, int>,
                   stack: seq<Node>, node: Node, c: Node, scanned: set<Node>, low: int, lowc: int,
                   counter0: int, counter1: int, counter: int, children: nat, isPoint: bool, anchor: Node)
    requires Symmetric(arcs) && (node, c) in arcs && (stack != [] ==> (stack[|stack|-1], node) in arcs)
    requires Visiting(arcs, disc0, disc1, stack, node, scanned, low, counter0, counter1)
    requires Visited(arcs, disc1, disc, stack + [node], c, lowc, counter1, counter)
    requires Judged(arcs, disc1.Keys - disc0.Keys, stack, node, children, isPoint, anchor)
    ensures Judged(arcs, disc.Keys - disc0.Keys, stack, node, children + 1,
                   isPoint || (if stack == [] then children + 1 > 1 else lowc >= disc[node]),
                   if children == 0 then c else anchor)
  {
    var d, dc := disc1.Keys - disc0.Keys, disc.Keys - disc1.Keys;
    var rest := Without(arcs, node);
    assert disc.Keys - disc0.Keys == d + dc;
    var open := stack + [node];
    assert open[..|stack|] == stack && open[|stack|] == node;
    if stack == [] {
      if children == 0 {
        forall y | y in dc ensures Reach(rest, y, c) { SubtreeReach(arcs, dc, node, c, y); }
      } else {
        ReachArc(arcs, c, node);
        ReachMono(Inside(arcs, d), arcs, node, anchor);
        ReachTrans(arcs, c, node, anchor);
        PartCutOff(arcs, dc, node, c, anchor);
      }
    } else if lowc >= disc[node] {
      ChildHangs(arcs, disc, stack, node, dc, c, lowc);
      var up := stack[|stack|-1];
      ReachArc(arcs, c, node);
      ReachArc(arcs, node, up);
      ReachTrans(arcs, c, node, up);
      PartCutOff(arcs, dc, node, c, up);
    } else {
      ChildEscapes(arcs, disc, stack, node, dc, c, lowc);
    }
  }

  /** Once all neighbours are scanned, node is a point exactly when it is an articulation point. */
  lemma JudgeEnd(arcs: set<Arc>, disc0: map<Node, int>, disc: map<Node, int>, stack: seq<Node>, node: Node,
                 low: int, counter0: int, counter: int, children: nat, isPoint: bool, anchor: Node)
    requires Symmetric(arcs) && Ready(arcs, disc0, stack, counter0)
    requires Visited(arcs, disc0, disc, stack, node, low, counter0, counter)
    requires Judged(arcs, disc.Keys - disc0.Keys, stack, node, children, isPoint, anchor)
    ensures isPoint <==> Articulation(arcs, node)
  {
    if !isPoint {
      var rest := Without(arcs, node);
      var goal := if stack == [] then anchor else stack[|stack|-1];
      forall y | (node, y) in arcs && y != node ensures Reach(rest, y, goal) {
        if y in stack {
          StackAround(arcs, disc, stack, y, node);
        }
      }
      NoArticulation(arcs, node, goal);
    }
  }

  lemma OutsiderIsNoPoint(g: Graph, x: Node)
    requires Closed(g) && Symmetric(Arcs(g)) && x !in g
    ensures !Articulation(Arcs(g), x)
  {
    assert Without(Arcs(g), x) == Arcs(g);
  }

  // ---------------------------------------------------------------- netlab/topology.py

  /** Off the stack, points holds the numbered articulation points. */
  ghost predicate Settled(arcs: set<Arc>, disc: map<Node, int>, stack: seq<Node>, points: set<Node>) {
    forall x :: x !in stack ==> (x in points <==> x in disc && Articulation(arcs, x))
  }

  /** A visit leaves the entries of open nodes alone. */
  ghost predicate Untouched(open: seq<Node>, low0: map<Node, int>, low: map<Node, int>,
                            parent0: map<Node, Option<Node>>, parent: map<Node, Option<Node>>,
                            points0: set<Node>, points: set<Node>) {
    forall n :: n in open ==>
      && n in low0 && n in low && low[n] == low0[n]
      && Parent(parent, n) == Parent(parent0, n)
      && (n in points <==> n in points0)
  }

  /** Only numbered nodes have a parent entry. */
  ghost predicate ParentsNumbered(parent: map<Node, Option<Node>>, discovery: map<Node, int>) {
    forall n :: n in parent ==> n in discovery
  }

  /** node has been numbered and its neighbours in scanned have been dealt with. */
  ghost predicate Scanning(arcs: set<Arc>, discS: map<Node, int>, counterS: int, stack: seq<Node>, node: Node,
                           scanned: set<Node>, children: nat, anchor: Node,
                           counter: int, discovery: map<Node, int>, low: map<Node, int>,
                           parent: map<Node, Option<Node>>, points: set<Node>) {
    && node in low && Parent(parent, node) == Top(stack) && ParentsNumbered(parent, discovery)
    && Visiting(arcs, discS, discovery, stack, node, scanned, low[node], counterS, counter)
    && Judged(arcs, discovery.Keys - discS.Keys, stack, node, children, node in points, anchor)
    && Settled(arcs, discovery, stack + [node], points)
  }

  /** The nested function: the visit of a node not yet numbered; stack is the path of open nodes above it. */
  method Dfs(graph: Graph, node: Node, counter0: int, discovery0: map<Node, int>, low0: map<Node, int>,
             parent0: map<Node, Option<Node>>, points0: set<Node>, ghost arcs: set<Arc>, ghost stack: seq<Node>)
    returns (counter: int, discovery: map<Node, int>, low: map<Node, int>,
             parent: map<Node, Option<Node>>, points: set<Node>)
    requires Lists(graph, arcs) && node in graph
    requires MayVisit(arcs, discovery0, stack, node, counter0)
    requires Settled(arcs, discovery0, stack, points0)
    requires Parent(parent0, node) == Top(stack) && forall n :: n in parent0 ==> n in discovery0 || n == node
    requires forall n :: n in stack ==> n in low0
    ensures node in low && Visited(arcs, discovery0, discovery, stack, node, low[node], counter0, counter)
    ensures Settled(arcs, discovery, stack, points)
    ensures Untouched(stack, low0, low, parent0, parent, points0, points) && ParentsNumbered(parent, discovery)
    decreases graph.Keys - discovery0.Keys, 0
  {
    Begin(arcs, discovery0, stack, node, counter0);
    counter := counter0 + 1;
    discovery, low := discovery0[node := counter], low0[node := counter];
    parent, points := parent0, points0;
    JudgeBegin(arcs, discovery0, discovery, stack, node);
    var children := 0;
    var todo := graph[node];
    ghost var scanned: set<Node>, anchor := {}, node;
    while todo != {}
      invariant todo + scanned == graph[node]
      invariant node in discovery && node !in discovery0 && discovery0.Keys <= discovery.Keys
      invariant Scanning(arcs, discovery0, counter0, stack, node, scanned, children, anchor,
                         counter, discovery, low, parent, points)
      invariant Untouched(stack, low0, low, parent0, parent, points0, points)
    {
      var nxt :| nxt in todo;
      todo := todo - {nxt};
      counter, discovery, low, parent, points, children, anchor :=
        Scan(graph, node, nxt, children, counter, discovery, low, parent, points,
             arcs, stack, discovery0, counter0, scanned, anchor);
      scanned := scanned + {nxt};
    }
    End(arcs, discovery0, discovery, stack, node, low[node], counter0, counter);
    JudgeEnd(arcs, discovery0, discovery, stack, node, low[node], counter0, counter,
             children, node in points, anchor);
  }

  /** The body of the loop over the neighbours: nxt is visited, or its number is taken into account. */
  method Scan(graph: Graph, node: Node, nxt: Node, children0: nat,
              counter0: int, discovery0: map<Node, int>, low0: map<Node, int>,
              parent0: map<Node, Option<Node>>, points0: set<Node>, ghost arcs: set<Arc>, ghost stack: seq<Node>,
              ghost discS: map<Node, int>, ghost counterS: int, ghost scanned: set<Node>, ghost anchor0: Node)
    returns (counter: int, discovery: map<Node, int>, low: map<Node, int>,
             parent: map<Node, Option<Node>>, points: set<Node>, children: nat, ghost anchor: Node)
    requires Lists(graph, arcs) && Symmetric(arcs) && node in graph && nxt in graph[node]
    requires stack != [] ==> (stack[|stack|-1], node) in arcs
    requires forall n :: n in stack ==> n in low0
    requires Scanning(arcs, discS, counterS, stack, node, scanned, children0, anchor0,
                      counter0, discovery0, low0, parent0, points0)
    ensures Scanning(arcs, discS, counterS, stack, node, scanned + {nxt}, children, anchor,
                     counter, discovery, low, parent, points)
    ensures discovery0.Keys <= discovery.Keys && Untouched(stack, low0, low, parent0, parent, points0, points)
    decreases graph.Keys - discovery0.Keys, 2
  {
    if nxt !in discovery0 {
      counter, discovery, low, parent, points, children, anchor :=
        Descend(graph, node, nxt, children0, counter0, discovery0, low0, parent0, points0,
                arcs, stack, discS, counterS, scanned, anchor0);
    } else {
      counter, discovery, low, parent, points, children, anchor :=
        counter0, discovery0, low0, parent0, points0, children0, anchor0;
      AfterScan(arcs, discS, discovery, stack, node, nxt, scanned, low[node], counterS, counter);
      if Some(nxt) != Parent(parent, node) {
        low := low[node := Min(low[node], discovery[nxt])];
      }
    }
  }

  /** Below node nothing has changed. */
  lemma UntouchedBelow(arcs: set<Arc>, disc: map<Node, int>, stack: seq<Node>, node: Node, nxt: Node,
                       low0: map<Node, int>, low: map<Node, int>, lowNode: int,
                       parent0: map<Node, Option<Node>>, parent: map<Node, Option<Node>>, points0: set<Node>, points: set<Node>)
    requires Stacked(arcs, disc, stack + [node]) && nxt !in stack + [node]
    requires Untouched(stack + [node], low0, low, parent0[nxt := Some(node)], parent, points0, points)
    ensures Untouched(stack, low0, low[node := lowNode], parent0, parent, points0, points)
    ensures Untouched(stack, low0, low[node := lowNode], parent0, parent, points0, points + {node})
    ensures node in low0 && node in low && low[node] == low0[node] && Parent(parent, node) == Parent(parent0, node)
    ensures node in points <==> node in points0
  {
    assert (stack + [node])[..|stack|] == stack;
    forall n | n in stack ensures n in stack + [node] && n != node { }
    assert node in stack + [node];
  }

  /** The branch that visits a neighbour not yet numbered. */
  method Descend(graph: Graph, node: Node, nxt: Node, children0: nat,
                 counter0: int, discovery0: map<Node, int>, low0: map<Node, int>,
                 parent0: map<Node, Option<Node>>, points0: set<Node>, ghost arcs: set<Arc>, ghost stack: seq<Node>,
                 ghost discS: map<Node, int>, ghost counterS: int, ghost scanned: set<Node>, ghost anchor0: Node)
    returns (counter: int, discovery: map<Node, int>, low: map<Node, int>,
             parent: map<Node, Option<Node>>, points: set<Node>, children: nat, ghost anchor: Node)
    requires Lists(graph, arcs) && Symmetric(arcs) && node in graph && nxt in graph[node] && nxt !in discovery0
    requires stack != [] ==> (stack[|stack|-1], node) in arcs
    requires forall n :: n in stack ==> n in low0
    requires Scanning(arcs, discS, counterS, stack, node, scanned, children0, anchor0,
                      counter0, discovery0, low0, parent0, points0)
    ensures Scanning(arcs, discS, counterS, stack, node, scanned + {nxt}, children, anchor,
                     counter, discovery, low, parent, points)
    ensures discovery0.Keys <= discovery.Keys && Untouched(stack, low0, low, parent0, parent, points0, points)
    decreases graph.Keys - discovery0.Keys, 1
  {
    parent := parent0[nxt := Some(node)];
    children := children0 + 1;
    ChildMayBeVisited(arcs, discS, discovery0, stack, node, scanned, low0[node], counterS, counter0, nxt);
    counter, discovery, low, parent, points :=
      Dfs(graph, nxt, counter0, discovery0, low0, parent, points0, arcs, stack + [node]);
    AfterChild(arcs, discS, discovery0, discovery, stack, node, nxt, scanned, low0[node], low[nxt],
               counterS, counter0, counter);
    JudgeChild(arcs, discS, discovery0, discovery, stack, node, nxt, scanned, low0[node], low[nxt],
               counterS, counter0, counter, children0, node in points0, anchor0);
    UntouchedBelow(arcs, discovery, stack, node, nxt, low0, low, Min(low[node], low[nxt]), parent0, parent, points0, points);
    anchor := if children0 == 0 then nxt else anchor0;
    low := low[node := Min(low[node], low[nxt])];
    if Parent(parent, node) == None && children > 1 {
      points := points + {node};
    }
    if Parent(parent, node) != None && low[nxt] >= discovery[node] {
      points := points + {node};
    }
  }

  /** `articulation_points`: exactly the nodes whose removal splits their connected component. */
  method ArticulationPoints(nodes: seq<Node>, edges: seq<Arc>) returns (points: set<Node>)
    ensures forall x :: x in points <==> Articulation(Undirected(edges), x)
  {
    var graph := Adjacency.Adjacency(nodes, edges, false);
    ghost var arcs := Undirected(edges);
    var counter, discovery, low, parent := 0, map[], map[], map[];
    points := {};
    GraphLists(graph);
    var todo := graph.Keys;
    while todo != {}
      invariant Ready(arcs, discovery, [], counter) && Settled(arcs, discovery, [], points)
      invariant ParentsNumbered(parent, discovery)
      invariant forall n :: n in graph && n !in todo ==> n in discovery
    {
      var node :| node in todo;
      todo := todo - {node};
      if node !in discovery {
        parent := parent[node := None];
        counter, discovery, low, parent, points := Dfs(graph, node, counter, discovery, low, parent, points, arcs, []);
      }
    }
    forall x | x !in discovery ensures !Articulation(arcs, x) {
      OutsiderIsNoPoint(graph, x);
    }
  }
}
