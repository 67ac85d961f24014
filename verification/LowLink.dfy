/** The facts behind low-link depth-first search: what separates a graph, and what the numbers
    kept by the search say about it.
 */
module LowLink {
  import opened Options
  import opened Walks

  // ---------------------------------------------------------------- separation

  function Without(arcs: set<Arc>, x: Node): set<Arc> {
    set a | a in arcs && a.0 != x && a.1 != x
  }

  /** Removing x splits a connected component: some connected pair loses its connection. */
  ghost predicate Articulation(arcs: set<Arc>, x: Node) {
    exists u, v :: u != x && v != x && Reach(arcs, u, v) && !Reach(Without(arcs, x), u, v)
  }

  function WithoutEdge(arcs: set<Arc>, u: Node, v: Node): set<Arc> {
    arcs - {(u, v), (v, u)}
  }

  /** Removing the edge between u and v disconnects its two ends. */
  ghost predicate Bridge(arcs: set<Arc>, u: Node, v: Node) {
    (u, v) in arcs && !Reach(WithoutEdge(arcs, u, v), u, v)
  }

  function Inside(arcs: set<Arc>, d: set<Node>): set<Arc> {
    set a | a in arcs && a.0 in d && a.1 in d
  }

  /** A part whose only way out is x is cut off by removing x. */
  lemma PartCutOff(arcs: set<Arc>, part: set<Node>, x: Node, c: Node, q: Node)
    requires forall u, w :: (u, w) in arcs && u in part ==> w in part || w == x
    requires x !in part && c in part && q !in part && q != x && Reach(arcs, c, q)
    ensures Articulation(arcs, x)
  {
    if Reach(Without(arcs, x), c, q) {
      ReachStays(Without(arcs, x), part, c, q);
    }
  }

  /** A walk that may pass through x can be led around x, whose neighbours all reach anchor. */
  lemma {:induction false} WalkAround(arcs: set<Arc>, x: Node, anchor: Node, u: Node, v: Node, p: seq<Node>)
    requires Symmetric(arcs) && u != x && Walk(arcs, u, v, p)
    requires forall y :: (x, y) in arcs && y != x ==> Reach(Without(arcs, x), y, anchor)
    ensures v != x ==> Reach(Without(arcs, x), u, v)
    ensures v == x ==> Reach(Without(arcs, x), u, anchor)
    decreases |p|
  {
    var rest := Without(arcs, x);
    if |p| == 1 {
      ReachRefl(rest, u);
    } else {
      var w := p[|p|-2];
      assert Walk(arcs, u, w, p[..|p|-1]);
      WalkAround(arcs, x, anchor, u, w, p[..|p|-1]);
      assert (w, v) in arcs;
      if w != x && v != x {
        ReachArc(rest, w, v);
        ReachTrans(rest, u, w, v);
      } else if w != x {
        ReachTrans(rest, u, w, anchor);
      } else if v != x {
        ReachSym(rest, v, anchor);
        ReachTrans(rest, u, anchor, v);
      }
    }
  }

  /** A node whose neighbours stay connected without it is no articulation point. */
  lemma NoArticulation(arcs: set<Arc>, x: Node, anchor: Node)
    requires Symmetric(arcs)
    requires forall y :: (x, y) in arcs && y != x ==> Reach(Without(arcs, x), y, anchor)
    ensures !Articulation(arcs, x)
  {
    forall u, v | u != x && v != x && Reach(arcs, u, v) ensures Reach(Without(arcs, x), u, v) {
      var p :| Walk(arcs, u, v, p);
      WalkAround(arcs, x, anchor, u, v, p);
    }
  }

  // ---------------------------------------------------------------- the state of a search

  /** The open nodes: each is numbered later than those below it, and adjacent to the one just below. */
  ghost predicate Stacked(arcs: set<Arc>, disc: map<Node, int>, stack: seq<Node>) {
    stack == [] ||
    (var top, below := stack[|stack|-1], stack[..|stack|-1];
     && top in disc
     && (forall w :: w in below ==> w in disc && disc[w] < disc[top])
     && (below != [] ==> (below[|below|-1], top) in arcs)
     && Stacked(arcs, disc, below))
  }

  /** parent.get(node) */
  function Parent(parent: map<Node, Option<Node>>, node: Node): Option<Node> {
    if node in parent then parent[node] else None
  }

  function Members(stack: seq<Node>): set<Node> {
    set n | n in stack
  }

  /** Open nodes reach the top of the stack through open nodes. */
  lemma {:induction false} StackReach(arcs: set<Arc>, disc: map<Node, int>, stack: seq<Node>, w: Node)
    requires Stacked(arcs, disc, stack) && w in stack
    ensures Reach(Inside(arcs, Members(stack)), w, stack[|stack|-1])
    decreases |stack|
  {
    var top, below := stack[|stack|-1], stack[..|stack|-1];
    var open := Inside(arcs, Members(stack));
    if w == top {
      ReachRefl(open, w);
    } else {
      assert stack == below + [top];
      StackReach(arcs, disc, below, w);
      var next := below[|below|-1];
      ReachMono(Inside(arcs, Members(below)), open, w, next);
      assert next in stack;
      ReachArc(open, next, top);
      ReachTrans(open, w, next, top);
    }
  }

  /** What holds whenever a node is about to be visited: stack is the path of open nodes, and every
      finished node has only numbered neighbours. */
  ghost predicate Ready(arcs: set<Arc>, disc: map<Node, int>, stack: seq<Node>, counter: int) {
    && (forall n :: n in disc ==> disc[n] <= counter)
    && (forall n :: n in stack ==> n in disc)
    && Stacked(arcs, disc, stack)
    && (forall u, v :: (u, v) in arcs && u in disc && u !in stack ==> v in disc)
  }

  lemma {:induction false} StackedExtends(arcs: set<Arc>, disc0: map<Node, int>, disc: map<Node, int>, stack: seq<Node>)
    requires Stacked(arcs, disc0, stack)
    requires forall n :: n in disc0 ==> n in disc && disc[n] == disc0[n]
    ensures Stacked(arcs, disc, stack)
    decreases |stack|
  {
    if stack != [] {
      StackedExtends(arcs, disc0, disc, stack[..|stack|-1]);
    }
  }

  function Top(stack: seq<Node>): Option<Node> {
    if stack == [] then None else Some(stack[|stack|-1])
  }

  /** d holds the nodes numbered since node was visited; they hang together, and the only way out
      of those other than node leads to d or to an open node. */
  ghost predicate Subtree(arcs: set<Arc>, d: set<Node>, stack: seq<Node>, node: Node) {
    && node in d
    && (forall u, w :: (u, w) in arcs && u in d && u != node ==> w in d || w in stack)
    && (forall u :: u in d ==> Reach(Inside(arcs, d), node, u))
  }

  /** An edge from the subtree d of node back to an open node that counts towards low[node]: any edge
      of a proper descendant, or an edge of node to an already scanned neighbour other than its parent. */
  ghost predicate BackEdge(arcs: set<Arc>, d: set<Node>, stack: seq<Node>, node: Node, scanned: set<Node>,
                           u: Node, w: Node) {
    && u in d && w in stack && (u, w) in arcs
    && (u == node ==> w in scanned && Top(stack) != Some(w))
  }

  /** low is the smallest number among node itself and the ends of its back edges. */
  ghost predicate LowIs(arcs: set<Arc>, d: set<Node>, stack: seq<Node>, disc: map<Node, int>, node: Node,
                        scanned: set<Node>, low: int)
    requires node in disc && forall w :: w in stack ==> w in disc
  {
    && low <= disc[node]
    && (forall u, w :: BackEdge(arcs, d, stack, node, scanned, u, w) ==> low <= disc[w])
    && (low == disc[node] || exists u, w :: BackEdge(arcs, d, stack, node, scanned, u, w) && low == disc[w])
  }

  function Neighbours(arcs: set<Arc>, n: Node): set<Node> {
    set a | a in arcs && a.0 == n :: a.1
  }

  /** The entries of the dictionary are the neighbours, and are nodes themselves. */
  ghost predicate Lists(g: Graph, arcs: set<Arc>) {
    forall n :: n in g ==> g[n] == Neighbours(arcs, n) && g[n] <= g.Keys
  }

  lemma GraphLists(g: Graph)
    requires Closed(g)
    ensures Lists(g, Arcs(g))
  {
    forall n | n in g ensures g[n] == Neighbours(Arcs(g), n) {
      forall w | w in g[n] ensures w in Neighbours(Arcs(g), n) {
        assert (n, w) in Arcs(g);
      }
    }
  }

  function Min(a: int, b: int): int {
    if a < b then a else b
  }

  /** disc extends disc0, and numbers its new nodes above counter0. */
  ghost predicate Extends(disc0: map<Node, int>, disc: map<Node, int>, counter0: int, counter: int) {
    && (forall n :: n in disc0 ==> n in disc && disc[n] == disc0[n])
    && (forall n :: n in disc && n !in disc0 ==> counter0 < disc[n] <= counter)
  }

  /** The search is scanning the neighbours of node; scanned holds those already dealt with. */
  ghost predicate Visiting(arcs: set<Arc>, disc0: map<Node, int>, disc: map<Node, int>, stack: seq<Node>,
                           node: Node, scanned: set<Node>, low: int, counter0: int, counter: int) {
    && node !in disc0 && node in disc && disc[node] == counter0 + 1
    && Ready(arcs, disc0, stack, counter0)
    && Extends(disc0, disc, counter0, counter)
    && Ready(arcs, disc, stack + [node], counter)
    && Subtree(arcs, disc.Keys - disc0.Keys, stack, node)
    && scanned <= disc.Keys
    && LowIs(arcs, disc.Keys - disc0.Keys, stack, disc, node, scanned, low)
  }

  /** The visit of node has returned. */
  ghost predicate Visited(arcs: set<Arc>, disc0: map<Node, int>, disc: map<Node, int>, stack: seq<Node>,
                          node: Node, low: int, counter0: int, counter: int) {
    && node !in disc0 && node in disc && disc[node] == counter0 + 1
    && Extends(disc0, disc, counter0, counter)
    && Ready(arcs, disc, stack, counter)
    && Subtree(arcs, disc.Keys - disc0.Keys, stack, node)
    && (forall w :: (node, w) in arcs ==> w in disc.Keys - disc0.Keys || w in stack)
    && LowIs(arcs, disc.Keys - disc0.Keys, stack, disc, node, Neighbours(arcs, node), low)
  }

  /** Where a visit may begin. */
  ghost predicate MayVisit(arcs: set<Arc>, disc: map<Node, int>, stack: seq<Node>, node: Node, counter: int) {
    && Symmetric(arcs) && Ready(arcs, disc, stack, counter)
    && node !in disc
    && (stack != [] ==> (stack[|stack|-1], node) in arcs)
  }

  lemma Begin(arcs: set<Arc>, disc0: map<Node, int>, stack: seq<Node>, node: Node, counter0: int)
    requires MayVisit(arcs, disc0, stack, node, counter0)
    ensures Visiting(arcs, disc0, disc0[node := counter0 + 1], stack, node, {}, counter0 + 1, counter0, counter0 + 1)
  {
    var disc := disc0[node := counter0 + 1];
    var d := disc.Keys - disc0.Keys;
    assert d == {node};
    ReachRefl(Inside(arcs, d), node);
    var open := stack + [node];
    StackedExtends(arcs, disc0, disc, stack);
    assert open[..|stack|] == stack;
    assert forall u, v :: (u, v) in arcs && u in disc && u !in open ==> u in disc0 && u !in stack;
  }

  /** While node is being scanned, an unnumbered neighbour may be visited below it. */
  lemma ChildMayBeVisited(arcs: set<Arc>, disc0: map<Node, int>, disc: map<Node, int>, stack: seq<Node>, node: Node,
                          scanned: set<Node>, low: int, counter0: int, counter: int, c: Node)
    requires Symmetric(arcs) && Visiting(arcs, disc0, disc, stack, node, scanned, low, counter0, counter)
    requires (node, c) in arcs && c !in disc
    ensures MayVisit(arcs, disc, stack + [node], c, counter)
  {
  }

  lemma MergeSubtree(arcs: set<Arc>, d: set<Node>, dc: set<Node>, stack: seq<Node>, node: Node, c: Node)
    requires Subtree(arcs, d, stack, node) && Subtree(arcs, dc, stack + [node], c) && (node, c) in arcs
    requires forall w :: (c, w) in arcs ==> w in dc || w in stack + [node]
    ensures Subtree(arcs, d + dc, stack, node)
  {
    forall u | u in d + dc ensures Reach(Inside(arcs, d + dc), node, u) {
      if u in d {
        ReachMono(Inside(arcs, d), Inside(arcs, d + dc), node, u);
      } else {
        ReachMono(Inside(arcs, dc), Inside(arcs, d + dc), c, u);
        assert (node, c) in Inside(arcs, d + dc);
        ReachArc(Inside(arcs, d + dc), node, c);
        ReachTrans(Inside(arcs, d + dc), node, c, u);
      }
    }
  }

  lemma MergeLow(arcs: set<Arc>, d: set<Node>, dc: set<Node>, stack: seq<Node>, disc: map<Node, int>,
                 node: Node, c: Node, scanned: set<Node>, low: int, lowc: int)
    requires node in disc && c in disc && forall w :: w in stack ==> w in disc
    requires LowIs(arcs, d, stack, disc, node, scanned, low)
    requires LowIs(arcs, dc, stack + [node], disc, c, Neighbours(arcs, c), lowc)
    requires node in d && node !in dc && node !in stack && c !in stack && disc[c] > disc[node]
    ensures LowIs(arcs, d + dc, stack, disc, node, scanned + {c}, Min(low, lowc))
  {
    forall u, w | BackEdge(arcs, d + dc, stack, node, scanned + {c}, u, w) ensures Min(low, lowc) <= disc[w] {
      if u in d {
        assert BackEdge(arcs, d, stack, node, scanned, u, w);
      } else {
        assert BackEdge(arcs, dc, stack + [node], c, Neighbours(arcs, c), u, w);
      }
    }
    if low <= lowc {
      if low != disc[node] {
        var u, w :| BackEdge(arcs, d, stack, node, scanned, u, w) && low == disc[w];
        assert BackEdge(arcs, d + dc, stack, node, scanned + {c}, u, w);
      }
    } else {
      var u, w :| BackEdge(arcs, dc, stack + [node], c, Neighbours(arcs, c), u, w) && lowc == disc[w];
      assert BackEdge(arcs, d + dc, stack, node, scanned + {c}, u, w);
    }
  }

  /** A child has returned. */
  lemma AfterChild(arcs: set<Arc>, disc0: map<Node, int>, disc1: map<Node, int>, disc: map<Node, int>,
                   stack: seq<Node>, node: Node, c: Node, scanned: set<Node>, low: int, lowc: int,
                   counter0: int, counter1: int, counter: int)
    requires (node, c) in arcs
    requires Visiting(arcs, disc0, disc1, stack, node, scanned, low, counter0, counter1)
    requires Visited(arcs, disc1, disc, stack + [node], c, lowc, counter1, counter)
    ensures Visiting(arcs, disc0, disc, stack, node, scanned + {c}, Min(low, lowc), counter0, counter)
  {
    var d, dc := disc1.Keys - disc0.Keys, disc.Keys - disc1.Keys;
    assert disc.Keys - disc0.Keys == d + dc;
    MergeSubtree(arcs, d, dc, stack, node, c);
    assert node in stack + [node];
    assert LowIs(arcs, d, stack, disc, node, scanned, low);
    MergeLow(arcs, d, dc, stack, disc, node, c, scanned, low, lowc);
  }

  /** A numbered neighbour of node is in its subtree or open. */
  lemma NumberedNeighbour(arcs: set<Arc>, disc0: map<Node, int>, disc: map<Node, int>, stack: seq<Node>,
                          node: Node, scanned: set<Node>, low: int, counter0: int, counter: int, nxt: Node)
    requires Symmetric(arcs)
    requires Visiting(arcs, disc0, disc, stack, node, scanned, low, counter0, counter)
    requires (node, nxt) in arcs && nxt in disc
    ensures nxt in disc.Keys - disc0.Keys || nxt in stack
  {
    assert (nxt, node) in arcs;
  }

  /** A numbered neighbour has been scanned. */
  lemma AfterScan(arcs: set<Arc>, disc0: map<Node, int>, disc: map<Node, int>, stack: seq<Node>,
                  node: Node, nxt: Node, scanned: set<Node>, low: int, counter0: int, counter: int)
    requires Symmetric(arcs) && (node, nxt) in arcs && nxt in disc
    requires Visiting(arcs, disc0, disc, stack, node, scanned, low, counter0, counter)
    ensures Visiting(arcs, disc0, disc, stack, node, scanned + {nxt},
                     if Top(stack) == Some(nxt) then low else Min(low, disc[nxt]), counter0, counter)
  {
    var d := disc.Keys - disc0.Keys;
    NumberedNeighbour(arcs, disc0, disc, stack, node, scanned, low, counter0, counter, nxt);
    var low' := if Top(stack) == Some(nxt) then low else Min(low, disc[nxt]);
    forall u, w | BackEdge(arcs, d, stack, node, scanned + {nxt}, u, w) ensures low' <= disc[w] {
      if u != node || w != nxt {
        assert BackEdge(arcs, d, stack, node, scanned, u, w);
      }
    }
    if low' == low {
      if low != disc[node] {
        var u, w :| BackEdge(arcs, d, stack, node, scanned, u, w) && low == disc[w];
        assert BackEdge(arcs, d, stack, node, scanned + {nxt}, u, w);
      }
    } else {
      assert BackEdge(arcs, d, stack, node, scanned + {nxt}, node, nxt);
    }
  }

  /** All neighbours have been scanned. */
  lemma End(arcs: set<Arc>, disc0: map<Node, int>, disc: map<Node, int>, stack: seq<Node>,
            node: Node, low: int, counter0: int, counter: int)
    requires Symmetric(arcs)
    requires Visiting(arcs, disc0, disc, stack, node, Neighbours(arcs, node), low, counter0, counter)
    ensures Visited(arcs, disc0, disc, stack, node, low, counter0, counter)
  {
    forall w | (node, w) in arcs ensures w in disc.Keys - disc0.Keys || w in stack {
      assert w in Neighbours(arcs, node);
      NumberedNeighbour(arcs, disc0, disc, stack, node, Neighbours(arcs, node), low, counter0, counter, w);
    }
    var open := stack + [node];
    assert open[..|stack|] == stack;
    forall u, v | (u, v) in arcs && u in disc && u !in stack ensures v in disc {
      if u != node { assert u !in open; }
    }
  }
}
