/** Directed and undirected graphs as finite sets of arcs, walks in them, and reachability.

    The program only compares node names for equality, except that it sorts the two ends of
    an undirected edge; such an edge is an unordered pair here. A graph is the dictionary
    that `adjacency` builds; its arcs are the pairs (u, v) with v in graph[u].
 */
module Walks {

  /** A node name. In(n) and Out(n) are the names f"{n}:in" and f"{n}:out" of the split network. */
  datatype Node = Name(id: nat) | In(of: Node) | Out(of: Node)

  type Arc = (Node, Node)
  type Graph = map<Node, set<Node>>

  /** graph.get(node, set()) */
  function Succ(g: Graph, n: Node): set<Node> {
    if n in g then g[n] else {}
  }

  /** The arcs of a graph. */
  function Arcs(g: Graph): set<Arc> {
    set u, v | u in g && v in g[u] :: (u, v)
  }

  /** Every edge leads to a node that has an entry of its own, as `adjacency` guarantees. */
  ghost predicate Closed(g: Graph) {
    forall u, v :: u in g && v in g[u] ==> v in g
  }

  function NodeSet(nodes: seq<Node>): set<Node> {
    set x | x in nodes
  }

  function EdgeSet(edges: seq<Arc>): set<Arc> {
    set e | e in edges
  }

  /** The arcs of the undirected graph on a list of edges. */
  function Undirected(edges: seq<Arc>): set<Arc> {
    EdgeSet(edges) + set e | e in edges :: (e.1, e.0)
  }

  ghost predicate Symmetric(arcs: set<Arc>) {
    forall u, v :: (u, v) in arcs ==> (v, u) in arcs
  }

  // ---------------------------------------------------------------- walks

  ghost predicate IsWalk(arcs: set<Arc>, p: seq<Node>) {
    && |p| > 0
    && forall i, j {:trigger p[i], p[j]} :: 0 <= i < |p| && 0 <= j < |p| && j == i + 1 ==> (p[i], p[j]) in arcs
  }

  /** p is a walk from u to v; it has |p| - 1 hops. */
  ghost predicate Walk(arcs: set<Arc>, u: Node, v: Node, p: seq<Node>) {
    IsWalk(arcs, p) && p[0] == u && p[|p|-1] == v
  }

  ghost predicate Reach(arcs: set<Arc>, u: Node, v: Node) {
    exists p :: Walk(arcs, u, v, p)
  }

  ghost predicate Distinct(p: seq<Node>) {
    forall i, j :: 0 <= i < j < |p| ==> p[i] != p[j]
  }

  /** A set no arc leaves. */
  ghost predicate ClosedUnder(arcs: set<Arc>, s: set<Node>) {
    forall u, v :: (u, v) in arcs && u in s ==> v in s
  }

  lemma WalkSnoc(arcs: set<Arc>, u: Node, v: Node, w: Node, p: seq<Node>)
    requires Walk(arcs, u, v, p) && (v, w) in arcs
    ensures Walk(arcs, u, w, p + [w])
  {
  }

  lemma WalkCons(arcs: set<Arc>, u: Node, v: Node, w: Node, p: seq<Node>)
    requires (u, v) in arcs && Walk(arcs, v, w, p)
    ensures Walk(arcs, u, w, [u] + p)
  {
  }

  lemma WalkConcat(arcs: set<Arc>, u: Node, v: Node, w: Node, p: seq<Node>, q: seq<Node>)
    requires Walk(arcs, u, v, p) && Walk(arcs, v, w, q)
    ensures Walk(arcs, u, w, p + q[1..])
  {
    var r := p + q[1..];
    forall i | 0 < i < |r| ensures (r[i-1], r[i]) in arcs {
      if i > |p| {
        assert r[i-1] == q[i-|p|] && r[i] == q[i-|p|+1];
      } else if i == |p| {
        assert r[i-1] == q[0] && r[i] == q[1];
      }
    }
  }

  lemma ReachRefl(arcs: set<Arc>, u: Node)
    ensures Reach(arcs, u, u)
  {
    assert Walk(arcs, u, u, [u]);
  }

  lemma ReachArc(arcs: set<Arc>, u: Node, v: Node)
    requires (u, v) in arcs
    ensures Reach(arcs, u, v)
  {
    assert Walk(arcs, u, v, [u, v]);
  }

  lemma ReachTrans(arcs: set<Arc>, u: Node, v: Node, w: Node)
    requires Reach(arcs, u, v) && Reach(arcs, v, w)
    ensures Reach(arcs, u, w)
  {
    var p :| Walk(arcs, u, v, p);
    var q :| Walk(arcs, v, w, q);
    WalkConcat(arcs, u, v, w, p, q);
  }

  lemma ReachMono(arcs: set<Arc>, more: set<Arc>, u: Node, v: Node)
    requires arcs <= more && Reach(arcs, u, v)
    ensures Reach(more, u, v)
  {
    var p :| Walk(arcs, u, v, p);
    assert Walk(more, u, v, p);
  }

  /** In an undirected graph a walk can be reversed. */
  lemma Reversed(arcs: set<Arc>, u: Node, v: Node, p: seq<Node>)
    requires Symmetric(arcs) && Walk(arcs, u, v, p)
    ensures exists q :: Walk(arcs, v, u, q) && |q| == |p|
  {
    var q := seq(|p|, i requires 0 <= i < |p| => p[|p|-1-i]);
    forall i | 0 < i < |q| ensures (q[i-1], q[i]) in arcs {
      var k := |p| - i;
      assert (p[k-1], p[k]) in arcs;
    }
    assert Walk(arcs, v, u, q);
  }

  lemma ReachSym(arcs: set<Arc>, u: Node, v: Node)
    requires Symmetric(arcs) && Reach(arcs, u, v)
    ensures Reach(arcs, v, u)
  {
    var p :| Walk(arcs, u, v, p);
    Reversed(arcs, u, v, p);
  }

  /** A walk never leaves a closed set. */
  lemma {:induction false} WalkStays(arcs: set<Arc>, s: set<Node>, u: Node, v: Node, p: seq<Node>)
    requires ClosedUnder(arcs, s) && u in s && Walk(arcs, u, v, p)
    ensures v in s
    decreases |p|
  {
    if |p| > 1 {
      var q := p[..|p|-1];
      assert Walk(arcs, u, p[|p|-2], q);
      WalkStays(arcs, s, u, p[|p|-2], q);
      assert (p[|p|-2], p[|p|-1]) in arcs;
    }
  }

  lemma ReachStays(arcs: set<Arc>, s: set<Node>, u: Node, v: Node)
    requires ClosedUnder(arcs, s) && u in s && Reach(arcs, u, v)
    ensures v in s
  {
    var p :| Walk(arcs, u, v, p);
    WalkStays(arcs, s, u, v, p);
  }

  /** Cutting out the loop between two visits of one node leaves a shorter walk. */
  lemma CutLoop(arcs: set<Arc>, u: Node, v: Node, p: seq<Node>, i: nat, j: nat)
    requires Walk(arcs, u, v, p) && i < j < |p| && p[i] == p[j]
    ensures Walk(arcs, u, v, p[..i] + p[j..]) && |p[..i] + p[j..]| < |p|
  {
    var r := p[..i] + p[j..];
    forall k | 0 < k < |r| ensures (r[k-1], r[k]) in arcs {
      if k > i {
        assert r[k-1] == p[j+k-1-i] && r[k] == p[j+k-i];
      } else if k == i {
        assert r[k-1] == p[i-1] && r[k] == p[i];
      }
    }
  }

  /** Every walk contains a simple walk between the same ends. */
  lemma {:induction false} Simplify(arcs: set<Arc>, u: Node, v: Node, p: seq<Node>) returns (q: seq<Node>)
    requires Walk(arcs, u, v, p)
    ensures Walk(arcs, u, v, q) && Distinct(q) && |q| <= |p|
    decreases |p|
  {
    if Distinct(p) {
      q := p;
    } else {
      var i, j :| 0 <= i < j < |p| && p[i] == p[j];
      CutLoop(arcs, u, v, p, i, j);
      q := Simplify(arcs, u, v, p[..i] + p[j..]);
    }
  }

  // ---------------------------------------------------------------- sizes

  lemma {:induction false} SubsetSize<T>(small: set<T>, large: set<T>)
    requires small <= large
    ensures |small| <= |large|
    decreases |small|
  {
    if small != {} {
      var x :| x in small;
      SubsetSize(small - {x}, large - {x});
    }
  }

  lemma SameSize<T>(small: set<T>, large: set<T>)
    requires small <= large && |small| == |large|
    ensures small == large
  {
    if x :| x in large && x !in small {
      SubsetSize(small, large - {x});
    }
  }

  /** A list names as many nodes as it is long exactly when it repeats none. */
  lemma {:induction false} NodeSetSize(xs: seq<Node>)
    ensures |NodeSet(xs)| <= |xs|
    ensures |NodeSet(xs)| == |xs| <==> Distinct(xs)
    decreases |xs|
  {
    if xs == [] {
      assert NodeSet(xs) == {};
    } else {
      var rest := xs[1..];
      NodeSetSize(rest);
      assert xs == [xs[0]] + rest;
      assert NodeSet(xs) == NodeSet(rest) + {xs[0]};
      if Distinct(xs) {
        assert Distinct(rest) && xs[0] !in rest;
      } else if Distinct(rest) {
        assert xs[0] in rest;
      }
    }
  }

  lemma {:induction false} DifferentSize<T>(list: seq<T>, all: set<T>)
    requires forall i :: 0 <= i < |list| ==> list[i] in all
    requires forall i, j :: 0 <= i < j < |list| ==> list[i] != list[j]
    ensures |list| <= |all|
    ensures (forall x :: x in all ==> x in list) ==> |list| == |all|
    decreases |list|
  {
    if list == [] {
      if forall x :: x in all ==> x in list { assert all == {}; }
    } else {
      var x, rest := list[|list|-1], list[..|list|-1];
      assert list == rest + [x];
      DifferentSize(rest, all - {x});
      if forall y :: y in all ==> y in list {
        assert forall y :: y in all - {x} ==> y in rest;
      }
    }
  }
}
