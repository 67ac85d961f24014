/** netlab/topology_metrics.py: the second implementation of adjacency, bridges, components and distances. */
module TopologyMetrics {
  import opened Options
  import opened Walks
  import opened LowLink
  import opened BridgeSearch
  import opened Distances
  import opened Reachability
  import opened Diameter
  import Search = ArticulationSearch
  import Adj = Adjacency

  // ---------------------------------------------------------------- adjacency

  /** The first loop enters the edges as listed, the second their reversals. */
  method Adjacency(nodes: seq<Node>, edges: seq<Arc>, directed: bool) returns (a: Graph)
    ensures Arcs(a) == if directed then EdgeSet(edges) else Undirected(edges)
    ensures a.Keys == NodeSet(nodes) + Adj.Ends(edges)
    ensures Closed(a)
  {
    a := Adj.Adjacency(nodes, edges, true);
    if !directed {
      a := Reversals(a, edges);
    }
    forall u, v | u in a && v in a[u] ensures v in a {
      assert (u, v) in Arcs(a);
    }
  }

  /** `for u, v in edges: a[v].add(u)` */
  method Reversals(a0: Graph, edges: seq<Arc>) returns (a: Graph)
    requires Arcs(a0) == EdgeSet(edges) && Adj.Ends(edges) <= a0.Keys
    ensures Arcs(a) == Undirected(edges) && a.Keys == a0.Keys
  {
    a := a0;
    for i := 0 to |edges|
      invariant Arcs(a) == EdgeSet(edges) + Backwards(edges[..i])
      invariant a.Keys == a0.Keys
    {
      var (u, v) := edges[i];
      Adj.AddArcs(a, v, u);
      OneMoreReversal(edges, i);
      assert v in Adj.Ends(edges) by { assert (u, v) in edges; }
      a := Adj.Add(a, v, u);
    }
    assert edges[..|edges|] == edges;
  }

  ghost function Backwards(edges: seq<Arc>): set<Arc> {
    set e | e in edges :: (e.1, e.0)
  }

  lemma OneMoreReversal(edges: seq<Arc>, i: nat)
    requires i < |edges|
    ensures Backwards(edges[..i+1]) == Backwards(edges[..i]) + {(edges[i].1, edges[i].0)}
  {
    assert edges[..i+1] == edges[..i] + [edges[i]];
    assert edges[i] in edges[..i+1];
    forall a | a in Backwards(edges[..i]) ensures a in Backwards(edges[..i+1]) {
      assert (a.1, a.0) in edges[..i+1];
    }
  }

  // ---------------------------------------------------------------- bridges

  /** The listed pairs, without their orientation. */
  ghost function EdgesOf(listed: seq<Arc>): set<Edge> {
    set e | e in listed :: {e.0, e.1}
  }

  ghost predicate Differ(listed: seq<Arc>, i: int, j: int)
    requires 0 <= i < j < |listed|
  {
    {listed[i].0, listed[i].1} != {listed[j].0, listed[j].1}
  }

  /** No edge is listed twice, in either orientation. */
  ghost predicate Once(listed: seq<Arc>) {
    forall i, j {:trigger Differ(listed, i, j)} :: 0 <= i < j < |listed| ==> Differ(listed, i, j)
  }

  ghost predicate Within(listed: seq<Arc>, nodes: set<Node>) {
    forall e :: e in listed ==> e.0 in nodes && e.1 in nodes
  }

  /** The list has grown by edges among the new nodes. */
  ghost predicate Grown(out0: seq<Arc>, out: seq<Arc>, nodes0: set<Node>, nodes: set<Node>) {
    && nodes0 <= nodes && out0 <= out
    && Once(out) && Within(out0, nodes0) && Within(out[|out0|..], nodes - nodes0)
  }

  lemma GrownWithin(out0: seq<Arc>, out: seq<Arc>, nodes0: set<Node>, nodes: set<Node>)
    requires Grown(out0, out, nodes0, nodes)
    ensures Within(out, nodes)
  {
    forall e | e in out ensures e.0 in nodes && e.1 in nodes {
      assert out == out0 + out[|out0|..];
    }
  }

  /** A visit of a child followed by the test of its tree edge. */
  lemma GrownByChild(outS: seq<Arc>, out0: seq<Arc>, out: seq<Arc>, nodesS: set<Node>, nodes0: set<Node>, nodes: set<Node>,
                     node: Node, c: Node, isBridge: bool)
    requires Grown(outS, out0, nodesS, nodes0) && Grown(out0, out, nodes0, nodes)
    requires node in nodes0 && node !in nodesS && c in nodes && c !in nodes0
    ensures Grown(outS, if isBridge then out + [(node, c)] else out, nodesS, nodes)
    ensures EdgesOf(out + [(node, c)]) == EdgesOf(out) + {{node, c}}
  {
    assert out[|outS|..] == out0[|outS|..] + out[|out0|..];
    assert (out + [(node, c)])[|outS|..] == out[|outS|..] + [(node, c)];
    GrownWithin(outS, out0, nodesS, nodes0);
    forall i | 0 <= i < |out| ensures {out[i].0, out[i].1} != {node, c} {
      if i < |out0| {
        assert out[i] == out0[i] && out0[i] in out0;
        assert c !in {out[i].0, out[i].1};
      } else {
        assert out[i] == out[|out0|..][i - |out0|];
        assert node !in {out[i].0, out[i].1};
      }
      assert node in {node, c} && c in {node, c};
    }
    var more := out + [(node, c)];
    forall i, j {:trigger Differ(more, i, j)} | 0 <= i < j < |more| ensures Differ(more, i, j) {
      if j < |out| {
        assert Differ(out, i, j);
      }
    }
    OneMoreEdge(out, (node, c));
  }

  lemma OneMoreEdge(out: seq<Arc>, e: Arc)
    ensures EdgesOf(out + [e]) == EdgesOf(out) + {{e.0, e.1}}
  {
    forall x | x in EdgesOf(out) + {{e.0, e.1}} ensures x in EdgesOf(out + [e]) {
      if x in EdgesOf(out) {
        var f :| f in out && x == {f.0, f.1};
        assert f in out + [e];
      } else {
        assert e in out + [e];
      }
    }
  }

  /** parent.get(u): a root has no entry here. */
  function ParentOf(parent: map<Node, Node>, u: Node): Option<Node> {
    if u in parent then Some(parent[u]) else None
  }

  ghost predicate Unchanged(open: seq<Node>, low0: map<Node, int>, low: map<Node, int>,
                            parent0: map<Node, Node>, parent: map<Node, Node>) {
    forall n :: n in open ==>
      n in low0 && n in low && low[n] == low0[n] && ParentOf(parent, n) == ParentOf(parent0, n)
  }

  /** Names numbered so far are the only ones with a parent. */
  ghost predicate ParentsKnown(parent: map<Node, Node>, disc: map<Node, int>) {
    forall n :: n in parent ==> n in disc
  }

  ghost predicate Scanning(arcs: set<Arc>, discS: map<Node, int>, timeS: int, stack: seq<Node>, u: Node,
                           scanned: set<Node>, outS: seq<Arc>, time: int, disc: map<Node, int>, low: map<Node, int>,
                           parent: map<Node, Node>, out: seq<Arc>) {
    && u in low && ParentOf(parent, u) == Top(stack) && ParentsKnown(parent, disc)
    && Visiting(arcs, discS, disc, stack, u, scanned, low[u], timeS, time)
    && Sound(arcs, EdgesOf(out)) && Complete(arcs, disc, stack + [u], {}, EdgesOf(out))
    && Grown(outS, out, discS.Keys, disc.Keys)
  }

  method Dfs(a: Graph, u: Node, time0: int, disc0: map<Node, int>, low0: map<Node, int>, parent0: map<Node, Node>,
             out0: seq<Arc>, ghost arcs: set<Arc>, ghost stack: seq<Node>)
    returns (time: int, disc: map<Node, int>, low: map<Node, int>, parent: map<Node, Node>, out: seq<Arc>)
    requires Lists(a, arcs) && u in a
    requires MayVisit(arcs, disc0, stack, u, time0)
    requires Sound(arcs, EdgesOf(out0)) && Complete(arcs, disc0, stack, {}, EdgesOf(out0))
    requires Grown(out0, out0, disc0.Keys, disc0.Keys)
    requires ParentOf(parent0, u) == Top(stack) && forall n :: n in parent0 ==> n in disc0 || n == u
    requires forall n :: n in stack ==> n in low0
    ensures u in low && Visited(arcs, disc0, disc, stack, u, low[u], time0, time)
    ensures Sound(arcs, EdgesOf(out)) && Complete(arcs, disc, stack, TreeEdge(stack, u), EdgesOf(out))
    ensures Grown(out0, out, disc0.Keys, disc.Keys)
    ensures Unchanged(stack, low0, low, parent0, parent) && ParentsKnown(parent, disc)
    decreases a.Keys - disc0.Keys, 0
  {
    Begin(arcs, disc0, stack, u, time0);
    time := time0 + 1;
    disc, low := disc0[u := time], low0[u := time];
    parent, out := parent0, out0;
    var todo := a[u];
    ghost var scanned: set<Node> := {};
    while todo != {}
      invariant todo + scanned == a[u]
      invariant u in disc && u !in disc0 && disc0.Keys <= disc.Keys
      invariant Scanning(arcs, disc0, time0, stack, u, scanned, out0, time, disc, low, parent, out)
      invariant Unchanged(stack, low0, low, parent0, parent)
    {
      var v :| v in todo;
      todo := todo - {v};
      time, disc, low, parent, out :=
        Scan(a, u, v, time, disc, low, parent, out, arcs, stack, disc0, time0, scanned, out0);
      scanned := scanned + {v};
    }
    End(arcs, disc0, disc, stack, u, low[u], time0, time);
    DecideEnd(arcs, disc0, disc, stack, u, low[u], time0, time, EdgesOf(out));
  }

  method Scan(a: Graph, u: Node, v: Node, time0: int, disc0: map<Node, int>, low0: map<Node, int>, parent0: map<Node, Node>,
              out0: seq<Arc>, ghost arcs: set<Arc>, ghost stack: seq<Node>, ghost discS: map<Node, int>,
              ghost timeS: int, ghost scanned: set<Node>, ghost outS: seq<Arc>)
    returns (time: int, disc: map<Node, int>, low: map<Node, int>, parent: map<Node, Node>, out: seq<Arc>)
    requires Lists(a, arcs) && Symmetric(arcs) && u in a && v in a[u]
    requires forall n :: n in stack ==> n in low0
    requires Scanning(arcs, discS, timeS, stack, u, scanned, outS, time0, disc0, low0, parent0, out0)
    ensures Scanning(arcs, discS, timeS, stack, u, scanned + {v}, outS, time, disc, low, parent, out)
    ensures disc0.Keys <= disc.Keys && Unchanged(stack, low0, low, parent0, parent)
    decreases a.Keys - disc0.Keys, 2
  {
    if v !in disc0 {
      time, disc, low, parent, out := Descend(a, u, v, time0, disc0, low0, parent0, out0, arcs, stack, discS, timeS, scanned, outS);
    } else {
      time, disc, low, parent, out := time0, disc0, low0, parent0, out0;
      AfterScan(arcs, discS, disc, stack, u, v, scanned, low[u], timeS, time);
      if ParentOf(parent, u) != Some(v) {
        low := low[u := Min(low[u], disc[v])];
      }
    }
  }

  /** The lists and numbers after a child's visit and the test of its tree edge. */
  lemma ChildDone(arcs: set<Arc>, discS: map<Node, int>, timeS: int, stack: seq<Node>, u: Node, scanned: set<Node>,
                  outS: seq<Arc>, time0: int, disc0: map<Node, int>, low0: int, out0: seq<Arc>,
                  v: Node, time: int, disc: map<Node, int>, lowv: int, out: seq<Arc>)
    requires Symmetric(arcs) && (u, v) in arcs && v !in disc0
    requires Visiting(arcs, discS, disc0, stack, u, scanned, low0, timeS, time0)
    requires Grown(outS, out0, discS.Keys, disc0.Keys)
    requires Visited(arcs, disc0, disc, stack + [u], v, lowv, time0, time)
    requires Sound(arcs, EdgesOf(out)) && Complete(arcs, disc, stack + [u], TreeEdge(stack + [u], v), EdgesOf(out))
    requires Grown(out0, out, disc0.Keys, disc.Keys)
    ensures Visiting(arcs, discS, disc, stack, u, scanned + {v}, Min(low0, lowv), timeS, time)
    ensures var out' := if lowv > disc[u] then out + [(u, v)] else out;
            && Sound(arcs, EdgesOf(out')) && Complete(arcs, disc, stack + [u], {}, EdgesOf(out'))
            && Grown(outS, out', discS.Keys, disc.Keys)
  {
    AfterChild(arcs, discS, disc0, disc, stack, u, v, scanned, low0, lowv, timeS, time0, time);
    DecideChild(arcs, discS, disc0, disc, stack, u, v, scanned, low0, lowv, timeS, time0, time, EdgesOf(out));
    GrownByChild(outS, out0, out, discS.Keys, disc0.Keys, disc.Keys, u, v, lowv > disc[u]);
  }

  /** Below u nothing has changed. */
  lemma UnchangedBelow(arcs: set<Arc>, disc: map<Node, int>, stack: seq<Node>, u: Node, v: Node, low0: map<Node, int>,
                       low: map<Node, int>, lowu: int, parent0: map<Node, Node>, parent: map<Node, Node>)
    requires Stacked(arcs, disc, stack + [u]) && v !in stack + [u]
    requires Unchanged(stack + [u], low0, low, parent0[v := u], parent)
    ensures Unchanged(stack, low0, low[u := lowu], parent0, parent)
    ensures ParentOf(parent, u) == ParentOf(parent0, u) && low[u] == low0[u]
  {
    assert (stack + [u])[..|stack|] == stack;
    forall n | n in stack ensures n in stack + [u] && n != u { }
    assert u in stack + [u];
  }

  lemma GrownNone(outS: seq<Arc>, out: seq<Arc>, nodesS: set<Node>, nodes: set<Node>)
    requires Grown(outS, out, nodesS, nodes)
    ensures Grown(out, out, nodes, nodes)
  {
    GrownWithin(outS, out, nodesS, nodes);
    assert out[|out|..] == [];
  }

  method Descend(a: Graph, u: Node, v: Node, time0: int, disc0: map<Node, int>, low0: map<Node, int>, parent0: map<Node, Node>,
                 out0: seq<Arc>, ghost arcs: set<Arc>, ghost stack: seq<Node>, ghost discS: map<Node, int>,
                 ghost timeS: int, ghost scanned: set<Node>, ghost outS: seq<Arc>)
    returns (time: int, disc: map<Node, int>, low: map<Node, int>, parent: map<Node, Node>, out: seq<Arc>)
    requires Lists(a, arcs) && Symmetric(arcs) && u in a && v in a[u] && v !in disc0
    requires forall n :: n in stack ==> n in low0
    requires Scanning(arcs, discS, timeS, stack, u, scanned, outS, time0, disc0, low0, parent0, out0)
    ensures Scanning(arcs, discS, timeS, stack, u, scanned + {v}, outS, time, disc, low, parent, out)
    ensures disc0.Keys <= disc.Keys && Unchanged(stack, low0, low, parent0, parent)
    decreases a.Keys - disc0.Keys, 1
  {
    parent := parent0[v := u];
    ChildMayBeVisited(arcs, discS, disc0, stack, u, scanned, low0[u], timeS, time0, v);
    GrownNone(outS, out0, discS.Keys, disc0.Keys);
    time, disc, low, parent, out := Dfs(a, v, time0, disc0, low0, parent, out0, arcs, stack + [u]);
    ChildDone(arcs, discS, timeS, stack, u, scanned, outS, time0, disc0, low0[u], out0, v, time, disc, low[v], out);
    UnchangedBelow(arcs, disc, stack, u, v, low0, low, Min(low[u], low[v]), parent0, parent);
    low := low[u := Min(low[u], low[v])];
    if low[v] > disc[u] {
      out := out + [(u, v)];
    }
  }

  /** `articulation_points`. Roots get no parent entry here, which the search cannot tell from an empty one. */
  method ArticulationPoints(nodes: seq<Node>, edges: seq<Arc>) returns (points: set<Node>)
    ensures forall x :: x in points <==> Articulation(Undirected(edges), x)
  {
    var a := Adjacency(nodes, edges, false);
    ghost var arcs := Undirected(edges);
    var time, disc, low, parent := 0, map[], map[], map[];
    points := {};
    GraphLists(a);
    var todo := a.Keys;
    while todo != {}
      invariant Ready(arcs, disc, [], time) && Search.Settled(arcs, disc, [], points)
      invariant Search.ParentsNumbered(parent, disc)
      invariant forall n :: n in a && n !in todo ==> n in disc
    {
      var n :| n in todo;
      todo := todo - {n};
      if n !in disc {
        time, disc, low, parent, points := Search.Dfs(a, n, time, disc, low, parent, points, arcs, []);
      }
    }
    forall x | x !in disc ensures !Articulation(arcs, x) {
      Search.OutsiderIsNoPoint(a, x);
    }
  }

  /** `bridges`: every edge whose removal disconnects its ends, once and in one orientation, and no other edge. */
  method Bridges(nodes: seq<Node>, edges: seq<Arc>) returns (out: seq<Arc>)
    ensures forall u, v :: {u, v} in EdgesOf(out) <==> Bridge(Undirected(edges), u, v)
    ensures forall e :: e in out ==> Bridge(Undirected(edges), e.0, e.1)
    ensures Once(out)
  {
    var a := Adjacency(nodes, edges, false);
    ghost var arcs := Undirected(edges);
    var time, disc, low, parent := 0, map[], map[], map[];
    out := [];
    GraphLists(a);
    assert EdgesOf(out) == {};
    var todo := a.Keys;
    while todo != {}
      invariant Ready(arcs, disc, [], time) && ParentsKnown(parent, disc)
      invariant Sound(arcs, EdgesOf(out)) && Complete(arcs, disc, [], {}, EdgesOf(out))
      invariant Grown([], out, {}, disc.Keys)
      invariant forall n :: n in a && n !in todo ==> n in disc
    {
      var n :| n in todo;
      todo := todo - {n};
      if n !in disc {
        GrownWithin([], out, {}, disc.Keys);
        assert out[|out|..] == [];
        ghost var out0, disc0 := out, disc;
        time, disc, low, parent, out := Dfs(a, n, time, disc, low, parent, out, arcs, []);
        GrownWithin(out0, out, disc0.Keys, disc.Keys);
        assert out[0..] == out;
      }
    }
    OnlyBridges(arcs, out);
  }

  lemma OnlyBridges(arcs: set<Arc>, out: seq<Arc>)
    requires Symmetric(arcs) && Sound(arcs, EdgesOf(out))
    ensures forall e :: e in out ==> Bridge(arcs, e.0, e.1)
    ensures forall u, v :: {u, v} in EdgesOf(out) ==> Bridge(arcs, u, v)
  {
    forall u, v | {u, v} in EdgesOf(out) ensures Bridge(arcs, u, v) {
      var a, b :| {u, v} == {a, b} && Bridge(arcs, a, b);
      PairCases(u, v, a, b);
      BridgeSym(arcs, a, b);
    }
    forall e | e in out ensures Bridge(arcs, e.0, e.1) {
      assert {e.0, e.1} in EdgesOf(out);
    }
  }

  /** The two implementations find the same bridges, whatever the order in which they meet the nodes. */
  method BothBridges(nodes: seq<Node>, edges: seq<Arc>) returns (found: set<Edge>, listed: seq<Arc>)
    ensures found == EdgesOf(listed) && |found| == |listed|
  {
    found := BridgeEdges(nodes, edges);
    listed := Bridges(nodes, edges);
    forall e ensures e in found <==> e in EdgesOf(listed) {
      if e in EdgesOf(listed) {
        var f :| f in listed && e == {f.0, f.1};
      }
    }
    OnceCount(listed);
  }

  lemma {:induction false} OnceCount(listed: seq<Arc>)
    requires Once(listed)
    ensures |EdgesOf(listed)| == |listed|
  {
    if listed == [] {
      assert EdgesOf(listed) == {};
    } else {
      var rest, e := listed[..|listed|-1], listed[|listed|-1];
      forall i, j {:trigger Differ(rest, i, j)} | 0 <= i < j < |rest| ensures Differ(rest, i, j) {
        assert Differ(listed, i, j);
      }
      OnceCount(rest);
      OneMoreEdge(rest, e);
      assert listed == rest + [e];
      forall f | f in rest ensures {f.0, f.1} != {e.0, e.1} {
        var i :| 0 <= i < |rest| && rest[i] == f;
        assert Differ(listed, i, |rest|);
      }
    }
  }

  // ---------------------------------------------------------------- components

  /** While one component is collected: c is finished, q is waiting, earlier components are off limits. */
  ghost predicate Collecting(arcs: set<Arc>, start: Node, earlier: set<Node>, seen: set<Node>, c: seq<Node>, q: seq<Node>) {
    && seen == earlier + NodeSet(c) + NodeSet(q) && start in seen - earlier
    && Distinct(c + q) && (forall n :: n in c + q ==> n !in earlier && Reach(arcs, start, n))
    && (forall u, v :: (u, v) in arcs && u in c ==> v in seen)
  }

  /** u has been taken off the waiting list, and its neighbours in scanned are seen. */
  ghost predicate Widening(arcs: set<Arc>, start: Node, earlier: set<Node>, seen: set<Node>, c: seq<Node>, q: seq<Node>,
                           u: Node, scanned: set<Node>) {
    && seen == earlier + NodeSet(c) + NodeSet(q) && start in seen - earlier && u in c
    && Distinct(c + q) && (forall n :: n in c + q ==> n !in earlier && Reach(arcs, start, n))
    && (forall x, v :: (x, v) in arcs && x in c && x != u ==> v in seen)
    && scanned <= seen
  }

  lemma TakeLast(arcs: set<Arc>, start: Node, earlier: set<Node>, seen: set<Node>, c: seq<Node>, q: seq<Node>)
    requires Collecting(arcs, start, earlier, seen, c, q) && q != []
    ensures q[|q|-1] !in c && Widening(arcs, start, earlier, seen, c + [q[|q|-1]], q[..|q|-1], q[|q|-1], {})
  {
    var u, rest := q[|q|-1], q[..|q|-1];
    assert q == rest + [u];
    var before, after := c + q, c + [u] + rest;
    var last := |before| - 1;
    assert before[last] == u;
    forall i | 0 <= i < |c| ensures c[i] != u {
      assert before[i] != before[last];
    }
    forall i, j | 0 <= i < j < |after| ensures after[i] != after[j] {
      assert before[if i < |c| then i else if i == |c| then last else i - 1]
          != before[if j < |c| then j else if j == |c| then last else j - 1];
    }
    forall n | n in after ensures n in before {
      if n !in c && n != u { assert n in rest && n in q; }
    }
    assert forall x :: x in q ==> x in rest || x == u;
  }

  lemma Widen(arcs: set<Arc>, start: Node, earlier: set<Node>, seen: set<Node>, c: seq<Node>, q: seq<Node>,
              u: Node, scanned: set<Node>, v: Node)
    requires Widening(arcs, start, earlier, seen, c, q, u, scanned) && (u, v) in arcs
    ensures v in seen ==> Widening(arcs, start, earlier, seen, c, q, u, scanned + {v})
    ensures v !in seen ==> Widening(arcs, start, earlier, seen + {v}, c, q + [v], u, scanned + {v})
  {
    if v !in seen {
      assert u in c + q;
      ReachArc(arcs, u, v);
      ReachTrans(arcs, start, u, v);
      assert c + (q + [v]) == (c + q) + [v];
      assert v !in c + q;
    }
  }

  method WidenAll(a: Graph, u: Node, seen0: set<Node>, q0: seq<Node>, ghost start: Node, ghost earlier: set<Node>, ghost c: seq<Node>)
    returns (seen: set<Node>, q: seq<Node>)
    requires Lists(a, Arcs(a)) && u in a && seen0 <= a.Keys
    requires Widening(Arcs(a), start, earlier, seen0, c, q0, u, {})
    ensures Collecting(Arcs(a), start, earlier, seen, c, q) && seen <= a.Keys
  {
    seen, q := seen0, q0;
    var todo := a[u];
    ghost var scanned: set<Node> := {};
    while todo != {}
      invariant todo + scanned == a[u] && seen <= a.Keys
      invariant Widening(Arcs(a), start, earlier, seen, c, q, u, scanned)
    {
      var v :| v in todo;
      todo := todo - {v};
      Widen(Arcs(a), start, earlier, seen, c, q, u, scanned, v);
      if v !in seen {
        seen, q := seen + {v}, q + [v];
      }
      scanned := scanned + {v};
    }
    forall x, v | (x, v) in Arcs(a) && x in c ensures v in seen {
      if x == u { assert v in Neighbours(Arcs(a), u); }
    }
  }

  lemma Collected(arcs: set<Arc>, start: Node, earlier: set<Node>, seen: set<Node>, c: seq<Node>)
    requires Symmetric(arcs) && ClosedUnder(arcs, earlier) && Collecting(arcs, start, earlier, seen, c, [])
    ensures ReachedFrom(arcs, start, NodeSet(c)) && Distinct(c) && start in c
    ensures seen == earlier + NodeSet(c) && ClosedUnder(arcs, seen)
  {
    assert c + [] == c;
    forall u, v | (u, v) in arcs && u in NodeSet(c) ensures v in NodeSet(c) {
      assert v in earlier ==> (v, u) in arcs;
    }
    forall v ensures v in NodeSet(c) <==> Reach(arcs, start, v) {
      if Reach(arcs, start, v) { ReachStays(arcs, NodeSet(c), start, v); }
    }
  }

  /** `while q`: the component of n. */
  method Component(a: Graph, n: Node, earlier: set<Node>) returns (seen: set<Node>, c: seq<Node>)
    requires Lists(a, Arcs(a)) && Symmetric(Arcs(a)) && ClosedUnder(Arcs(a), earlier)
    requires n in a && n !in earlier && earlier <= a.Keys
    ensures ReachedFrom(Arcs(a), n, NodeSet(c)) && Distinct(c)
    ensures seen == earlier + NodeSet(c) && seen <= a.Keys && ClosedUnder(Arcs(a), seen)
  {
    var q := [n];
    seen := earlier + {n};
    c := [];
    ReachRefl(Arcs(a), n);
    while q != []
      invariant Collecting(Arcs(a), n, earlier, seen, c, q) && seen <= a.Keys
      decreases a.Keys - NodeSet(c)
    {
      ghost var c0 := c;
      TakeLast(Arcs(a), n, earlier, seen, c, q);
      var u := q[|q|-1];
      q := q[..|q|-1];
      c := c + [u];
      assert u in c && u in NodeSet(c) && NodeSet(c0) <= NodeSet(c);
      assert u in seen && u !in NodeSet(c0);
      seen, q := WidenAll(a, u, seen, q, n, earlier, c);
    }
    Collected(Arcs(a), n, earlier, seen, c);
  }

  ghost function Sets(components: seq<seq<Node>>): (sets: seq<set<Node>>)
    ensures |sets| == |components|
    ensures forall i :: 0 <= i < |sets| ==> sets[i] == NodeSet(components[i])
  {
    seq(|components|, i requires 0 <= i < |components| => NodeSet(components[i]))
  }

  /** `components`: the classes of mutually reachable nodes, each listed once and without repetition. */
  method Components(a: Graph) returns (out: seq<seq<Node>>)
    requires Closed(a) && Symmetric(Arcs(a))
    ensures Partition(Arcs(a), a.Keys, Sets(out), {})
    ensures forall c :: c in out ==> Distinct(c)
  {
    var seen, todo := {}, a.Keys;
    out := [];
    GraphLists(a);
    while todo != {}
      invariant seen + todo == a.Keys && ClosedUnder(Arcs(a), seen)
      invariant Partition(Arcs(a), a.Keys, Sets(out), a.Keys - seen)
      invariant forall c :: c in out ==> Distinct(c)
    {
      var n :| n in todo;
      todo := todo - {n};
      if n !in seen {
        ghost var seen0 := seen;
        var c;
        seen, c := Component(a, n, seen);
        OneMoreComponent(Arcs(a), a.Keys, Sets(out), a.Keys - seen0, n, NodeSet(c));
        assert Sets(out + [c]) == Sets(out) + [NodeSet(c)];
        assert a.Keys - seen == a.Keys - seen0 - NodeSet(c);
        out := out + [c];
      }
    }
    assert a.Keys - seen == {};
  }

  // ---------------------------------------------------------------- shortest_paths

  /** `for v in a[u]` */
  method Label(a: Graph, u: Node, d0: map<Node, int>, q0: seq<Node>, ghost src: Node, ghost done: set<Node>)
    returns (d: map<Node, int>, q: seq<Node>)
    requires Lists(a, Arcs(a)) && u in a && Expanding(Arcs(a), src, d0, q0, done, u, {}) && d0.Keys <= a.Keys
    ensures Frontier(Arcs(a), src, d, q, done + {u}) && d.Keys <= a.Keys
  {
    d, q := d0, q0;
    var todo := a[u];
    ghost var scanned: set<Node> := {};
    while todo != {}
      invariant todo + scanned == a[u] && d.Keys <= a.Keys
      invariant Expanding(Arcs(a), src, d, q, done, u, scanned)
    {
      var v :| v in todo;
      todo := todo - {v};
      assert v in Neighbours(Arcs(a), u);
      if v !in d {
        Discover(Arcs(a), src, d, q, done, u, scanned, v);
        d, q := d[v := d[u] + 1], q + [v];
      }
      scanned := scanned + {v};
    }
    forall v | (u, v) in Arcs(a) ensures v in scanned {
      assert v in Neighbours(Arcs(a), u);
    }
    Expanded(Arcs(a), src, d, q, done, u, scanned);
  }

  /** `shortest_paths`: the hop distance of every reachable node. */
  method ShortestPaths(a: Graph, src: Node) returns (d: map<Node, int>)
    requires Closed(a) && src in a
    ensures forall v :: v in d <==> Reach(Arcs(a), src, v)
    ensures forall v :: v in d ==> Distance(Arcs(a), src, v, d[v])
  {
    d := map[src := 0];
    var q := [src];
    ghost var done: set<Node> := {};
    Start(Arcs(a), src);
    GraphLists(a);
    while q != []
      invariant Frontier(Arcs(a), src, d, q, done) && d.Keys <= a.Keys
      decreases a.Keys - done
    {
      var u := q[0];
      Pop(Arcs(a), src, d, q, done);
      assert u in a.Keys - done;
      d, q := Label(a, u, d, q[1..], src, done);
      done := done + {u};
    }
    Finished(Arcs(a), src, d, done);
  }

  // ---------------------------------------------------------------- against the first implementation

  /** A class of one partition of a graph is a class of every other. */
  lemma SameClass(arcs: set<Arc>, keys: set<Node>, some: seq<set<Node>>, others: seq<set<Node>>, c: set<Node>)
    requires Symmetric(arcs) && Partition(arcs, keys, some, {}) && Partition(arcs, keys, others, {}) && c in some
    ensures c in others
  {
    var i :| 0 <= i < |some| && some[i] == c;
    assert Listable(arcs, keys, {}, c);
    var start :| start in c && ReachedFrom(arcs, start, c);
    assert Covered(others, start);
    var j :| 0 <= j < |others| && start in others[j];
    assert Listable(arcs, keys, {}, others[j]);
    var first :| first in others[j] && ReachedFrom(arcs, first, others[j]);
    forall v ensures v in c <==> v in others[j] {
      ReachSym(arcs, first, start);
      if Reach(arcs, start, v) { ReachTrans(arcs, first, start, v); }
      if Reach(arcs, first, v) { ReachTrans(arcs, start, first, v); }
    }
    assert c == others[j];
  }

  ghost function Classes(components: seq<set<Node>>): set<set<Node>> {
    set c | c in components
  }

  lemma AllDifferent(arcs: set<Arc>, keys: set<Node>, components: seq<set<Node>>)
    requires Partition(arcs, keys, components, {})
    ensures |Classes(components)| == |components|
  {
    forall i, j | 0 <= i < j < |components| ensures components[i] != components[j] {
      assert Listable(arcs, keys, {}, components[i]);
      assert components[i] !! components[j];
    }
    DifferentSize(components, Classes(components));
  }

  /** Both implementations find the same components. */
  method BothComponents(nodes: seq<Node>, edges: seq<Arc>) returns (found: seq<set<Node>>, listed: seq<seq<Node>>)
    ensures Classes(found) == Classes(Sets(listed)) && |found| == |listed|
  {
    found := ConnectedComponents(nodes, edges);
    var a := Adjacency(nodes, edges, false);
    listed := Components(a);
    ghost var arcs, keys := Undirected(edges), a.Keys;
    forall c ensures c in Classes(found) <==> c in Classes(Sets(listed)) {
      if c in found { SameClass(arcs, keys, found, Sets(listed), c); }
      if c in Sets(listed) { SameClass(arcs, keys, Sets(listed), found, c); }
    }
    AllDifferent(arcs, keys, found);
    AllDifferent(arcs, keys, Sets(listed));
  }

  /** d is the greatest distance from a listed node to any node it reaches. */
  ghost predicate FarthestReached(nodes: seq<Node>, arcs: set<Arc>, d: int) {
    && (exists u, v :: u in nodes && Distance(arcs, u, v, d))
    && (forall u, v, e :: u in nodes && Distance(arcs, u, v, e) ==> e <= d)
  }

  /** max(shortest_paths(a, src).values()) */
  method Eccentricity(a: Graph, src: Node) returns (far: int)
    requires Closed(a) && src in a
    ensures FarthestReached([src], Arcs(a), far)
  {
    var d := ShortestPaths(a, src);
    ReachRefl(Arcs(a), src);
    far := d[src];
    var todo := d.Keys;
    ghost var at := src;
    while todo != {}
      invariant todo <= d.Keys && at in d && d[at] == far
      invariant forall v :: v in d && v !in todo ==> d[v] <= far
    {
      var v :| v in todo;
      todo := todo - {v};
      if d[v] > far {
        far, at := d[v], v;
      }
    }
    forall u, v, e | u in [src] && Distance(Arcs(a), u, v, e) ensures e <= far {
      DistanceReach(Arcs(a), src, v, e);
      DistanceUnique(Arcs(a), src, v, e, d[v]);
    }
    assert src in [src] && Distance(Arcs(a), src, at, far);
  }

  /** diameter_hops: the greatest distance between nodes that reach each other, 0 without nodes. */
  method DiameterHops(nodes: seq<Node>, edges: seq<Arc>) returns (hops: int)
    ensures if nodes == [] then hops == 0 else FarthestReached(nodes, Undirected(edges), hops)
  {
    var a := Adjacency(nodes, edges, false);
    hops := 0;
    for i := 0 to |nodes|
      invariant if i == 0 then hops == 0 else FarthestReached(nodes[..i], Arcs(a), hops)
    {
      assert nodes[i] in a by { assert nodes[i] in NodeSet(nodes); }
      var far := Eccentricity(a, nodes[i]);
      FartherOf(nodes[..i], nodes[i], Arcs(a), hops, far);
      assert nodes[..i+1] == nodes[..i] + [nodes[i]];
      hops := if i == 0 || far > hops then far else hops;
    }
    assert nodes[..|nodes|] == nodes;
  }

  lemma FartherOf(nodes: seq<Node>, n: Node, arcs: set<Arc>, d: int, far: int)
    requires (nodes == [] || FarthestReached(nodes, arcs, d)) && FarthestReached([n], arcs, far)
    ensures FarthestReached(nodes + [n], arcs, if nodes == [] || far > d then far else d)
  {
    var u, v :| u in [n] && Distance(arcs, u, v, far);
    assert u in nodes + [n];
    if nodes != [] {
      var x, y :| x in nodes && Distance(arcs, x, y, d);
      assert x in nodes + [n];
    }
    forall x, y, e | x in nodes + [n] && Distance(arcs, x, y, e) ensures e <= if nodes == [] || far > d then far else d {
      assert x in nodes || x in [n];
    }
  }

  /** Where the first implementation has a diameter, it is the same. */
  method BothDiameters(nodes: seq<Node>, edges: seq<Arc>) returns (first: Option<int>, hops: int)
    requires forall e :: e in edges ==> e.0 in nodes && e.1 in nodes
    ensures first.Some? ==> first.value == hops
  {
    first := AllPairsDiameter(nodes, edges);
    hops := DiameterHops(nodes, edges);
    if nodes != [] && first.Some? {
      SameDiameter(nodes, edges, first.value, hops);
    }
  }

  lemma SameDiameter(nodes: seq<Node>, edges: seq<Arc>, d: int, hops: int)
    requires forall e :: e in edges ==> e.0 in nodes && e.1 in nodes
    requires Greatest(nodes, Undirected(edges), d) && FarthestReached(nodes, Undirected(edges), hops)
    ensures d == hops
  {
    var arcs := Undirected(edges);
    var u, v :| u in nodes && v in nodes && Distance(arcs, u, v, d);
    var x, y :| x in nodes && Distance(arcs, x, y, hops);
    DistanceReach(arcs, x, y, hops);
    ReachStays(arcs, NodeSet(nodes), x, y);
  }
}
