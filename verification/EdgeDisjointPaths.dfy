/** `_edge_disjoint_count` of netlab/topology.py: Menger's theorem for a list of directed edges. */
module EdgeDisjointPaths {
  import opened Walks
  import opened Sums
  import opened Flows
  import opened PathFlows

  /** Walks from s to t that use no edge occurrence twice; parallel list entries count separately. */
  ghost predicate EdgeDisjoint(edges: seq<Arc>, s: Node, t: Node, ps: seq<seq<Node>>) {
    && (forall i :: 0 <= i < |ps| ==> Walk(EdgeSet(edges), s, t, ps[i]))
    && AllArcs(ps) <= multiset(edges)
  }

  /** Without the edge occurrences in cut, t cannot be reached from s. */
  ghost predicate Blocks(edges: seq<Arc>, cut: set<nat>, s: Node, t: Node) {
    && (forall i :: i in cut ==> i < |edges|)
    && !Reach(set i | 0 <= i < |edges| && i !in cut :: edges[i], s, t)
  }

  ghost function Occurrences(edges: seq<Arc>, u: Node, v: Node): int {
    multiset(edges)[(u, v)]
  }

  /** c[u][v] counts the list entries (u, v). */
  ghost predicate Counts(c: Network, edges: seq<Arc>) {
    forall u, v :: Get(c, u, v) == Occurrences(edges, u, v)
  }

  ghost function CrossingIndices(edges: seq<Arc>, side: set<Node>): set<nat> {
    set i: nat | 0 <= i < |edges| && edges[i].0 in side && edges[i].1 !in side
  }

  /** One more entry adds one to a crossing sum exactly when it crosses. */
  lemma CrossingStep(edges: seq<Arc>, side: set<Node>, rest: set<Node>)
    requires edges != [] && side !! rest
    ensures Sum(side, u => Sum(rest, v => Occurrences(edges, u, v)))
         == Sum(side, u => Sum(rest, v => Occurrences(edges[..|edges|-1], u, v)))
          + One(edges[|edges|-1].0 in side && edges[|edges|-1].1 in rest)
  {
    var (a, b) := edges[|edges|-1];
    var init := edges[..|edges|-1];
    assert edges == init + [(a, b)];
    forall u, v ensures Occurrences(edges, u, v) == Occurrences(init, u, v) + One(u == a && v == b) {
    }
    forall u | u in side
      ensures Sum(rest, v => Occurrences(edges, u, v))
           == Sum(rest, v => Occurrences(init, u, v)) + One(u == a && b in rest)
    {
      SumChange(rest, v => Occurrences(init, u, v), v => Occurrences(edges, u, v), b);
    }
    SumChange(side, u => Sum(rest, v => Occurrences(init, u, v)), u => Sum(rest, v => Occurrences(edges, u, v)), a);
  }

  /** The capacity of a cut is the number of list entries that cross it. */
  lemma {:induction false} CrossingCount(edges: seq<Arc>, side: set<Node>, rest: set<Node>)
    requires side !! rest
    requires forall e :: e in edges ==> e.1 in side || e.1 in rest
    ensures Sum(side, u => Sum(rest, v => Occurrences(edges, u, v))) == |CrossingIndices(edges, side)|
    decreases |edges|
  {
    if edges == [] {
      forall u | u in side ensures Sum(rest, v => Occurrences(edges, u, v)) == 0 {
        SumSame(rest, v => Occurrences(edges, u, v), v => 0);
        SumZero(rest);
      }
      SumSame(side, u => Sum(rest, v => Occurrences(edges, u, v)), u => 0);
      SumZero(side);
      assert CrossingIndices(edges, side) == {};
    } else {
      var last := edges[|edges|-1];
      CrossingStep(edges, side, rest);
      CrossingCount(edges[..|edges|-1], side, rest);
      CrossingIndicesStep(edges, side);
      assert last in edges;
    }
  }

  lemma CrossingIndicesStep(edges: seq<Arc>, side: set<Node>)
    requires edges != []
    ensures |CrossingIndices(edges, side)|
         == |CrossingIndices(edges[..|edges|-1], side)|
          + One(edges[|edges|-1].0 in side && edges[|edges|-1].1 !in side)
  {
    var n := |edges| - 1;
    var fewer := CrossingIndices(edges[..n], side);
    if edges[n].0 in side && edges[n].1 !in side {
      assert CrossingIndices(edges, side) == fewer + {n};
    } else {
      assert CrossingIndices(edges, side) == fewer;
    }
  }

  /** A cut of the counting network is a blocking set of edge occurrences of the same size. */
  lemma CutBlocks(c: Network, edges: seq<Arc>, s: Node, t: Node, side: set<Node>, k: int)
    requires Counts(c, edges) && CutOfCapacity(c, s, t, side, k)
    ensures |CrossingIndices(edges, side)| == k && Blocks(edges, CrossingIndices(edges, side), s, t)
  {
    var vs := Vertices(c) + {s, t};
    var cut := CrossingIndices(edges, side);
    forall e | e in edges ensures e.1 in side || e.1 in vs - side {
      assert Occurrences(edges, e.0, e.1) > 0;
      assert Get(c, e.0, e.1) > 0;
    }
    CrossingCount(edges, side, vs - side);
    forall u | u in side ensures Sum(vs - side, v => Get(c, u, v)) == Sum(vs - side, v => Occurrences(edges, u, v)) {
      SumSame(vs - side, v => Get(c, u, v), v => Occurrences(edges, u, v));
    }
    SumSame(side, u => Sum(vs - side, v => Get(c, u, v)), u => Sum(vs - side, v => Occurrences(edges, u, v)));
    var left := set i | 0 <= i < |edges| && i !in cut :: edges[i];
    if Reach(left, s, t) {
      ReachStays(left, side, s, t);
    }
  }

  /** Every blocking set of occurrences is at least as large as the value of any flow: what is still reachable from s
      without them is one side of a cut that only they cross. */
  lemma BlocksBoundFlow(c: Network, edges: seq<Arc>, s: Node, t: Node, f: Network, k: int, cut: set<nat>)
    requires s != t && Counts(c, edges) && FlowOfValue(c, s, t, f, k) && Blocks(edges, cut, s, t)
    ensures k <= |cut|
  {
    var left := set i | 0 <= i < |edges| && i !in cut :: edges[i];
    var vs := Vertices(c) + {s, t};
    var side := set v | v in vs && Reach(left, s, v);
    ReachRefl(left, s);
    var m := Crossing(c, side, vs - side);
    assert CutOfCapacity(c, s, t, side, m);
    WeakDuality(c, s, t, f, k, side, m);
    CutBlocks(c, edges, s, t, side, m);
    forall i | i in CrossingIndices(edges, side) ensures i in cut {
      var (u, v) := edges[i];
      assert (u, v) in edges && Get(c, u, v) == Occurrences(edges, u, v) > 0;
      if i !in cut {
        assert (u, v) in left;
        ReachArc(left, u, v);
        ReachTrans(left, s, u, v);
      }
    }
    SubsetSize(CrossingIndices(edges, side), cut);
  }

  /** Edge-disjoint families of the list are exactly the path families that fit its counting network. */
  lemma FamiliesFit(c: Network, edges: seq<Arc>, s: Node, t: Node, ps: seq<seq<Node>>)
    requires Counts(c, edges)
    ensures Support(c) == EdgeSet(edges)
    ensures EdgeDisjoint(edges, s, t, ps) <==>
              && (forall i :: 0 <= i < |ps| ==> Walk(Support(c), s, t, ps[i]))
              && (forall u, v :: AllUses(ps, u, v) <= Get(c, u, v))
  {
    forall a: Arc ensures a in Support(c) <==> a in EdgeSet(edges) {
      SupportGet(c, a.0, a.1);
      assert Get(c, a.0, a.1) == Occurrences(edges, a.0, a.1);
    }
    if forall u, v :: AllUses(ps, u, v) <= Get(c, u, v) {
      forall a: Arc ensures AllArcs(ps)[a] <= multiset(edges)[a] {
        assert AllUses(ps, a.0, a.1) <= Get(c, a.0, a.1) == Occurrences(edges, a.0, a.1);
      }
    }
    if AllArcs(ps) <= multiset(edges) {
      forall u, v ensures AllUses(ps, u, v) <= Get(c, u, v) {
        assert Get(c, u, v) == Occurrences(edges, u, v);
      }
    }
  }

  method CountingNetwork(edges: seq<Arc>) returns (capacity: Network)
    ensures Counts(capacity, edges)
  {
    capacity := map[];
    for i := 0 to |edges|
      invariant Counts(capacity, edges[..i])
    {
      var (src, dst) := edges[i];
      assert edges[..i+1] == edges[..i] + [edges[i]];
      forall u, v ensures Occurrences(edges[..i+1], u, v) == Occurrences(edges[..i], u, v) + One(u == src && v == dst) {
      }
      capacity := Put(capacity, src, dst, Get(capacity, src, dst) + 1);
    }
    assert edges[..|edges|] == edges;
  }

  /** k is the size of a largest edge-disjoint family, and of a smallest set of occurrences whose loss cuts t off. */
  ghost predicate EdgeConnectivity(edges: seq<Arc>, s: Node, t: Node, k: int) {
    && (exists ps :: |ps| == k && EdgeDisjoint(edges, s, t, ps))
    && (forall ps :: EdgeDisjoint(edges, s, t, ps) ==> |ps| <= k)
    && (exists cut :: |cut| == k && Blocks(edges, cut, s, t))
    && (forall cut :: Blocks(edges, cut, s, t) ==> k <= |cut|)
  }

  /** `_edge_disjoint_count`: Menger's theorem for the edge list. */
  method EdgeDisjointCount(edges: seq<Arc>, source: Node, sink: Node) returns (k: int)
    requires source != sink
    ensures EdgeConnectivity(edges, source, sink, k)
  {
    var capacity := CountingNetwork(edges);
    forall u, v ensures Get(capacity, u, v) >= 0 {
      assert Get(capacity, u, v) == Occurrences(edges, u, v);
    }
    k := MaxFlow(capacity, source, sink);
    MengerForEdges(capacity, edges, source, sink, k);
  }

  lemma {:induction false} CrossingAtMost(edges: seq<Arc>, side: set<Node>)
    ensures |CrossingIndices(edges, side)| <= |edges|
    decreases |edges|
  {
    if edges == [] {
      assert CrossingIndices(edges, side) == {};
    } else {
      CrossingIndicesStep(edges, side);
      CrossingAtMost(edges[..|edges|-1], side);
    }
  }

  /** The first rounds of `_edge_disjoint_count`: with equal ends it does not return, whatever their number; with
      different ends it does as soon as there are more rounds than edges. */
  method EdgeDisjointRounds(edges: seq<Arc>, source: Node, sink: Node, rounds: nat) returns (left: bool, k: int)
    ensures left ==> source != sink && EdgeConnectivity(edges, source, sink, k)
    ensures source != sink && rounds > |edges| ==> left
  {
    var capacity := CountingNetwork(edges);
    forall u, v ensures Get(capacity, u, v) >= 0 {
      assert Get(capacity, u, v) == Occurrences(edges, u, v);
    }
    left, k := MaxFlowRounds(capacity, source, sink, rounds);
    if source != sink {
      ghost var side := {source};
      ghost var around := Crossing(capacity, side, Vertices(capacity) + {source, sink} - side);
      assert CutOfCapacity(capacity, source, sink, side, around);
      CutBlocks(capacity, edges, source, sink, side, around);
      CrossingAtMost(edges, side);
    }
    if left {
      MengerForEdges(capacity, edges, source, sink, k);
    }
  }

  lemma MengerForEdges(c: Network, edges: seq<Arc>, s: Node, t: Node, k: int)
    requires s != t && Counts(c, edges)
    requires exists f :: FlowOfValue(c, s, t, f, k)
    requires exists side :: CutOfCapacity(c, s, t, side, k)
    ensures EdgeConnectivity(edges, s, t, k)
  {
    var f :| FlowOfValue(c, s, t, f, k);
    var side :| CutOfCapacity(c, s, t, side, k);
    CutBlocks(c, edges, s, t, side, k);
    var ps := Decompose(c, s, t, f, k);
    forall a | a in Support(f) ensures a in Support(c) {
      assert Get(f, a.0, a.1) <= Get(c, a.0, a.1);
    }
    forall u, v ensures AllUses(ps, u, v) <= Get(c, u, v) {
      assert AllUses(ps, u, v) <= Get(f, u, v) <= Get(c, u, v);
    }
    FamiliesFit(c, edges, s, t, ps);
    forall qs | EdgeDisjoint(edges, s, t, qs) ensures |qs| <= k {
      FamiliesFit(c, edges, s, t, qs);
      FamilyAtMostMaxFlow(c, s, t, qs, k);
    }
    forall cut | Blocks(edges, cut, s, t) ensures k <= |cut| {
      BlocksBoundFlow(c, edges, s, t, f, k, cut);
    }
  }
}
