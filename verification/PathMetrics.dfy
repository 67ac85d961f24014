/** The path counts of `topology_metrics` in netlab/topology.py. */
module PathMetrics {
  import opened Walks
  import opened EdgeDisjointPaths
  import opened NodeDisjointPaths

  /** The edges between listed nodes. */
  function Between(edges: seq<Arc>, nodes: seq<Node>): seq<Arc> {
    if edges == [] then []
    else
      var e := edges[|edges|-1];
      Between(edges[..|edges|-1], nodes) + (if e.0 in nodes && e.1 in nodes then [e] else [])
  }

  /** Every edge between listed nodes is kept as often as it is listed, and no other edge is kept. */
  lemma {:induction false} BetweenCounts(edges: seq<Arc>, nodes: seq<Node>, e: Arc)
    ensures multiset(Between(edges, nodes))[e] == if e.0 in nodes && e.1 in nodes then multiset(edges)[e] else 0
    decreases |edges|
  {
    if edges != [] {
      var n := |edges| - 1;
      BetweenCounts(edges[..n], nodes, e);
      assert edges == edges[..n] + [edges[n]];
    }
  }

  /** valid_edges */
  method ValidEdges(edges: seq<Arc>, nodes: seq<Node>) returns (kept: seq<Arc>)
    ensures kept == Between(edges, nodes) && |kept| <= |edges|
  {
    kept := [];
    for i := 0 to |edges|
      invariant kept == Between(edges[..i], nodes) && |kept| <= i
    {
      assert edges[..i+1][..i] == edges[..i];
      if edges[i].0 in nodes && edges[i].1 in nodes {
        kept := kept + [edges[i]];
      }
    }
    assert edges[..|edges|] == edges;
  }

  /** counts maps every sink to its edge connectivity. */
  ghost predicate EdgeCounted(edges: seq<Arc>, source: Node, sinks: set<Node>, counts: map<Node, int>) {
    counts.Keys == sinks && forall t :: t in counts ==> EdgeConnectivity(edges, source, t, counts[t])
  }

  ghost predicate NodeCounted(nodes: seq<Node>, edges: seq<Arc>, source: Node, sinks: set<Node>, counts: map<Node, int>) {
    counts.Keys == sinks && forall t :: t in counts ==> NodeConnectivity(nodes, edges, source, t, counts[t])
  }

  lemma OneMoreSink(sinks: seq<Node>, i: nat)
    requires i < |sinks|
    ensures NodeSet(sinks[..i+1]) == NodeSet(sinks[..i]) + {sinks[i]}
  {
    assert sinks[..i+1] == sinks[..i] + [sinks[i]];
  }

  /** edge_disjoint, every flow being granted a number of rounds: all are done unless the source is a sink. */
  method EdgeCounts(edges: seq<Arc>, source: Node, sinks: seq<Node>, rounds: nat) returns (done: bool, counts: map<Node, int>)
    ensures done ==> source !in sinks && EdgeCounted(edges, source, NodeSet(sinks), counts)
    ensures source !in sinks && rounds > |edges| ==> done
  {
    counts := map[];
    for i := 0 to |sinks|
      invariant source !in sinks[..i] && EdgeCounted(edges, source, NodeSet(sinks[..i]), counts)
    {
      var left, k := EdgeDisjointRounds(edges, source, sinks[i], rounds);
      if !left {
        return false, counts;
      }
      OneMoreSink(sinks, i);
      counts := counts[sinks[i] := k];
    }
    assert sinks[..|sinks|] == sinks;
    done := true;
  }

  /** node_disjoint */
  method NodeCounts(nodes: seq<Node>, edges: seq<Arc>, source: Node, sinks: seq<Node>) returns (counts: map<Node, int>)
    requires source !in sinks
    ensures NodeCounted(nodes, edges, source, NodeSet(sinks), counts)
  {
    counts := map[];
    for i := 0 to |sinks|
      invariant NodeCounted(nodes, edges, source, NodeSet(sinks[..i]), counts)
    {
      var k := NodeDisjointCount(nodes, edges, source, sinks[i]);
      OneMoreSink(sinks, i);
      counts := counts[sinks[i] := k];
    }
    assert sinks[..|sinks|] == sinks;
  }

  /** m is the least of the counts of some nodes, or 0 when there are none. */
  ghost predicate LeastOf(counts: map<Node, int>, some: set<Node>, m: int)
    requires some <= counts.Keys
  {
    if some == {} then m == 0
    else (exists t :: t in some && counts[t] == m) && forall t :: t in some ==> m <= counts[t]
  }

  ghost predicate LeastCount(counts: map<Node, int>, m: int) {
    LeastOf(counts, counts.Keys, m)
  }

  /** min(counts.values(), default=0) */
  method Least(counts: map<Node, int>) returns (m: int)
    ensures LeastCount(counts, m)
  {
    m := 0;
    var todo := counts.Keys;
    while todo != {}
      invariant todo <= counts.Keys && LeastOf(counts, counts.Keys - todo, m)
    {
      var t :| t in todo;
      ghost var some := counts.Keys - todo;
      assert counts.Keys - (todo - {t}) == some + {t};
      assert todo == counts.Keys <==> some == {};
      if todo == counts.Keys || counts[t] < m {
        m := counts[t];
      }
      todo := todo - {t};
    }
    assert counts.Keys - todo == counts.Keys;
  }

  /** Node-disjoint families being edge-disjoint, the least of all counts is the least of the node counts. */
  lemma NodesDecide(nodes: seq<Node>, edges: seq<Arc>, source: Node, sinks: set<Node>, edgeCounts: map<Node, int>,
                    nodeCounts: map<Node, int>, byEdge: int, byNode: int)
    requires EdgeCounted(edges, source, sinks, edgeCounts) && NodeCounted(nodes, edges, source, sinks, nodeCounts)
    requires LeastCount(edgeCounts, byEdge) && LeastCount(nodeCounts, byNode)
    ensures byNode <= byEdge
  {
    if sinks != {} {
      var t :| t in edgeCounts && edgeCounts[t] == byEdge;
      assert t in nodeCounts;
      NodeAtMostEdge(nodes, edges, source, t, nodeCounts[t], edgeCounts[t]);
    }
  }

  /** The path counts of `topology_metrics`. They are never finished when the source is among the sinks, and otherwise
      they are; the connectivity estimate is then the least node-disjoint count. */
  method PathCounts(nodes: seq<Node>, edges: seq<Arc>, source: Node, sinks: seq<Node>, rounds: nat)
    returns (done: bool, edgeDisjoint: map<Node, int>, nodeDisjoint: map<Node, int>, kConnectivity: int)
    ensures source in sinks ==> !done
    ensures source !in sinks && rounds > |edges| ==> done
    ensures done ==>
              && EdgeCounted(Between(edges, nodes), source, NodeSet(sinks), edgeDisjoint)
              && NodeCounted(nodes, Between(edges, nodes), source, NodeSet(sinks), nodeDisjoint)
              && LeastCount(nodeDisjoint, kConnectivity)
  {
    var kept := ValidEdges(edges, nodes);
    nodeDisjoint, kConnectivity := map[], 0;
    done, edgeDisjoint := EdgeCounts(kept, source, sinks, rounds);
    if !done {
      return;
    }
    nodeDisjoint := NodeCounts(nodes, kept, source, sinks);
    var byEdge := Least(edgeDisjoint);
    var byNode := Least(nodeDisjoint);
    NodesDecide(nodes, kept, source, NodeSet(sinks), edgeDisjoint, nodeDisjoint, byEdge, byNode);
    kConnectivity := if byEdge < byNode then byEdge else byNode;
  }
}
