/** `_brandes_betweenness` in netlab/topology.py, in exact arithmetic. */
module Betweenness {
  import opened Walks
  import opened RealSums
  import opened Distances
  import opened WalkCounts
  import opened BrandesForward
  import opened Dependencies
  import opened BrandesBackward
  import Adj = Adjacency

  // ---------------------------------------------------------------- the definition

  /** The hop distance from s to v. */
  ghost function HopCount(arcs: set<Arc>, s: Node, v: Node): int {
    if exists d :: Distance(arcs, s, v, d) then
      var d :| Distance(arcs, s, v, d);
      d
    else 0
  }

  /** The hop distances from s to the nodes reachable from it. */
  ghost function HopMap(nodes: set<Node>, arcs: set<Arc>, s: Node): map<Node, int> {
    map v | v in nodes && Reach(arcs, s, v) :: HopCount(arcs, s, v)
  }

  /** The sum, over the nodes t, of the fraction of shortest paths from s to t that pass through v. */
  ghost function SourceDependency(nodes: set<Node>, arcs: set<Arc>, s: Node, v: Node): real {
    DependencyOn(arcs, s, HopMap(nodes, arcs, s), v)
  }

  /** Freeman's betweenness of v over ordered pairs of ends, the first one taken from sources. */
  ghost function PathShare(nodes: set<Node>, arcs: set<Arc>, sources: set<Node>, v: Node): real {
    RealSum(sources - {v}, DependencyOfSource(nodes, arcs, v))
  }

  ghost function DependencyOfSource(nodes: set<Node>, arcs: set<Arc>, v: Node): Node -> real {
    s => SourceDependency(nodes, arcs, s, v)
  }

  lemma HopMapIs(nodes: set<Node>, arcs: set<Arc>, s: Node, dist: map<Node, int>)
    requires Hops(arcs, s, dist) && dist.Keys <= nodes
    ensures dist == HopMap(nodes, arcs, s)
  {
    forall v | v in dist ensures Reach(arcs, s, v) && dist[v] == HopCount(arcs, s, v) {
      assert HopsTo(arcs, s, dist, v);
      DistanceUnique(arcs, s, v, dist[v], HopCount(arcs, s, v));
    }
    forall v | v in nodes && Reach(arcs, s, v) ensures v in dist {
      assert HopsTo(arcs, s, dist, v);
    }
    assert dist.Keys == HopMap(nodes, arcs, s).Keys;
  }

  /** Nothing depends on a node that cannot be reached. */
  lemma OutsideIsFree(arcs: set<Arc>, s: Node, dist: map<Node, int>, v: Node)
    requires v !in dist
    ensures DependencyOn(arcs, s, dist, v) == 0.0
  {
    RealZero(dist.Keys - {v}, t => Share(arcs, s, dist, v, t));
  }

  // ---------------------------------------------------------------- the loop over the sources

  ghost predicate TotalAt(nodes: set<Node>, arcs: set<Arc>, sources: set<Node>, centrality: map<Node, real>, v: Node) {
    v in centrality && centrality[v] == PathShare(nodes, arcs, sources, v)
  }

  ghost predicate Totals(nodes: set<Node>, arcs: set<Arc>, sources: set<Node>, centrality: map<Node, real>) {
    && centrality.Keys == nodes
    && forall v {:trigger TotalAt(nodes, arcs, sources, centrality, v)} :: v in nodes ==> TotalAt(nodes, arcs, sources, centrality, v)
  }

  lemma OneMoreSource(nodes: set<Node>, arcs: set<Arc>, sources: set<Node>, before: map<Node, real>, after: map<Node, real>,
                      s: Node, dist: map<Node, int>)
    requires Totals(nodes, arcs, sources, before) && s !in sources
    requires Hops(arcs, s, dist) && dist.Keys <= nodes
    requires Credited(arcs, s, dist, before, after, dist.Keys)
    ensures Totals(nodes, arcs, sources + {s}, after)
  {
    HopMapIs(nodes, arcs, s, dist);
    forall v | v in nodes ensures TotalAt(nodes, arcs, sources + {s}, after, v) {
      assert TotalAt(nodes, arcs, sources, before, v);
      if v == s {
        assert sources + {s} - {v} == sources - {v};
      } else {
        RealTake(sources + {s} - {v}, DependencyOfSource(nodes, arcs, v), s);
        assert sources + {s} - {v} - {s} == sources - {v};
        if v !in dist { OutsideIsFree(arcs, s, dist, v); }
      }
    }
  }

  lemma NoSources(nodes: set<Node>, arcs: set<Arc>, centrality: map<Node, real>)
    requires centrality.Keys == nodes && forall v :: v in nodes ==> centrality[v] == 0.0
    ensures Totals(nodes, arcs, {}, centrality)
  {
    forall v | v in nodes ensures TotalAt(nodes, arcs, {}, centrality, v) {
      assert {} - {v} == {};
    }
  }

  /** The body of `for source in sources`. */
  method FromSource(graph: Graph, s: Node, centrality0: map<Node, real>, ghost sources: set<Node>)
    returns (centrality: map<Node, real>)
    requires Closed(graph) && s in graph && s !in sources
    requires Totals(graph.Keys, Arcs(graph), sources, centrality0)
    ensures Totals(graph.Keys, Arcs(graph), sources + {s}, centrality)
  {
    var stack, predecessors, sigma, distance := ForwardPass(graph, s);
    ghost var dist := Known(distance);
    ForwardHops(Arcs(graph), s, dist, stack, sigma, predecessors);
    WithinGraph(graph, s, dist);
    var dependency;
    centrality, dependency := BackwardPass(graph.Keys, s, stack, predecessors, sigma, centrality0, Arcs(graph), dist);
    OneMoreSource(graph.Keys, Arcs(graph), sources, centrality0, centrality, s, dist);
  }

  lemma WithinGraph(graph: Graph, s: Node, dist: map<Node, int>)
    requires Closed(graph) && s in graph && Hops(Arcs(graph), s, dist)
    ensures dist.Keys <= graph.Keys
  {
    forall v | v in dist ensures v in graph {
      assert HopsTo(Arcs(graph), s, dist, v);
      ReachStays(Arcs(graph), graph.Keys, s, v);
    }
  }

  /** Unordered pairs are counted from both ends, and there are (n - 1) (n - 2) / 2 of them beside a node. */
  function Scale(nodes: nat, sources: nat): real {
    var correction := if sources > 0 then nodes as real / sources as real else 1.0;
    var scale := 0.5 * correction;
    if nodes > 2 then scale / PairCount(nodes) else scale
  }

  /** The number of unordered pairs of other nodes. */
  function PairCount(nodes: nat): (pairs: real)
    requires nodes > 2
    ensures pairs > 0.0
  {
    PositiveProduct(nodes - 1, nodes - 2);
    ((nodes - 1) * (nodes - 2)) as real / 2.0
  }

  lemma PositiveProduct(a: nat, b: nat)
    requires a > 0 && b > 0
    ensures a * b > 0
  {
  }

  /** `for source in sources` */
  method FromAllSources(graph: Graph, sources: seq<Node>) returns (centrality: map<Node, real>)
    requires Closed(graph) && Distinct(sources) && NodeSet(sources) <= graph.Keys
    ensures Totals(graph.Keys, Arcs(graph), NodeSet(sources), centrality)
  {
    centrality := map n | n in graph.Keys :: 0.0;
    NoSources(graph.Keys, Arcs(graph), centrality);
    var i := 0;
    assert NodeSet(sources[..0]) == {};
    while i < |sources|
      invariant 0 <= i <= |sources|
      invariant Totals(graph.Keys, Arcs(graph), NodeSet(sources[..i]), centrality)
    {
      NextSource(sources, i);
      centrality := FromSource(graph, sources[i], centrality, NodeSet(sources[..i]));
      i := i + 1;
    }
    assert sources[..i] == sources;
  }

  /** `{node: value * scale for node, value in centrality.items()}` */
  function Rescale(centrality: map<Node, real>, scale: real): map<Node, real> {
    map n | n in centrality.Keys :: centrality[n] * scale
  }

  /** result is the betweenness of every node, times scale. */
  ghost predicate Betweennesses(nodes: set<Node>, arcs: set<Arc>, sources: set<Node>, scale: real, result: map<Node, real>) {
    && result.Keys == nodes
    && forall v :: v in nodes ==> result[v] == PathShare(nodes, arcs, sources, v) * scale
  }

  /** The scale in numbers: of the (nodes - 1) (nodes - 2) ordered pairs of other nodes, for each of the nodes instead of
      the sources. */
  lemma ScaleInNumbers(nodes: nat, sources: nat, share: real)
    requires nodes > 2 && sources > 0
    ensures share * Scale(nodes, sources) * ((nodes - 1) as real * (nodes - 2) as real * sources as real) == share * nodes as real
  {
    ProductAsReal(nodes - 1, nodes - 2);
    var half, scale := PairCount(nodes), Scale(nodes, sources);
    assert 2.0 * half == (nodes - 1) as real * (nodes - 2) as real;
    ScaleOfPairs(nodes as real, sources as real, half);
    Regroup(share, scale, 2.0 * half * sources as real);
  }

  lemma Regroup(a: real, b: real, c: real)
    ensures a * b * c == a * (b * c)
  {
  }

  /** The result is the path share of every node, in proportion to the pairs of other nodes and the sources taken. */
  ghost predicate InProportion(nodes: seq<Node>, arcs: set<Arc>, sources: seq<Node>, result: map<Node, real>) {
    var n, m := |nodes|, |sources|;
    && result.Keys == NodeSet(nodes)
    && (n > 2 && m > 0 ==> forall v :: v in result ==>
          result[v] * ((n - 1) as real * (n - 2) as real * m as real) == PathShare(NodeSet(nodes), arcs, NodeSet(sources), v) * n as real)
  }

  lemma BetweennessesInProportion(nodes: seq<Node>, arcs: set<Arc>, sources: seq<Node>, result: map<Node, real>)
    requires Betweennesses(NodeSet(nodes), arcs, NodeSet(sources), Scale(|nodes|, |sources|), result)
    ensures InProportion(nodes, arcs, sources, result)
  {
    hide PathShare, Scale;
    if |nodes| > 2 && |sources| > 0 {
      var n, m := |nodes|, |sources|;
      forall v | v in result
        ensures result[v] * ((n - 1) as real * (n - 2) as real * m as real) == PathShare(NodeSet(nodes), arcs, NodeSet(sources), v) * n as real
      {
        ScaleInNumbers(n, m, PathShare(NodeSet(nodes), arcs, NodeSet(sources), v));
      }
    }
  }

  /** The sources are all nodes in the exact method, a sample of them otherwise. */
  method BrandesBetweenness(nodes: seq<Node>, edges: seq<Arc>, sources: seq<Node>) returns (result: map<Node, real>)
    requires Distinct(sources) && NodeSet(sources) <= NodeSet(nodes) && Adj.Ends(edges) <= NodeSet(nodes)
    ensures Betweennesses(NodeSet(nodes), Undirected(edges), NodeSet(sources), Scale(|nodes|, |sources|), result)
    ensures InProportion(nodes, Undirected(edges), sources, result)
  {
    hide PathShare, Scale, InProportion;
    var graph := Adj.Adjacency(nodes, edges, false);
    var centrality := FromAllSources(graph, sources);
    result := Rescale(centrality, Scale(|nodes|, |sources|));
    assert graph.Keys == NodeSet(nodes);
    Scaled(NodeSet(nodes), Undirected(edges), NodeSet(sources), centrality, Scale(|nodes|, |sources|));
    BetweennessesInProportion(nodes, Undirected(edges), sources, result);
  }

  lemma SameProduct(a: real, b: real, c: real)
    requires a == b
    ensures a * c == b * c
  {
  }

  lemma Scaled(nodes: set<Node>, arcs: set<Arc>, sources: set<Node>, centrality: map<Node, real>, scale: real)
    requires Totals(nodes, arcs, sources, centrality)
    ensures Betweennesses(nodes, arcs, sources, scale, Rescale(centrality, scale))
  {
    forall v | v in nodes ensures Rescale(centrality, scale)[v] == PathShare(nodes, arcs, sources, v) * scale {
      assert TotalAt(nodes, arcs, sources, centrality, v);
      SameProduct(centrality[v], PathShare(nodes, arcs, sources, v), scale);
    }
  }

  lemma NextSource(sources: seq<Node>, i: nat)
    requires i < |sources| && Distinct(sources)
    ensures sources[i] !in NodeSet(sources[..i])
    ensures NodeSet(sources[..i+1]) == NodeSet(sources[..i]) + {sources[i]}
    ensures sources[i] in NodeSet(sources)
  {
    assert sources[..i+1] == sources[..i] + [sources[i]];
  }

  // ---------------------------------------------------------------- normalisation

  lemma ShareBounds(arcs: set<Arc>, s: Node, dist: map<Node, int>, v: Node, t: Node)
    ensures 0.0 <= Share(arcs, s, dist, v, t) <= 1.0
  {
    if v in dist && t in dist && 0 <= dist[v] <= dist[t] && Sigma(arcs, s, dist, t) > 0.0 {
      var through, all := WalksThrough(arcs, s, v, t, dist[v], dist[t] - dist[v]), WalksOf(arcs, s, t, dist[t]);
      SubsetSize(through, all);
      Ratio(|through| as real, |all| as real);
    }
  }

  lemma Ratio(a: real, b: real)
    requires 0.0 <= a <= b && b > 0.0
    ensures 0.0 <= a / b <= 1.0
  {
  }

  lemma {:induction false} RealBounds(s: set<Node>, f: Node -> real, top: real)
    requires forall x :: x in s ==> 0.0 <= f(x) <= top
    ensures 0.0 <= RealSum(s, f) <= |s| as real * top
    decreases |s|
  {
    if s != {} {
      var x :| x in s;
      hide RealSum;
      RealTake(s, f, x);
      RealBounds(s - {x}, f, top);
      assert |s| == |s - {x}| + 1;
      OneMoreBound(f(x), RealSum(s - {x}, f), |s - {x}|, top);
    }
  }

  lemma OneMoreBound(a: real, b: real, n: nat, top: real)
    requires 0.0 <= a <= top && 0.0 <= b <= n as real * top
    ensures 0.0 <= a + b <= (n + 1) as real * top
  {
    Distribute(top, 1.0, n as real);
  }

  /** No shortest path ends at the source and passes another node. */
  lemma DependencyBounds(nodes: set<Node>, arcs: set<Arc>, s: Node, v: Node)
    requires s in nodes && v in nodes && s != v
    ensures 0.0 <= SourceDependency(nodes, arcs, s, v) <= (|nodes| - 2) as real
  {
    hide RealSum, Share;
    var dist := HopMap(nodes, arcs, s);
    var others := dist.Keys - {v};
    var share := t => Share(arcs, s, dist, v, t);
    forall t ensures 0.0 <= share(t) <= 1.0 {
      ShareBounds(arcs, s, dist, v, t);
    }
    ReachRefl(arcs, s);
    RealTake(others, share, s);
    SourceShare(nodes, arcs, s, v);
    RealBounds(others - {s}, share, 1.0);
    SubsetSize(others - {s}, nodes - {v} - {s});
  }

  lemma SourceShare(nodes: set<Node>, arcs: set<Arc>, s: Node, v: Node)
    requires s in nodes && v in nodes && s != v
    ensures Share(arcs, s, HopMap(nodes, arcs, s), v, s) == 0.0
  {
    var dist := HopMap(nodes, arcs, s);
    if v in dist && s in dist && 0 <= dist[v] <= dist[s] && Sigma(arcs, s, dist, s) > 0.0 {
      assert Distance(arcs, s, s, 0) by {
        assert Walk(arcs, s, s, [s]);
      }
      DistanceUnique(arcs, s, s, 0, HopCount(arcs, s, s));
      assert WalksOf(arcs, s, s, 0) == {[s]};
      assert WalksThrough(arcs, s, v, s, 0, 0) == {};
    }
  }

  ghost predicate SourceBounded(nodes: set<Node>, arcs: set<Arc>, v: Node, s: Node, top: real) {
    0.0 <= SourceDependency(nodes, arcs, s, v) <= top
  }

  lemma BoundedSources(nodes: set<Node>, arcs: set<Arc>, v: Node, sources: set<Node>, top: real)
    requires forall s :: s in sources - {v} ==> SourceBounded(nodes, arcs, v, s, top)
    ensures 0.0 <= PathShare(nodes, arcs, sources, v) <= |sources - {v}| as real * top
  {
    RealBounds(sources - {v}, DependencyOfSource(nodes, arcs, v), top);
  }

  lemma SourceIsBounded(nodes: set<Node>, arcs: set<Arc>, v: Node, s: Node, top: real)
    requires s in nodes && v in nodes && s != v && top == (|nodes| - 2) as real
    ensures SourceBounded(nodes, arcs, v, s, top)
  {
    DependencyBounds(nodes, arcs, s, v);
  }

  lemma AllSourcesBounded(nodes: set<Node>, arcs: set<Arc>, v: Node, top: real)
    requires v in nodes && top == (|nodes| - 2) as real
    ensures forall s :: s in nodes - {v} ==> SourceBounded(nodes, arcs, v, s, top)
  {
    forall s | s in nodes - {v} ensures SourceBounded(nodes, arcs, v, s, top) {
      SourceIsBounded(nodes, arcs, v, s, top);
    }
  }

  lemma PathShareBounds(nodes: set<Node>, arcs: set<Arc>, v: Node, top: real)
    requires v in nodes && top == (|nodes| - 2) as real
    ensures 0.0 <= PathShare(nodes, arcs, nodes, v) <= |nodes - {v}| as real * top
  {
    AllSourcesBounded(nodes, arcs, v, top);
    BoundedSources(nodes, arcs, v, nodes, top);
  }

  /** The scale of the exact centrality. */
  lemma ScaleIs(n: nat)
    requires n > 2
    ensures Scale(n, n) > 0.0 && (n - 1) as real * (n - 2) as real * Scale(n, n) == 1.0
  {
    ProductAsReal(n - 1, n - 2);
    ScaleOfPairs(n as real, n as real, PairCount(n));
  }

  lemma ScaleOfPairs(n: real, m: real, half: real)
    requires n > 0.0 && m > 0.0 && half > 0.0
    ensures n == m ==> 0.5 * (n / m) / half > 0.0 && (2.0 * half) * (0.5 * (n / m) / half) == 1.0
    ensures 0.5 * (n / m) / half * (2.0 * half * m) == n
  {
    var c := n / m;
    assert c * m == n;
    var d := 0.5 * c / half;
    assert d * half == 0.5 * c;
    assert d * (2.0 * half * m) == 2.0 * (d * half) * m;
    if n == m {
      assert c == 1.0;
      assert half * (0.5 / half) == 0.5;
    }
  }

  lemma WithinScale(total: real, top: real, scale: real)
    requires 0.0 <= total <= top && scale > 0.0 && top * scale == 1.0
    ensures 0.0 <= total * scale <= 1.0
  {
  }

  lemma PathShareWithin(nodes: set<Node>, arcs: set<Arc>, v: Node, limit: real)
    requires v in nodes && limit == (|nodes| - 1) as real * (|nodes| - 2) as real
    ensures 0.0 <= PathShare(nodes, arcs, nodes, v) <= limit
  {
    hide PathShare;
    PathShareBounds(nodes, arcs, v, (|nodes| - 2) as real);
    assert |nodes - {v}| == |nodes| - 1;
  }

  /** The exact centrality of a node lies between 0 and 1. */
  lemma CentralityInUnitRange(nodes: set<Node>, arcs: set<Arc>, v: Node)
    requires v in nodes && |nodes| > 2
    ensures 0.0 <= PathShare(nodes, arcs, nodes, v) * Scale(|nodes|, |nodes|) <= 1.0
  {
    var limit := (|nodes| - 1) as real * (|nodes| - 2) as real;
    PathShareWithin(nodes, arcs, v, limit);
    ScaleIs(|nodes|);
    WithinScale(PathShare(nodes, arcs, nodes, v), limit, Scale(|nodes|, |nodes|));
  }
}
