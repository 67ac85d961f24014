/** Over all nodes, the dependencies of one source add up to the hop distances from it. */
module DependencyTotals {
  import opened Walks
  import opened Sums
  import opened RealSums
  import opened WalkCounts
  import opened BrandesForward
  import opened Dependencies
  import Transfers

  /** A shortest path to w comes from a node that feeds w. */
  lemma PathsByFeeding(arcs: set<Arc>, s: Node, dist: map<Node, int>, w: Node)
    requires Hops(arcs, s, dist) && w in dist && w != s
    ensures Paths(arcs, s, dist, w) == Sum(Feeding(arcs, dist, w), v => Paths(arcs, s, dist, v))
  {
    SigmaPositive(arcs, s, dist, w);
    FarFromSource(arcs, s, dist, w);
    var d := dist[w];
    var feeding, all := Feeding(arcs, dist, w), Predecessors(arcs, w);
    var count := u => Count(arcs, s, u, d - 1);
    CountByLastHop(arcs, s, w, d - 1);
    SumSame(all, u => Count(arcs, s, u, d - 1), count);
    SumSplit(all, feeding, count);
    forall u | u in all - feeding ensures count(u) == 0 {
      NoPathVia(arcs, s, dist, u, w);
    }
    SumSame(all - feeding, count, u => 0);
    SumZero(all - feeding);
    SumSame(feeding, count, u => Paths(arcs, s, dist, u));
  }

  lemma FarFromSource(arcs: set<Arc>, s: Node, dist: map<Node, int>, w: Node)
    requires Hops(arcs, s, dist) && w in dist && w != s
    ensures dist[w] >= 1
  {
    assert HopsTo(arcs, s, dist, w);
    var p :| Walk(arcs, s, w, p) && |p| == dist[w] + 1;
    assert p[0] == s && p[|p|-1] == w;
  }

  lemma NoPathVia(arcs: set<Arc>, s: Node, dist: map<Node, int>, u: Node, w: Node)
    requires Hops(arcs, s, dist) && w in dist && dist[w] >= 1
    requires (u, w) in arcs && u !in Feeding(arcs, dist, w)
    ensures Count(arcs, s, u, dist[w] - 1) == 0
  {
    assert HopsTo(arcs, s, dist, u) && HopsTo(arcs, s, dist, w);
    forall p | Walk(arcs, s, u, p) ensures |p| != dist[w] {
      WalkSnoc(arcs, s, u, w, p);
      assert Reach(arcs, s, u);
      if dist[u] < dist[w] - 1 {
        var q :| Walk(arcs, s, u, q) && |q| == dist[u] + 1;
        WalkSnoc(arcs, s, u, w, q);
      }
    }
    NoWalkNoCount(arcs, s, u, dist[w] - 1);
  }

  /** (1 + dependency) of w, per shortest path to w. */
  ghost function PerPath(arcs: set<Arc>, s: Node, dist: map<Node, int>, w: Node): real {
    if Sigma(arcs, s, dist, w) > 0.0 then (1.0 + DependencyOn(arcs, s, dist, w)) / Sigma(arcs, s, dist, w) else 0.0
  }

  lemma ReceivedIs(arcs: set<Arc>, s: Node, dist: map<Node, int>, v: Node, w: Node)
    requires Hops(arcs, s, dist) && w in dist
    ensures Received(arcs, s, dist, v, w) == PerPath(arcs, s, dist, w) * Sigma(arcs, s, dist, v)
  {
    SigmaPositive(arcs, s, dist, w);
    Regroup(Sigma(arcs, s, dist, v), Sigma(arcs, s, dist, w), 1.0 + DependencyOn(arcs, s, dist, w));
  }

  lemma Regroup(a: real, b: real, c: real)
    requires b > 0.0
    ensures a / b * c == c / b * a
  {
  }

  lemma Cancel(a: real, b: real)
    requires b > 0.0
    ensures a / b * b == a
  {
  }

  ghost function ReceivedOf(arcs: set<Arc>, s: Node, dist: map<Node, int>): (Node, Node) -> real {
    (v, w) => Received(arcs, s, dist, v, w)
  }

  ghost function DependencyOf(arcs: set<Arc>, s: Node, dist: map<Node, int>): Node -> real {
    v => DependencyOn(arcs, s, dist, v)
  }

  ghost function FeedingOf(arcs: set<Arc>, dist: map<Node, int>): Node -> set<Node> {
    w => Feeding(arcs, dist, w)
  }

  lemma SigmaByFeeding(arcs: set<Arc>, s: Node, dist: map<Node, int>, w: Node)
    requires Hops(arcs, s, dist) && w in dist && w != s
    ensures RealSum(FeedingOf(arcs, dist)(w), SigmaOf(arcs, s, dist)) == SigmaOf(arcs, s, dist)(w)
  {
    PathsByFeeding(arcs, s, dist, w);
    SumAsReal(Feeding(arcs, dist, w), v => Paths(arcs, s, dist, v), SigmaOf(arcs, s, dist));
  }

  lemma ReceivedPerPath(arcs: set<Arc>, s: Node, dist: map<Node, int>, w: Node) returns (x: real)
    requires Hops(arcs, s, dist) && w in dist
    ensures x * SigmaOf(arcs, s, dist)(w) == 1.0 + DependencyOf(arcs, s, dist)(w)
    ensures Transfers.AllScale(SigmaOf(arcs, s, dist), ReceivedOf(arcs, s, dist), w, x)
  {
    hide DependencyOn, Sigma;
    x := PerPath(arcs, s, dist, w);
    SigmaPositive(arcs, s, dist, w);
    Cancel(1.0 + DependencyOn(arcs, s, dist, w), Sigma(arcs, s, dist, w));
    forall v ensures Transfers.Scales(SigmaOf(arcs, s, dist), ReceivedOf(arcs, s, dist), v, w, x) {
      ReceivedIs(arcs, s, dist, v, w);
    }
  }

  /** What a node other than the source hands back is all of 1 + its dependency. */
  lemma HandedBack(arcs: set<Arc>, s: Node, dist: map<Node, int>, w: Node)
    requires Hops(arcs, s, dist) && w in dist && w != s
    ensures Transfers.Column(DependencyOf(arcs, s, dist), ReceivedOf(arcs, s, dist), FeedingOf(arcs, dist), w)
  {
    hide *;
    SigmaByFeeding(arcs, s, dist, w);
    var x := ReceivedPerPath(arcs, s, dist, w);
    Transfers.ColumnFrom(SigmaOf(arcs, s, dist), DependencyOf(arcs, s, dist), ReceivedOf(arcs, s, dist),
                         FeedingOf(arcs, dist), w, x);
  }

  // ---------------------------------------------------------------- the total

  lemma FeedingIsChildren(arcs: set<Arc>, dist: map<Node, int>, v: Node, w: Node)
    ensures v in Feeding(arcs, dist, w) <==> w in Children(arcs, dist, v)
  {
    if v in Feeding(arcs, dist, w) {
      assert (v, w) in arcs;
    }
    if w in Children(arcs, dist, v) {
      assert (v, w) in arcs;
    }
  }

  ghost function Hop(dist: map<Node, int>, v: Node): real {
    if v in dist then dist[v] as real else 0.0
  }

  /** The dependencies of s on all nodes add up to the distances of all nodes reachable from s. */
  lemma DependenciesSumToDistances(arcs: set<Arc>, s: Node, dist: map<Node, int>)
    requires Hops(arcs, s, dist)
    ensures RealSum(dist.Keys, v => DependencyOn(arcs, s, dist, v)) == RealSum(dist.Keys, v => Hop(dist, v))
  {
    var dep, received := DependencyOf(arcs, s, dist), ReceivedOf(arcs, s, dist);
    var hop, children, feeding := v => Hop(dist, v), ChildrenOf(arcs, dist), FeedingOf(arcs, dist);
    forall v | v in dist ensures Transfers.Row(dep, received, children, v) {
      Recursion(arcs, s, dist, v);
      RealSame(children(v), w => Received(arcs, s, dist, v, w), w => received(v, w));
    }
    forall w | w in dist && w != s ensures Transfers.Column(dep, received, feeding, w) {
      HandedBack(arcs, s, dist, w);
    }
    forall v, w ensures Transfers.Linked(children, feeding, v, w) {
      FeedingIsChildren(arcs, dist, v, w);
    }
    assert HopsTo(arcs, s, dist, s) && Walk(arcs, s, s, [s]);
    Transfers.Total(dist.Keys, s, hop, dep, received, children, feeding);
    RealSame(dist.Keys, v => DependencyOn(arcs, s, dist, v), dep);
  }
}
