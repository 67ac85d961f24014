/** What Brandes accumulation is meant to compute: for a source s, the dependency of s on a node v is the
    sum, over all other reachable nodes t, of the fraction of shortest paths from s to t that pass through v.
    This module proves the recursion the backward pass relies on.
 */
module Dependencies {
  import opened Walks
  import opened Sums
  import opened RealSums
  import opened Distances
  import opened WalkCounts
  import opened BrandesForward
  import Accumulation

  ghost predicate HopsTo(arcs: set<Arc>, s: Node, dist: map<Node, int>, v: Node) {
    && (v in dist <==> Reach(arcs, s, v))
    && (v in dist ==> Distance(arcs, s, v, dist[v]))
  }

  /** dist gives the hop distance from s of exactly the reachable nodes. */
  ghost predicate Hops(arcs: set<Arc>, s: Node, dist: map<Node, int>) {
    forall v {:trigger HopsTo(arcs, s, dist, v)} :: HopsTo(arcs, s, dist, v)
  }

  /** The number of shortest paths from s to v. */
  ghost function Sigma(arcs: set<Arc>, s: Node, dist: map<Node, int>, v: Node): real {
    Paths(arcs, s, dist, v) as real
  }

  /** The number of ways on from v along shortest paths to t. */
  ghost function Onward(arcs: set<Arc>, dist: map<Node, int>, v: Node, t: Node): real {
    if v in dist && t in dist && dist[v] <= dist[t] then Count(arcs, v, t, dist[t] - dist[v]) as real else 0.0
  }

  /** The fraction of shortest paths from s to t that pass through v. */
  ghost function Share(arcs: set<Arc>, s: Node, dist: map<Node, int>, v: Node, t: Node): real {
    if v in dist && t in dist && 0 <= dist[v] <= dist[t] && Sigma(arcs, s, dist, t) > 0.0 then
      |WalksThrough(arcs, s, v, t, dist[v], dist[t] - dist[v])| as real / Sigma(arcs, s, dist, t)
    else 0.0
  }

  /** The dependency of s on v: the sum of these fractions over all other nodes. */
  ghost function DependencyOn(arcs: set<Arc>, s: Node, dist: map<Node, int>, v: Node): real {
    RealSum(dist.Keys - {v}, t => Share(arcs, s, dist, v, t))
  }

  /** A shortest path from s to t passes through v exactly when it is at v after dist[v] hops. */
  lemma ThroughMeansAt(arcs: set<Arc>, s: Node, dist: map<Node, int>, v: Node, t: Node, p: seq<Node>)
    requires Hops(arcs, s, dist) && t in dist
    requires Walk(arcs, s, t, p) && |p| == dist[t] + 1
    ensures v in p <==> v in dist && 0 <= dist[v] <= dist[t] && p[dist[v]] == v
  {
    assert HopsTo(arcs, s, dist, v) && HopsTo(arcs, s, dist, t);
    if v in p {
      var i :| 0 <= i < |p| && p[i] == v;
      assert Walk(arcs, s, v, p[..i+1]);
      assert Reach(arcs, s, v);
      DistanceReach(arcs, s, v, dist[v]);
      if dist[v] < i {
        var q :| Walk(arcs, s, v, q) && |q| == dist[v] + 1;
        assert Walk(arcs, v, t, p[i..]);
        WalkConcat(arcs, s, v, t, q, p[i..]);
      }
    }
  }

  lemma SigmaPositive(arcs: set<Arc>, s: Node, dist: map<Node, int>, v: Node)
    requires Hops(arcs, s, dist) && v in dist
    ensures dist[v] >= 0 && Sigma(arcs, s, dist, v) > 0.0
  {
    assert HopsTo(arcs, s, dist, v);
    DistanceReach(arcs, s, v, dist[v]);
    var p :| Walk(arcs, s, v, p) && |p| == dist[v] + 1;
    SomeWalkCounts(arcs, s, v, dist[v], p);
  }

  lemma ProductAsReal(a: int, b: int)
    ensures (a * b) as real == (a as real) * (b as real)
  {
  }

  // ---------------------------------------------------------------- one hop onward

  /** The neighbours of v that are one hop further from the source. */
  ghost function Children(arcs: set<Arc>, dist: map<Node, int>, v: Node): set<Node> {
    set a | a in arcs && a.0 == v && v in dist && a.1 in dist && dist[a.1] == dist[v] + 1 :: a.1
  }

  lemma NoShortcut(arcs: set<Arc>, s: Node, dist: map<Node, int>, w: Node, t: Node, k: nat)
    requires Hops(arcs, s, dist) && w in dist && t in dist && dist[w] + k < dist[t]
    ensures Count(arcs, w, t, k) == 0
  {
    assert HopsTo(arcs, s, dist, w) && HopsTo(arcs, s, dist, t);
    var q :| Walk(arcs, s, w, q) && |q| == dist[w] + 1;
    forall p | Walk(arcs, w, t, p) ensures |p| != k + 1 {
      WalkConcat(arcs, s, w, t, q, p);
    }
    NoWalkNoCount(arcs, w, t, k);
  }

  /** Walks onward from v of one hop more than k lead through the children of v. */
  lemma CountOnward(arcs: set<Arc>, s: Node, dist: map<Node, int>, v: Node, t: Node, k: nat)
    requires Hops(arcs, s, dist) && v in dist && t in dist && dist[t] == dist[v] + 1 + k
    ensures Count(arcs, v, t, k + 1) == Sum(Children(arcs, dist, v), w => Count(arcs, w, t, k))
  {
    var all, children := Successors(arcs, v), Children(arcs, dist, v);
    var count := w => Count(arcs, w, t, k);
    CountByFirstHop(arcs, v, t, k);
    SumSame(all, w => Count(arcs, w, t, k), count);
    SumSplit(all, children, count);
    forall w | w in all - children ensures count(w) == 0 {
      OtherSuccessor(arcs, s, dist, v, w);
      NoShortcut(arcs, s, dist, w, t, k);
    }
    SumSame(all - children, count, w => 0);
    SumZero(all - children);
    SumSame(children, count, w => Count(arcs, w, t, k));
  }

  /** Shortest ways on from v to another node go through the children of v. */
  lemma OnwardStep(arcs: set<Arc>, s: Node, dist: map<Node, int>, v: Node, t: Node)
    requires Hops(arcs, s, dist) && v in dist && t in dist && t != v
    ensures Onward(arcs, dist, v, t) == RealSum(Children(arcs, dist, v), w => Onward(arcs, dist, w, t))
  {
    var children := Children(arcs, dist, v);
    if dist[v] < dist[t] {
      var k := dist[t] - dist[v] - 1;
      CountOnward(arcs, s, dist, v, t, k);
      SumAsReal(children, w => Count(arcs, w, t, k), w => Onward(arcs, dist, w, t));
    } else {
      if dist[v] == dist[t] {
        assert WalksOf(arcs, v, t, 0) == {};
      }
      RealZero(children, w => Onward(arcs, dist, w, t));
    }
  }

  /** A successor of v that is no child is no further from the source than v. */
  lemma OtherSuccessor(arcs: set<Arc>, s: Node, dist: map<Node, int>, v: Node, w: Node)
    requires Hops(arcs, s, dist) && v in dist && (v, w) in arcs && w !in Children(arcs, dist, v)
    ensures w in dist && dist[w] <= dist[v]
  {
    assert HopsTo(arcs, s, dist, v) && HopsTo(arcs, s, dist, w);
    var q :| Walk(arcs, s, v, q) && |q| == dist[v] + 1;
    WalkSnoc(arcs, s, v, w, q);
    assert Reach(arcs, s, w);
  }

  lemma {:induction false} SumAsReal(s: set<Node>, f: Node -> int, g: Node -> real)
    requires forall x :: x in s ==> g(x) == f(x) as real
    ensures Sum(s, f) as real == RealSum(s, g)
    decreases |s|
  {
    if s != {} {
      var x :| x in s;
      SumTake(s, f, x);
      RealTake(s, g, x);
      SumAsReal(s - {x}, f, g);
    }
  }

  // ---------------------------------------------------------------- the recursion

  ghost function SigmaOf(arcs: set<Arc>, s: Node, dist: map<Node, int>): Node -> real {
    v => Sigma(arcs, s, dist, v)
  }

  ghost function OnwardOf(arcs: set<Arc>, dist: map<Node, int>): (Node, Node) -> real {
    (v, t) => Onward(arcs, dist, v, t)
  }

  ghost function ChildrenOf(arcs: set<Arc>, dist: map<Node, int>): Node -> set<Node> {
    v => Children(arcs, dist, v)
  }

  lemma ShareIsFraction(arcs: set<Arc>, s: Node, dist: map<Node, int>, v: Node, t: Node)
    requires Hops(arcs, s, dist) && v in dist && t in dist
    ensures Share(arcs, s, dist, v, t) == Accumulation.Fraction(SigmaOf(arcs, s, dist), OnwardOf(arcs, dist), v, t)
  {
    hide Sigma, Onward, WalksThrough;
    SigmaPositive(arcs, s, dist, v);
    SigmaPositive(arcs, s, dist, t);
    if dist[v] <= dist[t] {
      ThroughIsProduct(arcs, s, dist, v, t);
    } else {
      NoWayOn(arcs, dist, v, t);
      NothingOf(Sigma(arcs, s, dist, v), Sigma(arcs, s, dist, t));
    }
  }

  lemma NoWayOn(arcs: set<Arc>, dist: map<Node, int>, v: Node, t: Node)
    requires v in dist && t in dist && dist[v] > dist[t]
    ensures Onward(arcs, dist, v, t) == 0.0
  {
  }

  /** The shortest paths to t through v: a shortest path to v, and a way on. */
  lemma ThroughIsProduct(arcs: set<Arc>, s: Node, dist: map<Node, int>, v: Node, t: Node)
    requires v in dist && t in dist && 0 <= dist[v] <= dist[t]
    ensures |WalksThrough(arcs, s, v, t, dist[v], dist[t] - dist[v])| as real
         == Sigma(arcs, s, dist, v) * Onward(arcs, dist, v, t)
  {
    CountThrough(arcs, s, v, t, dist[v], dist[t] - dist[v]);
    ProductAsReal(Count(arcs, s, v, dist[v]), Count(arcs, v, t, dist[t] - dist[v]));
  }

  lemma NothingOf(a: real, d: real)
    requires d > 0.0
    ensures a * 0.0 / d == 0.0
  {
  }

  lemma DependencyIs(arcs: set<Arc>, s: Node, dist: map<Node, int>, v: Node)
    requires Hops(arcs, s, dist) && v in dist
    ensures DependencyOn(arcs, s, dist, v)
         == Accumulation.Dependency(dist.Keys, SigmaOf(arcs, s, dist), OnwardOf(arcs, dist), v)
  {
    forall t | t in dist.Keys - {v}
      ensures Share(arcs, s, dist, v, t) == Accumulation.Fraction(SigmaOf(arcs, s, dist), OnwardOf(arcs, dist), v, t)
    {
      ShareIsFraction(arcs, s, dist, v, t);
    }
    RealSame(dist.Keys - {v}, t => Share(arcs, s, dist, v, t),
             t => Accumulation.Fraction(SigmaOf(arcs, s, dist), OnwardOf(arcs, dist), v, t));
  }

  lemma PathsAreCounted(arcs: set<Arc>, s: Node, dist: map<Node, int>)
    requires Hops(arcs, s, dist)
    ensures Accumulation.Counted(dist.Keys, SigmaOf(arcs, s, dist), OnwardOf(arcs, dist), ChildrenOf(arcs, dist))
  {
    var sigma, onward, children := SigmaOf(arcs, s, dist), OnwardOf(arcs, dist), ChildrenOf(arcs, dist);
    forall v | v in dist ensures sigma(v) > 0.0 && children(v) <= dist.Keys - {v} && onward(v, v) == 1.0 {
      SigmaPositive(arcs, s, dist, v);
      assert WalksOf(arcs, v, v, 0) == {[v]};
    }
    forall v, t | v in dist && t in dist && v != t ensures Accumulation.Splits(onward, children, v, t) {
      OnwardStep(arcs, s, dist, v, t);
      RealSame(Children(arcs, dist, v), w => Onward(arcs, dist, w, t), w => onward(w, t));
    }
  }

  /** What v receives from its child w in the backward pass. */
  ghost function Received(arcs: set<Arc>, s: Node, dist: map<Node, int>, v: Node, w: Node): real {
    if Sigma(arcs, s, dist, w) > 0.0 then
      Sigma(arcs, s, dist, v) / Sigma(arcs, s, dist, w) * (1.0 + DependencyOn(arcs, s, dist, w))
    else 0.0
  }

  ghost predicate ReceivesPassed(arcs: set<Arc>, s: Node, dist: map<Node, int>, v: Node, w: Node) {
    Accumulation.Passed(dist.Keys, SigmaOf(arcs, s, dist), OnwardOf(arcs, dist), v, w) == Received(arcs, s, dist, v, w)
  }

  lemma ReceivedIsPassed(arcs: set<Arc>, s: Node, dist: map<Node, int>, v: Node, w: Node)
    requires Hops(arcs, s, dist) && w in dist
    ensures ReceivesPassed(arcs, s, dist, v, w)
  {
    DependencyIs(arcs, s, dist, w);
  }

  lemma ReceivedSum(arcs: set<Arc>, s: Node, dist: map<Node, int>, v: Node)
    requires forall w :: w in Children(arcs, dist, v) ==> ReceivesPassed(arcs, s, dist, v, w)
    ensures RealSum(Children(arcs, dist, v), w => Received(arcs, s, dist, v, w))
         == RealSum(ChildrenOf(arcs, dist)(v),
                    w => Accumulation.Passed(dist.Keys, SigmaOf(arcs, s, dist), OnwardOf(arcs, dist), v, w))
  {
    RealSame(Children(arcs, dist, v), w => Received(arcs, s, dist, v, w),
             w => Accumulation.Passed(dist.Keys, SigmaOf(arcs, s, dist), OnwardOf(arcs, dist), v, w));
  }

  /** Brandes' recursion: the dependency of s on v is what the children of v pass on to it. */
  lemma Recursion(arcs: set<Arc>, s: Node, dist: map<Node, int>, v: Node)
    requires Hops(arcs, s, dist) && v in dist
    ensures DependencyOn(arcs, s, dist, v) == RealSum(Children(arcs, dist, v), w => Received(arcs, s, dist, v, w))
  {
    DependencyIs(arcs, s, dist, v);
    PathsAreCounted(arcs, s, dist);
    Accumulation.Recursion(dist.Keys, SigmaOf(arcs, s, dist), OnwardOf(arcs, dist), ChildrenOf(arcs, dist), v);
    forall w | w in Children(arcs, dist, v) ensures ReceivesPassed(arcs, s, dist, v, w) {
      ReceivedIsPassed(arcs, s, dist, v, w);
    }
    ReceivedSum(arcs, s, dist, v);
  }
}
