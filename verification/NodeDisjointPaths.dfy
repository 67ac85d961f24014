/** `_node_disjoint_count` of netlab/topology.py: node splitting and Menger's theorem for nodes. */
module NodeDisjointPaths {
  import opened Walks
  import opened Sums
  import opened Flows
  import opened PathFlows
  import opened EdgeDisjointPaths

  /** Simple paths from s to t through listed nodes that share only s and t, and no edge. */
  ghost predicate NodeDisjoint(nodes: seq<Node>, edges: seq<Arc>, s: Node, t: Node, ps: seq<seq<Node>>) {
    && (forall i :: 0 <= i < |ps| ==>
          && Walk(EdgeSet(edges), s, t, ps[i]) && Distinct(ps[i])
          && forall x :: x in ps[i] ==> x in nodes)
    && (forall i, j, x :: 0 <= i < j < |ps| && x in ps[i] && x in ps[j] ==> x == s || x == t)
    && (forall i, j, a :: 0 <= i < j < |ps| && a in PathArcs(ps[i]) ==> a !in PathArcs(ps[j]))
  }

  /** The edges between listed nodes that survive the loss of the nodes xs and the edges ys. */
  ghost function Surviving(nodes: seq<Node>, edges: seq<Arc>, xs: set<Node>, ys: set<Arc>): set<Arc> {
    set e | e in edges && e !in ys && e.0 in nodes && e.1 in nodes && e.0 !in xs && e.1 !in xs
  }

  /** Losing the inner nodes xs and the edges ys cuts t off from s. */
  ghost predicate NodeBlocks(nodes: seq<Node>, edges: seq<Arc>, xs: set<Node>, ys: set<Arc>, s: Node, t: Node) {
    s !in xs && t !in xs && !Reach(Surviving(nodes, edges, xs, ys), s, t)
  }

  // ---------------------------------------------------------------- the split network

  function SplitCapacity(ns: set<Node>, es: set<Arc>, s: Node, t: Node, maximum: int, u: Node, v: Node): int {
    if u.In? && v == Out(u.of) && u.of in ns then
      if u.of == s || u.of == t then maximum else 1
    else if u.Out? && v.In? && (u.of, v.of) in es then 1
    else 0
  }

  ghost predicate Splits(c: Network, ns: set<Node>, es: set<Arc>, s: Node, t: Node, maximum: int) {
    forall u, v :: Get(c, u, v) == SplitCapacity(ns, es, s, t, maximum, u, v)
  }

  lemma OneMoreNode(c: Network, ns: set<Node>, s: Node, t: Node, maximum: int, n: Node)
    requires Splits(c, ns, {}, s, t, maximum)
    ensures Splits(Put(c, In(n), Out(n), if n == s || n == t then maximum else 1), ns + {n}, {}, s, t, maximum)
  {
  }

  lemma OneMoreEdge(c: Network, ns: set<Node>, es: set<Arc>, s: Node, t: Node, maximum: int, e: Arc)
    requires Splits(c, ns, es, s, t, maximum)
    ensures Splits(Put(c, Out(e.0), In(e.1), 1), ns, es + {e}, s, t, maximum)
  {
  }

  method SplitNetwork(nodes: seq<Node>, edges: seq<Arc>, source: Node, sink: Node) returns (capacity: Network, maximum: int)
    ensures maximum == if |nodes| > 1 then |nodes| else 1
    ensures Splits(capacity, NodeSet(nodes), EdgeSet(edges), source, sink, maximum)
  {
    capacity := map[];
    maximum := if 1 > |nodes| then 1 else |nodes|;
    ghost var ns: set<Node> := {};
    for i := 0 to |nodes|
      invariant ns == NodeSet(nodes[..i])
      invariant Splits(capacity, ns, {}, source, sink, maximum)
    {
      var node := nodes[i];
      assert nodes[..i+1] == nodes[..i] + [node];
      OneMoreNode(capacity, ns, source, sink, maximum, node);
      capacity := Put(capacity, In(node), Out(node), if node == source || node == sink then maximum else 1);
      ns := ns + {node};
    }
    assert nodes[..|nodes|] == nodes;
    ghost var es: set<Arc> := {};
    for i := 0 to |edges|
      invariant es == EdgeSet(edges[..i])
      invariant Splits(capacity, ns, es, source, sink, maximum)
    {
      var (src, dst) := edges[i];
      assert edges[..i+1] == edges[..i] + [(src, dst)];
      OneMoreEdge(capacity, ns, es, source, sink, maximum, (src, dst));
      capacity := Put(capacity, Out(src), In(dst), 1);
      es := es + {(src, dst)};
    }
    assert edges[..|edges|] == edges;
  }

  // ---------------------------------------------------------------- from split paths to node paths

  lemma {:induction false} ArcInPath(q: seq<Node>, i: nat)
    requires 0 < i < |q|
    ensures (q[i-1], q[i]) in PathArcs(q)
    decreases |q|
  {
    if i > 1 {
      ArcInPath(q[1..], i - 1);
    }
  }

  lemma {:induction false} PairUse(ps: seq<seq<Node>>, i: nat, j: nat, u: Node, v: Node)
    requires i < j < |ps|
    ensures AllUses(ps, u, v) >= Uses(ps[i], u, v) + Uses(ps[j], u, v)
    decreases |ps|
  {
    var rest := ps[1..];
    assert AllUses(ps, u, v) == Uses(ps[0], u, v) + AllUses(rest, u, v);
    if i == 0 {
      MemberUse(rest, j - 1, u, v);
      assert rest[j-1] == ps[j];
    } else {
      PairUse(rest, i - 1, j - 1, u, v);
      assert rest[i-1] == ps[i] && rest[j-1] == ps[j];
    }
  }

  lemma {:induction false} MemberUse(ps: seq<seq<Node>>, i: nat, u: Node, v: Node)
    requires i < |ps|
    ensures AllUses(ps, u, v) >= Uses(ps[i], u, v)
    decreases |ps|
  {
    if i > 0 {
      MemberUse(ps[1..], i - 1, u, v);
    }
  }

  /** q visits In(p[0]), Out(p[0]), In(p[1]), Out(p[1]), ... */
  ghost predicate Unfolds(p: seq<Node>, q: seq<Node>) {
    && |q| == 2 * |p|
    && forall i :: 0 <= i < |p| ==> q[2*i] == In(p[i]) && q[2*i+1] == Out(p[i])
  }

  /** A walk of the split network alternates between the two halves of listed nodes. */
  lemma {:induction false} Alternates(c: Network, ns: set<Node>, es: set<Arc>, s: Node, t: Node, maximum: int,
                                      q: seq<Node>, i: nat)
    requires Splits(c, ns, es, s, t, maximum)
    requires IsWalk(Support(c), q) && q[0] == In(s) && i < |q|
    ensures i % 2 == 0 ==> q[i].In?
    ensures i % 2 == 1 ==> q[i-1].In? && q[i] == Out(q[i-1].of) && q[i].of in ns
    ensures i % 2 == 0 && i > 0 ==> q[i-1].Out? && (q[i-1].of, q[i].of) in es
  {
    if i > 0 {
      Alternates(c, ns, es, s, t, maximum, q, i - 1);
      assert (q[i-1], q[i]) in Support(c);
      SupportGet(c, q[i-1], q[i]);
      assert SplitCapacity(ns, es, s, t, maximum, q[i-1], q[i]) > 0;
    }
  }

  function Inner(n: Node): Node {
    if n.Name? then n else n.of
  }

  /** The node path a split path stands for. */
  ghost function Folded(q: seq<Node>): seq<Node> {
    seq(|q| / 2, i requires 0 <= i < |q| / 2 => Inner(q[2*i]))
  }

  lemma EvenLength(c: Network, ns: set<Node>, es: set<Arc>, s: Node, t: Node, maximum: int, q: seq<Node>)
    requires Splits(c, ns, es, s, t, maximum) && Walk(Support(c), In(s), Out(t), q)
    ensures |q| % 2 == 0
  {
    Alternates(c, ns, es, s, t, maximum, q, |q| - 1);
  }

  /** The two halves of the k-th node of a split path, and the edge that leads to it. */
  lemma FoldAt(c: Network, ns: set<Node>, es: set<Arc>, s: Node, t: Node, maximum: int, q: seq<Node>, k: nat)
    requires Splits(c, ns, es, s, t, maximum) && Walk(Support(c), In(s), Out(t), q) && 2 * k + 1 < |q|
    ensures q[2*k].In? && q[2*k+1] == Out(q[2*k].of) && q[2*k].of in ns && Inner(q[2*k]) == q[2*k].of
    ensures k > 0 ==> q[2*k-1].Out? && (q[2*k-1].of, q[2*k].of) in es
  {
    assert (2 * k) % 2 == 0 && (2 * k + 1) % 2 == 1;
    Alternates(c, ns, es, s, t, maximum, q, 2 * k);
    Alternates(c, ns, es, s, t, maximum, q, 2 * k + 1);
  }

  lemma Fold(c: Network, ns: set<Node>, es: set<Arc>, s: Node, t: Node, maximum: int, q: seq<Node>)
    requires Splits(c, ns, es, s, t, maximum)
    requires Walk(Support(c), In(s), Out(t), q) && Distinct(q)
    ensures Unfolds(Folded(q), q)
    ensures Walk(es, s, t, Folded(q)) && Distinct(Folded(q))
    ensures forall x :: x in Folded(q) ==> x in ns
  {
    hide Splits, Support;
    EvenLength(c, ns, es, s, t, maximum, q);
    var p := Folded(q);
    forall i | 0 <= i < |p| ensures q[2*i] == In(p[i]) && q[2*i+1] == Out(p[i]) && p[i] in ns {
      FoldAt(c, ns, es, s, t, maximum, q, i);
    }
    forall i | 0 < i < |p| ensures (p[i-1], p[i]) in es {
      FoldAt(c, ns, es, s, t, maximum, q, i);
      assert q[2*(i-1)+1] == Out(p[i-1]);
    }
  }

  lemma {:induction false} ArcIndex(p: seq<Node>, a: Arc) returns (i: nat)
    requires a in PathArcs(p)
    ensures 0 < i < |p| && a == (p[i-1], p[i])
    decreases |p|
  {
    if a == (p[0], p[1]) {
      i := 1;
    } else {
      var k := ArcIndex(p[1..], a);
      i := k + 1;
    }
  }

  /** Unit capacities keep two folded paths apart. */
  lemma FoldedApart(ns: set<Node>, es: set<Arc>, s: Node, t: Node, maximum: int, qs: seq<seq<Node>>,
                    i: nat, j: nat, p: seq<Node>, r: seq<Node>)
    requires forall u, v :: AllUses(qs, u, v) <= SplitCapacity(ns, es, s, t, maximum, u, v)
    requires i < j < |qs| && Unfolds(p, qs[i]) && Unfolds(r, qs[j])
    ensures forall x :: x in p && x in r ==> x == s || x == t
    ensures forall a :: a in PathArcs(p) ==> a !in PathArcs(r)
  {
    FoldedMeet(ns, es, s, t, maximum, qs, i, j, p, r);
    FoldedHops(ns, es, s, t, maximum, qs, i, j, p, r);
  }

  lemma FoldedMeet(ns: set<Node>, es: set<Arc>, s: Node, t: Node, maximum: int, qs: seq<seq<Node>>,
                   i: nat, j: nat, p: seq<Node>, r: seq<Node>)
    requires forall u, v :: AllUses(qs, u, v) <= SplitCapacity(ns, es, s, t, maximum, u, v)
    requires i < j < |qs| && Unfolds(p, qs[i]) && Unfolds(r, qs[j])
    ensures forall x :: x in p && x in r ==> x == s || x == t
  {
    forall x | x in p && x in r ensures x == s || x == t {
      VisitShared(p, qs[i], x);
      VisitShared(r, qs[j], x);
      PairUse(qs, i, j, In(x), Out(x));
    }
  }

  lemma FoldedHops(ns: set<Node>, es: set<Arc>, s: Node, t: Node, maximum: int, qs: seq<seq<Node>>,
                   i: nat, j: nat, p: seq<Node>, r: seq<Node>)
    requires forall u, v :: AllUses(qs, u, v) <= SplitCapacity(ns, es, s, t, maximum, u, v)
    requires i < j < |qs| && Unfolds(p, qs[i]) && Unfolds(r, qs[j])
    ensures forall a :: a in PathArcs(p) ==> a !in PathArcs(r)
  {
    forall a | a in PathArcs(p) ensures a !in PathArcs(r) {
      if a in PathArcs(r) {
        HopShared(p, qs[i], a);
        HopShared(r, qs[j], a);
        PairUse(qs, i, j, Out(a.0), In(a.1));
      }
    }
  }

  /** A flow of the split network folds to node-disjoint paths. */
  lemma FoldFamily(c: Network, nodes: seq<Node>, edges: seq<Arc>, s: Node, t: Node, maximum: int, k: nat)
    requires s != t && Splits(c, NodeSet(nodes), EdgeSet(edges), s, t, maximum)
    requires exists f :: FlowOfValue(c, In(s), Out(t), f, k)
    ensures exists ps :: |ps| == k && NodeDisjoint(nodes, edges, s, t, ps)
  {
    var f :| FlowOfValue(c, In(s), Out(t), f, k);
    var qs := Decompose(c, In(s), Out(t), f, k);
    var ns, es := NodeSet(nodes), EdgeSet(edges);
    var ps := seq(k, i requires 0 <= i < k => Folded(qs[i]));
    forall a | a in Support(f) ensures a in Support(c) {
      assert Get(f, a.0, a.1) <= Get(c, a.0, a.1);
    }
    forall i | 0 <= i < k
      ensures Unfolds(ps[i], qs[i]) && Walk(es, s, t, ps[i]) && Distinct(ps[i])
      ensures forall x :: x in ps[i] ==> x in ns
    {
      Fold(c, ns, es, s, t, maximum, qs[i]);
    }
    forall u, v ensures AllUses(qs, u, v) <= SplitCapacity(ns, es, s, t, maximum, u, v) {
      assert AllUses(qs, u, v) <= Get(f, u, v) <= Get(c, u, v);
    }
    forall i, j | 0 <= i < j < k
      ensures forall x :: x in ps[i] && x in ps[j] ==> x == s || x == t
      ensures forall a :: a in PathArcs(ps[i]) ==> a !in PathArcs(ps[j])
    {
      FoldedApart(ns, es, s, t, maximum, qs, i, j, ps[i], ps[j]);
    }
    assert NodeDisjoint(nodes, edges, s, t, ps);
  }

  lemma VisitShared(p: seq<Node>, q: seq<Node>, x: Node)
    requires Unfolds(p, q) && x in p
    ensures Uses(q, In(x), Out(x)) >= 1
  {
    var i :| 0 <= i < |p| && p[i] == x;
    ArcInPath(q, 2*i + 1);
  }

  lemma HopShared(p: seq<Node>, q: seq<Node>, a: Arc)
    requires Unfolds(p, q) && a in PathArcs(p)
    ensures Uses(q, Out(a.0), In(a.1)) >= 1
  {
    var i := ArcIndex(p, a);
    ArcInPath(q, 2*i);
    assert q[2*i] == In(p[i]) && q[2*(i-1)+1] == Out(p[i-1]);
  }

  // ---------------------------------------------------------------- from node paths to split paths

  ghost function Unfolded(p: seq<Node>): seq<Node> {
    if p == [] then [] else [In(p[0]), Out(p[0])] + Unfolded(p[1..])
  }

  ghost function SplitUse(p: seq<Node>, u: Node, v: Node): int {
    if u.In? && v == Out(u.of) then multiset(p)[u.of]
    else if u.Out? && v.In? then Uses(p, u.of, v.of)
    else 0
  }

  lemma {:induction false} UnfoldedEnds(p: seq<Node>)
    requires |p| > 0
    ensures |Unfolded(p)| == 2 * |p|
    ensures Unfolded(p)[0] == In(p[0]) && Unfolded(p)[|Unfolded(p)|-1] == Out(p[|p|-1])
    decreases |p|
  {
    if |p| > 1 {
      UnfoldedEnds(p[1..]);
    }
  }

  lemma UsesPrepend(a: Node, r: seq<Node>, u: Node, v: Node)
    requires r != []
    ensures Uses([a] + r, u, v) == One(u == a && v == r[0]) + Uses(r, u, v)
  {
    assert ([a] + r)[1..] == r;
    UsesStep([a] + r, u, v);
  }

  lemma TwoSteps(a: Node, b: Node, r: seq<Node>, u: Node, v: Node)
    requires r != []
    ensures Uses([a, b] + r, u, v) == One(u == a && v == b) + One(u == b && v == r[0]) + Uses(r, u, v)
  {
    var tail := [b] + r;
    UsesPrepend(b, r, u, v);
    UsesPrepend(a, tail, u, v);
    assert tail[0] == b;
    assert [a, b] + r == [a] + tail;
  }

  lemma UnfoldedStep(p: seq<Node>, u: Node, v: Node)
    requires |p| >= 2
    ensures Uses(Unfolded(p), u, v) == One(u == In(p[0]) && v == Out(p[0]))
              + One(u == Out(p[0]) && v == In(p[1])) + Uses(Unfolded(p[1..]), u, v)
  {
    UnfoldedEnds(p[1..]);
    TwoSteps(In(p[0]), Out(p[0]), Unfolded(p[1..]), u, v);
  }

  lemma UnfoldedSingle(x: Node, u: Node, v: Node)
    ensures Uses(Unfolded([x]), u, v) == SplitUse([x], u, v)
  {
    UsesPrepend(In(x), [Out(x)], u, v);
    assert Unfolded([x]) == [In(x)] + [Out(x)];
  }

  lemma SplitUseStep(p: seq<Node>, u: Node, v: Node)
    requires |p| >= 2
    ensures SplitUse(p, u, v) == One(u == In(p[0]) && v == Out(p[0]))
                               + One(u == Out(p[0]) && v == In(p[1])) + SplitUse(p[1..], u, v)
  {
    if u.In? && v == Out(u.of) {
      assert p == [p[0]] + p[1..];
    } else if u.Out? && v.In? {
      UsesStep(p, u.of, v.of);
    }
  }

  lemma UnfoldedNothing(u: Node, v: Node)
    ensures Uses(Unfolded([]), u, v) == 0 && SplitUse([], u, v) == 0
  {
  }

  lemma {:induction false} UnfoldedUses(p: seq<Node>, u: Node, v: Node)
    ensures Uses(Unfolded(p), u, v) == SplitUse(p, u, v)
    decreases |p|
  {
    if p == [] {
      UnfoldedNothing(u, v);
    } else if |p| == 1 {
      hide *;
      assert p == [p[0]];
      UnfoldedSingle(p[0], u, v);
    } else {
      hide *;
      UnfoldedStep(p, u, v);
      SplitUseStep(p, u, v);
      UnfoldedUses(p[1..], u, v);
    }
  }

  lemma {:induction false} UnfoldedAt(p: seq<Node>, i: nat)
    requires i < |p|
    ensures |Unfolded(p)| == 2 * |p|
    ensures Unfolded(p)[2*i] == In(p[i]) && Unfolded(p)[2*i+1] == Out(p[i])
    decreases |p|
  {
    UnfoldedEnds(p);
    if i > 0 {
      UnfoldedAt(p[1..], i - 1);
      assert Unfolded(p)[2*i] == Unfolded(p[1..])[2*(i-1)];
      assert Unfolded(p)[2*i+1] == Unfolded(p[1..])[2*(i-1)+1];
    }
  }

  lemma UnfoldedWalk(c: Network, ns: set<Node>, es: set<Arc>, s: Node, t: Node, maximum: int, p: seq<Node>)
    requires maximum >= 1 && Splits(c, ns, es, s, t, maximum)
    requires Walk(es, s, t, p) && forall x :: x in p ==> x in ns
    ensures Walk(Support(c), In(s), Out(t), Unfolded(p))
  {
    var q := Unfolded(p);
    UnfoldedEnds(p);
    forall k | 0 < k < |q| ensures (q[k-1], q[k]) in Support(c) {
      SupportGet(c, q[k-1], q[k]);
      var i := k / 2;
      UnfoldedAt(p, i);
      if k == 2 * i {
        UnfoldedAt(p, i - 1);
        assert (p[i-1], p[i]) in es;
        assert SplitCapacity(ns, es, s, t, maximum, q[k-1], q[k]) == 1;
      } else {
        assert p[i] in ns;
        assert SplitCapacity(ns, es, s, t, maximum, q[k-1], q[k]) >= 1;
      }
    }
  }

  ghost function Total(ps: seq<seq<Node>>, use: seq<Node> -> int): int {
    if ps == [] then 0 else use(ps[0]) + Total(ps[1..], use)
  }

  lemma {:induction false} TotalBound(ps: seq<seq<Node>>, use: seq<Node> -> int)
    requires forall i :: 0 <= i < |ps| ==> 0 <= use(ps[i]) <= 1
    ensures 0 <= Total(ps, use) <= |ps|
    ensures Total(ps, use) >= 1 ==> exists i :: 0 <= i < |ps| && use(ps[i]) == 1
    decreases |ps|
  {
    if ps != [] {
      var rest := ps[1..];
      TotalBound(rest, use);
      if Total(rest, use) >= 1 {
        var i :| 0 <= i < |rest| && use(rest[i]) == 1;
        assert ps[i+1] == rest[i];
      }
    }
  }

  lemma {:induction false} TotalApart(ps: seq<seq<Node>>, use: seq<Node> -> int)
    requires forall i :: 0 <= i < |ps| ==> 0 <= use(ps[i]) <= 1
    requires forall i, j :: 0 <= i < j < |ps| && use(ps[i]) == 1 ==> use(ps[j]) == 0
    ensures Total(ps, use) <= 1
    decreases |ps|
  {
    if ps != [] {
      var rest := ps[1..];
      forall i, j | 0 <= i < j < |rest| && use(rest[i]) == 1 ensures use(rest[j]) == 0 {
        assert rest[i] == ps[i+1] && rest[j] == ps[j+1];
      }
      TotalApart(rest, use);
      TotalBound(rest, use);
      if use(ps[0]) == 1 {
        forall i | 0 <= i < |rest| ensures use(rest[i]) == 0 {
          assert rest[i] == ps[i+1];
        }
      }
    }
  }

  ghost function UnfoldAll(ps: seq<seq<Node>>): seq<seq<Node>> {
    seq(|ps|, i requires 0 <= i < |ps| => Unfolded(ps[i]))
  }

  lemma {:induction false} UnfoldAllUses(ps: seq<seq<Node>>, u: Node, v: Node)
    ensures AllUses(UnfoldAll(ps), u, v) == Total(ps, p => SplitUse(p, u, v))
    decreases |ps|
  {
    if ps != [] {
      assert UnfoldAll(ps)[1..] == UnfoldAll(ps[1..]);
      UnfoldAllUses(ps[1..], u, v);
      UnfoldedUses(ps[0], u, v);
    }
  }

  // ---------------------------------------------------------------- counting

  lemma SecondsDiffer(nodes: seq<Node>, edges: seq<Arc>, s: Node, t: Node, ps: seq<seq<Node>>, i: nat, j: nat)
    requires s != t && NodeDisjoint(nodes, edges, s, t, ps) && i < j < |ps|
    ensures |ps[i]| >= 2 && |ps[j]| >= 2 && ps[i][1] != ps[j][1]
  {
    var p, q := ps[i], ps[j];
    assert Walk(EdgeSet(edges), s, t, p) && Distinct(p);
    assert Walk(EdgeSet(edges), s, t, q) && Distinct(q);
    assert p[1] in p && q[1] in q;
    ArcInPath(p, 1);
    ArcInPath(q, 1);
  }

  /** The second nodes of a node-disjoint family are all different, and none is s. */
  lemma FamilySmall(nodes: seq<Node>, edges: seq<Arc>, s: Node, t: Node, ps: seq<seq<Node>>)
    requires s != t && NodeDisjoint(nodes, edges, s, t, ps) && ps != []
    ensures |ps| < |nodes|
  {
    var seconds := seq(|ps|, i requires 0 <= i < |ps| => if |ps[i]| >= 2 then ps[i][1] else s);
    forall i | 0 <= i < |ps| ensures |ps[i]| >= 2 && seconds[i] in nodes && seconds[i] != s {
      assert Walk(EdgeSet(edges), s, t, ps[i]) && Distinct(ps[i]);
      assert ps[i][1] in ps[i];
    }
    forall i, j | 0 <= i < j < |ps| ensures seconds[i] != seconds[j] {
      SecondsDiffer(nodes, edges, s, t, ps, i, j);
    }
    NodeSetSize(seconds);
    assert s in nodes by {
      assert Walk(EdgeSet(edges), s, t, ps[0]);
      assert ps[0][0] in ps[0];
    }
    assert NodeSet(seconds) <= NodeSet(nodes) - {s};
    SubsetSize(NodeSet(seconds), NodeSet(nodes) - {s});
    NodeSetSize(nodes);
  }

  /** A node-disjoint family unfolds to paths that fit the split network together. */
  lemma UnfoldFamily(c: Network, nodes: seq<Node>, edges: seq<Arc>, s: Node, t: Node, maximum: int,
                     ps: seq<seq<Node>>)
    requires s != t && Splits(c, NodeSet(nodes), EdgeSet(edges), s, t, maximum)
    requires maximum >= 1 && maximum >= |nodes|
    requires NodeDisjoint(nodes, edges, s, t, ps)
    ensures forall i :: 0 <= i < |ps| ==> Walk(Support(c), In(s), Out(t), UnfoldAll(ps)[i])
    ensures forall u, v :: AllUses(UnfoldAll(ps), u, v) <= Get(c, u, v)
  {
    var ns, es := NodeSet(nodes), EdgeSet(edges);
    forall i | 0 <= i < |ps| ensures Walk(Support(c), In(s), Out(t), UnfoldAll(ps)[i]) {
      UnfoldedWalk(c, ns, es, s, t, maximum, ps[i]);
    }
    forall u, v ensures AllUses(UnfoldAll(ps), u, v) <= Get(c, u, v) {
      UnfoldAllUses(ps, u, v);
      SplitUseBound(nodes, edges, s, t, maximum, ps, u, v);
      assert Get(c, u, v) == SplitCapacity(ns, es, s, t, maximum, u, v);
    }
  }

  lemma SplitUseBound(nodes: seq<Node>, edges: seq<Arc>, s: Node, t: Node, maximum: int,
                      ps: seq<seq<Node>>, u: Node, v: Node)
    requires s != t && maximum >= 1 && maximum >= |nodes|
    requires NodeDisjoint(nodes, edges, s, t, ps)
    ensures Total(ps, p => SplitUse(p, u, v)) <= SplitCapacity(NodeSet(nodes), EdgeSet(edges), s, t, maximum, u, v)
  {
    var use := p => SplitUse(p, u, v);
    forall i | 0 <= i < |ps| ensures 0 <= use(ps[i]) <= 1 {
      SplitUseOnce(ps[i], u, v);
    }
    TotalBound(ps, use);
    if Total(ps, use) >= 1 {
      var i :| 0 <= i < |ps| && use(ps[i]) == 1;
      SplitUseWhere(EdgeSet(edges), ps[i], u, v);
      if u.In? && (u.of == s || u.of == t) {
        FamilySmall(nodes, edges, s, t, ps);
      } else {
        forall i, j | 0 <= i < j < |ps| && use(ps[i]) == 1 ensures use(ps[j]) == 0 {
          SplitUseWhere(EdgeSet(edges), ps[i], u, v);
          if use(ps[j]) == 1 {
            SplitUseWhere(EdgeSet(edges), ps[j], u, v);
          }
        }
        TotalApart(ps, use);
      }
    }
  }

  lemma SplitUseOnce(p: seq<Node>, u: Node, v: Node)
    requires Distinct(p)
    ensures 0 <= SplitUse(p, u, v) <= 1
  {
    if u.In? && v == Out(u.of) {
      SimpleVisit(p, u.of);
    } else if u.Out? && v.In? {
      SimpleUse(p, (u.of, v.of));
    }
  }

  lemma SplitUseWhere(es: set<Arc>, p: seq<Node>, u: Node, v: Node)
    requires IsWalk(es, p) && SplitUse(p, u, v) > 0
    ensures (u.In? && v == Out(u.of) && u.of in p)
         || (u.Out? && v.In? && (u.of, v.of) in PathArcs(p) && (u.of, v.of) in es)
  {
    if u.Out? && v.In? {
      PathArcsWalk(es, p, (u.of, v.of));
    }
  }

  lemma {:induction false} SimpleVisit(p: seq<Node>, x: Node)
    requires Distinct(p)
    ensures multiset(p)[x] <= 1
    ensures multiset(p)[x] == 1 <==> x in p
    decreases |p|
  {
    if |p| > 0 {
      SimpleVisit(p[1..], x);
      assert p == [p[0]] + p[1..];
    }
  }

  // ---------------------------------------------------------------- the cut

  /** The inner nodes whose two halves lie on different sides. */
  ghost function CutNodes(ns: set<Node>, s: Node, t: Node, side: set<Node>): set<Node> {
    set x | x in ns && x != s && x != t && In(x) in side && Out(x) !in side
  }

  /** The edges that lead out of side. */
  ghost function CutEdges(es: set<Arc>, side: set<Node>): set<Arc> {
    set e | e in es && Out(e.0) in side && In(e.1) !in side
  }

  /** The pairs a cut of unit capacities pays for. */
  ghost function Paid(side: set<Node>, rest: set<Node>, h: (Node, Node) -> int): set<Arc> {
    set u, v | u in side && v in rest && h(u, v) > 0 :: (u, v)
  }

  lemma {:induction false} PaidRow(u: Node, rest: set<Node>, h: (Node, Node) -> int)
    requires forall v :: v in rest ==> 0 <= h(u, v) <= 1
    ensures Sum(rest, v => h(u, v)) == |Paid({u}, rest, h)|
    decreases |rest|
  {
    if rest == {} {
      assert Paid({u}, rest, h) == {};
    } else {
      var v :| v in rest;
      SumTake(rest, x => h(u, x), v);
      PaidRow(u, rest - {v}, h);
      hide Sum;
      OneMorePaid(u, rest, h, v);
    }
  }

  lemma OneMorePaid(u: Node, rest: set<Node>, h: (Node, Node) -> int, v: Node)
    requires v in rest
    ensures |Paid({u}, rest, h)| == |Paid({u}, rest - {v}, h)| + (if h(u, v) > 0 then 1 else 0)
  {
    assert Paid({u}, rest, h) == Paid({u}, rest - {v}, h) + (if h(u, v) > 0 then {(u, v)} else {});
  }

  lemma {:induction false} PaidCount(side: set<Node>, rest: set<Node>, h: (Node, Node) -> int)
    requires forall u, v :: u in side && v in rest ==> 0 <= h(u, v) <= 1
    ensures Sum(side, u => Sum(rest, v => h(u, v))) == |Paid(side, rest, h)|
    decreases |side|
  {
    if side == {} {
      assert Paid(side, rest, h) == {};
    } else {
      var u :| u in side;
      SumTake(side, x => Sum(rest, v => h(x, v)), u);
      PaidCount(side - {u}, rest, h);
      PaidRow(u, rest, h);
      PaidSplit(side, rest, h, u);
    }
  }

  lemma PaidSplit(side: set<Node>, rest: set<Node>, h: (Node, Node) -> int, u: Node)
    requires u in side
    ensures |Paid(side, rest, h)| == |Paid(side - {u}, rest, h)| + |Paid({u}, rest, h)|
  {
    assert Paid(side, rest, h) == Paid(side - {u}, rest, h) + Paid({u}, rest, h);
    assert Paid(side - {u}, rest, h) !! Paid({u}, rest, h);
  }

  ghost function Halves(xs: set<Node>): set<Arc> {
    set x | x in xs :: (In(x), Out(x))
  }

  ghost function Hops(ys: set<Arc>): set<Arc> {
    set e | e in ys :: (Out(e.0), In(e.1))
  }

  lemma {:induction false} HalvesSize(xs: set<Node>)
    ensures |Halves(xs)| == |xs|
    decreases |xs|
  {
    if xs == {} {
      assert Halves(xs) == {};
    } else {
      var x :| x in xs;
      HalvesSize(xs - {x});
      assert Halves(xs) == Halves(xs - {x}) + {(In(x), Out(x))};
    }
  }

  lemma {:induction false} HopsSize(ys: set<Arc>)
    ensures |Hops(ys)| == |ys|
    decreases |ys|
  {
    if ys == {} {
      assert Hops(ys) == {};
    } else {
      var e :| e in ys;
      HopsSize(ys - {e});
      assert Hops(ys) == Hops(ys - {e}) + {(Out(e.0), In(e.1))};
    }
  }

  lemma RowAtMost(c: Network, side: set<Node>, rest: set<Node>, u: Node, v: Node)
    requires u in side && v in rest && NonNegative(c)
    ensures Get(c, u, v) <= Crossing(c, side, rest)
  {
    var row := x => Sum(rest, y => Get(c, x, y));
    forall x | x in side ensures row(x) >= 0 {
      SumZero(rest);
      SumAtMost(rest, y => 0, y => Get(c, x, y));
    }
    SumTake(rest, y => Get(c, u, y), v);
    SumZero(rest - {v});
    SumAtMost(rest - {v}, y => 0, y => Get(c, u, y));
    SumTake(side, row, u);
    SumZero(side - {u});
    SumAtMost(side - {u}, x => 0, row);
    SumSame(side, row, x => Sum(rest, y => Get(c, x, y)));
  }

  /** A cut smaller than maximum only cuts unit capacities. */
  lemma UnitCut(c: Network, ns: set<Node>, es: set<Arc>, s: Node, t: Node, maximum: int, side: set<Node>, k: int)
    requires Splits(c, ns, es, s, t, maximum) && 0 <= k < maximum
    requires CutOfCapacity(c, In(s), Out(t), side, k)
    ensures forall u, v :: u in side && v !in side ==> 0 <= Get(c, u, v) <= 1 && Get(c, u, v) < maximum
  {
    var rest := Vertices(c) + {In(s), Out(t)} - side;
    forall u, v ensures Get(c, u, v) >= 0 {
      assert Get(c, u, v) == SplitCapacity(ns, es, s, t, maximum, u, v);
    }
    forall u, v | u in side && v !in side ensures Get(c, u, v) <= 1 && Get(c, u, v) < maximum {
      assert Get(c, u, v) == SplitCapacity(ns, es, s, t, maximum, u, v);
      if Get(c, u, v) > 0 {
        RowAtMost(c, side, rest, u, v);
      }
    }
  }

  /** What a unit cut pays for: the halves of the cut nodes and the cut edges. */
  lemma PaidIsCut(c: Network, ns: set<Node>, es: set<Arc>, s: Node, t: Node, maximum: int, side: set<Node>, k: int)
    requires Splits(c, ns, es, s, t, maximum) && 0 <= k < maximum
    requires CutOfCapacity(c, In(s), Out(t), side, k)
    ensures |CutNodes(ns, s, t, side)| + |CutEdges(es, side)| == k
  {
    UnitCut(c, ns, es, s, t, maximum, side, k);
    var rest := Vertices(c) + {In(s), Out(t)} - side;
    var h := (u, v) => Get(c, u, v);
    PaidCount(side, rest, h);
    forall u | u in side ensures Sum(rest, v => Get(c, u, v)) == Sum(rest, v => h(u, v)) {
      SumSame(rest, v => Get(c, u, v), v => h(u, v));
    }
    SumSame(side, u => Sum(rest, v => Get(c, u, v)), u => Sum(rest, v => h(u, v)));
    var xs, ys := CutNodes(ns, s, t, side), CutEdges(es, side);
    HalvesSize(xs);
    HopsSize(ys);
    PaidPairs(c, ns, es, s, t, maximum, side, rest);
    assert Halves(xs) !! Hops(ys);
  }

  lemma PaidPairs(c: Network, ns: set<Node>, es: set<Arc>, s: Node, t: Node, maximum: int,
                  side: set<Node>, rest: set<Node>)
    requires Splits(c, ns, es, s, t, maximum) && maximum > 0
    requires rest == Vertices(c) + {In(s), Out(t)} - side
    requires forall u, v :: u in side && v !in side ==> 0 <= Get(c, u, v) <= 1 && Get(c, u, v) < maximum
    ensures Paid(side, rest, (u, v) => Get(c, u, v)) == Halves(CutNodes(ns, s, t, side)) + Hops(CutEdges(es, side))
  {
    forall a: Arc
      ensures a in Paid(side, rest, (u, v) => Get(c, u, v)) <==>
                a in Halves(CutNodes(ns, s, t, side)) || a in Hops(CutEdges(es, side))
    {
      var (u, v) := a;
      assert Get(c, u, v) == SplitCapacity(ns, es, s, t, maximum, u, v);
      if a in Hops(CutEdges(es, side)) {
        var e :| e in CutEdges(es, side) && a == (Out(e.0), In(e.1));
        assert (u.of, v.of) == e;
      }
      if u.Out? && v.In? && (u.of, v.of) in CutEdges(es, side) {
        assert a == (Out(u.of), In(v.of));
      }
    }
  }

  /** Losing the cut nodes and cut edges separates s from t. */
  lemma CutSeparates(c: Network, nodes: seq<Node>, edges: seq<Arc>, s: Node, t: Node, maximum: int,
                     side: set<Node>, k: int)
    requires s != t && Splits(c, NodeSet(nodes), EdgeSet(edges), s, t, maximum) && 0 <= k < maximum
    requires CutOfCapacity(c, In(s), Out(t), side, k)
    ensures NodeBlocks(nodes, edges, CutNodes(NodeSet(nodes), s, t, side), CutEdges(EdgeSet(edges), side), s, t)
  {
    var ns, es := NodeSet(nodes), EdgeSet(edges);
    UnitCut(c, ns, es, s, t, maximum, side, k);
    var xs, ys := CutNodes(ns, s, t, side), CutEdges(es, side);
    var left := Surviving(nodes, edges, xs, ys);
    // nodes whose outgoing half is on the source's side
    var near := (set x | x in ns && Out(x) in side) + {s};
    forall x | x in ns && (x == s || x == t) && In(x) in side ensures Out(x) in side {
      assert Get(c, In(x), Out(x)) == SplitCapacity(ns, es, s, t, maximum, In(x), Out(x)) == maximum;
    }
    forall a, b | (a, b) in left && a in near ensures b in near {
      assert Out(a) in side;
      assert In(b) in side;
    }
    if Reach(left, s, t) {
      ReachStays(left, near, s, t);
    }
  }

  // ---------------------------------------------------------------- no separating set is smaller

  /** The path visits a lost node or takes a lost edge. */
  ghost predicate Met(p: seq<Node>, xs: set<Node>, ys: set<Arc>) {
    (exists x :: x in p && x in xs) || (exists a :: a in PathArcs(p) && a in ys)
  }

  /** A separating set meets every path through listed nodes. */
  lemma BlockersMeet(nodes: seq<Node>, edges: seq<Arc>, xs: set<Node>, ys: set<Arc>, s: Node, t: Node, p: seq<Node>)
    requires NodeBlocks(nodes, edges, xs, ys, s, t)
    requires Walk(EdgeSet(edges), s, t, p) && forall x :: x in p ==> x in nodes
    ensures Met(p, xs, ys)
  {
    if !Met(p, xs, ys) {
      var left := Surviving(nodes, edges, xs, ys);
      forall i, j | 0 <= i < |p| && 0 <= j < |p| && j == i + 1 ensures (p[i], p[j]) in left {
        ArcInPath(p, j);
        assert p[i] in p && p[j] in p && (p[i], p[j]) in EdgeSet(edges);
      }
      assert Walk(left, s, t, p);
    }
  }

  /** Paths that share neither inner nodes nor edges have to be met one by one. */
  lemma {:induction false} MetOneByOne(ps: seq<seq<Node>>, s: Node, t: Node, xs: set<Node>, ys: set<Arc>)
    requires s !in xs && t !in xs
    requires forall i :: 0 <= i < |ps| ==> Met(ps[i], xs, ys)
    requires forall i, j, x :: 0 <= i < j < |ps| && x in ps[i] && x in ps[j] ==> x == s || x == t
    requires forall i, j, a :: 0 <= i < j < |ps| && a in PathArcs(ps[i]) ==> a !in PathArcs(ps[j])
    ensures |ps| <= |xs| + |ys|
    decreases |ps|
  {
    if ps != [] {
      var n := |ps| - 1;
      if x :| x in ps[n] && x in xs {
        forall i | 0 <= i < n ensures Met(ps[i], xs - {x}, ys) {
          assert Met(ps[i], xs, ys);
          assert x !in ps[i];
        }
        MetOneByOne(ps[..n], s, t, xs - {x}, ys);
      } else {
        var a :| a in PathArcs(ps[n]) && a in ys;
        forall i | 0 <= i < n ensures Met(ps[i], xs, ys - {a}) {
          assert Met(ps[i], xs, ys);
          assert a !in PathArcs(ps[i]);
        }
        MetOneByOne(ps[..n], s, t, xs, ys - {a});
      }
    }
  }

  lemma BlockersAreMany(nodes: seq<Node>, edges: seq<Arc>, s: Node, t: Node, ps: seq<seq<Node>>, xs: set<Node>, ys: set<Arc>)
    requires NodeDisjoint(nodes, edges, s, t, ps) && NodeBlocks(nodes, edges, xs, ys, s, t)
    ensures |ps| <= |xs| + |ys|
  {
    forall i | 0 <= i < |ps| ensures Met(ps[i], xs, ys) {
      BlockersMeet(nodes, edges, xs, ys, s, t, ps[i]);
    }
    MetOneByOne(ps, s, t, xs, ys);
  }

  // ---------------------------------------------------------------- the count

  /** k is the size of a largest node-disjoint family, and the least number of inner nodes and edges whose loss
      separates t from s. */
  ghost predicate NodeConnectivity(nodes: seq<Node>, edges: seq<Arc>, s: Node, t: Node, k: int) {
    && (exists ps :: |ps| == k && NodeDisjoint(nodes, edges, s, t, ps))
    && (forall ps :: NodeDisjoint(nodes, edges, s, t, ps) ==> |ps| <= k)
    && (exists xs, ys :: |xs| + |ys| == k && NodeBlocks(nodes, edges, xs, ys, s, t))
    && (forall xs, ys :: NodeBlocks(nodes, edges, xs, ys, s, t) ==> k <= |xs| + |ys|)
  }

  /** `_node_disjoint_count`: Menger's theorem for inner nodes. The large capacity of source and sink never binds. */
  method NodeDisjointCount(nodes: seq<Node>, edges: seq<Arc>, source: Node, sink: Node) returns (k: int)
    requires source != sink
    ensures NodeConnectivity(nodes, edges, source, sink, k)
  {
    var capacity, maximum := SplitNetwork(nodes, edges, source, sink);
    forall u, v ensures Get(capacity, u, v) >= 0 {
      assert Get(capacity, u, v) == SplitCapacity(NodeSet(nodes), EdgeSet(edges), source, sink, maximum, u, v);
    }
    k := MaxFlow(capacity, In(source), Out(sink));
    MengerForNodes(capacity, nodes, edges, source, sink, maximum, k);
  }

  lemma MengerForNodes(c: Network, nodes: seq<Node>, edges: seq<Arc>, s: Node, t: Node, maximum: int, k: int)
    requires s != t && Splits(c, NodeSet(nodes), EdgeSet(edges), s, t, maximum)
    requires maximum >= 1 && maximum >= |nodes|
    requires exists f :: FlowOfValue(c, In(s), Out(t), f, k)
    requires exists side :: CutOfCapacity(c, In(s), Out(t), side, k)
    ensures NodeConnectivity(nodes, edges, s, t, k)
  {
    forall ps | NodeDisjoint(nodes, edges, s, t, ps) ensures |ps| <= k {
      UnfoldFamily(c, nodes, edges, s, t, maximum, ps);
      FamilyAtMostMaxFlow(c, In(s), Out(t), UnfoldAll(ps), k);
    }
    assert NodeDisjoint(nodes, edges, s, t, []);
    FoldFamily(c, nodes, edges, s, t, maximum, k);
    var ps :| |ps| == k && NodeDisjoint(nodes, edges, s, t, ps);
    if ps != [] { FamilySmall(nodes, edges, s, t, ps); }
    var side :| CutOfCapacity(c, In(s), Out(t), side, k);
    PaidIsCut(c, NodeSet(nodes), EdgeSet(edges), s, t, maximum, side, k);
    CutSeparates(c, nodes, edges, s, t, maximum, side, k);
    forall xs, ys | NodeBlocks(nodes, edges, xs, ys, s, t) ensures k <= |xs| + |ys| {
      BlockersAreMany(nodes, edges, s, t, ps, xs, ys);
    }
  }

  /** A node-disjoint family is edge-disjoint. */
  lemma NodeDisjointIsEdgeDisjoint(nodes: seq<Node>, edges: seq<Arc>, s: Node, t: Node, ps: seq<seq<Node>>)
    requires NodeDisjoint(nodes, edges, s, t, ps)
    ensures EdgeDisjoint(edges, s, t, ps)
  {
    forall a: Arc ensures AllArcs(ps)[a] <= multiset(edges)[a] {
      var use := (p: seq<Node>) => Uses(p, a.0, a.1);
      forall i | 0 <= i < |ps| ensures 0 <= use(ps[i]) <= 1 {
        SimpleUse(ps[i], a);
      }
      forall i, j | 0 <= i < j < |ps| && use(ps[i]) == 1 ensures use(ps[j]) == 0 {
        assert a in PathArcs(ps[i]);
        assert a !in PathArcs(ps[j]);
      }
      AllUsesTotal(ps, a.0, a.1);
      TotalBound(ps, use);
      if Total(ps, use) >= 1 {
        var i :| 0 <= i < |ps| && use(ps[i]) == 1;
        PathArcsWalk(EdgeSet(edges), ps[i], a);
        TotalApart(ps, use);
      }
    }
  }

  lemma {:induction false} AllUsesTotal(ps: seq<seq<Node>>, u: Node, v: Node)
    ensures AllUses(ps, u, v) == Total(ps, p => Uses(p, u, v))
    decreases |ps|
  {
    if ps != [] {
      AllUsesTotal(ps[1..], u, v);
    }
  }

  /** What the two counts promise puts the node-disjoint count at or below the edge-disjoint one. */
  lemma NodeAtMostEdge(nodes: seq<Node>, edges: seq<Arc>, s: Node, t: Node, byNode: int, byEdge: int)
    requires NodeConnectivity(nodes, edges, s, t, byNode) && EdgeConnectivity(edges, s, t, byEdge)
    ensures byNode <= byEdge
  {
    var ps :| |ps| == byNode && NodeDisjoint(nodes, edges, s, t, ps);
    NodeDisjointIsEdgeDisjoint(nodes, edges, s, t, ps);
  }
}
