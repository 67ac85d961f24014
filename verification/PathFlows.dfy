/** Flows as bundles of paths: the two directions between a family of paths and a flow. */
module PathFlows {
  import opened Walks
  import opened Sums
  import opened Flows

  /** How often p uses each arc. */
  ghost function PathArcs(p: seq<Node>): multiset<Arc> {
    if |p| < 2 then multiset{} else multiset{(p[0], p[1])} + PathArcs(p[1..])
  }

  /** How often the paths of a family use each arc together. */
  ghost function AllArcs(ps: seq<seq<Node>>): multiset<Arc> {
    if ps == [] then multiset{} else PathArcs(ps[0]) + AllArcs(ps[1..])
  }

  ghost function Uses(p: seq<Node>, u: Node, v: Node): int {
    PathArcs(p)[(u, v)]
  }

  ghost function AllUses(ps: seq<seq<Node>>, u: Node, v: Node): int {
    AllArcs(ps)[(u, v)]
  }

  /** The arcs with something on them. */
  function Support(f: Network): set<Arc> {
    set u, v | u in f && v in f[u] && f[u][v] > 0 :: (u, v)
  }

  lemma SupportGet(f: Network, u: Node, v: Node)
    ensures (u, v) in Support(f) <==> Get(f, u, v) > 0
  {
  }

  ghost function One(b: bool): int { if b then 1 else 0 }

  lemma {:induction false} PathArcsWalk(arcs: set<Arc>, p: seq<Node>, a: Arc)
    requires IsWalk(arcs, p) && a in PathArcs(p)
    ensures a in arcs && a.0 in p && a.1 in p
    decreases |p|
  {
    if |p| >= 2 && a != (p[0], p[1]) {
      assert IsWalk(arcs, p[1..]) by {
        var q := p[1..];
        forall i | 0 < i < |q| ensures (q[i-1], q[i]) in arcs {
          assert (p[i], p[i+1]) in arcs by { var j := i + 1; assert (p[j-1], p[j]) in arcs; }
        }
      }
      PathArcsWalk(arcs, p[1..], a);
    } else {
      assert (p[0], p[1]) in arcs;
    }
  }

  /** A simple path uses no arc twice, and leaves no node twice. */
  lemma {:induction false} SimpleUse(p: seq<Node>, a: Arc)
    requires Distinct(p)
    ensures PathArcs(p)[a] <= 1
    ensures a in PathArcs(p) ==> a.0 in p && a.1 in p
    decreases |p|
  {
    if |p| >= 2 {
      SimpleUse(p[1..], a);
      assert p == [p[0]] + p[1..];
    }
  }

  /** A path sends one unit out of its first node and into its last. */
  lemma {:induction false} PathNet(vs: set<Node>, p: seq<Node>, u: Node)
    requires |p| > 0 && forall n :: n in p ==> n in vs
    ensures Sum(vs, v => Uses(p, u, v) - Uses(p, v, u)) == One(u == p[0]) - One(u == p[|p|-1])
    decreases |p|
  {
    if |p| == 1 {
      SumSame(vs, v => Uses(p, u, v) - Uses(p, v, u), v => 0);
      SumZero(vs);
    } else {
      PathNet(vs, p[1..], u);
      assert p[0] in p && p[1] in p;
      UnitNet(vs, p[0], p[1], u);
      FirstHopNet(vs, p, u);
    }
  }

  lemma FirstHopNet(vs: set<Node>, p: seq<Node>, u: Node)
    requires |p| >= 2
    ensures Sum(vs, v => Uses(p, u, v) - Uses(p, v, u))
         == Sum(vs, v => One(u == p[0] && v == p[1]) - One(v == p[0] && u == p[1]))
          + Sum(vs, v => Uses(p[1..], u, v) - Uses(p[1..], v, u))
  {
    var unit := v => One(u == p[0] && v == p[1]) - One(v == p[0] && u == p[1]);
    var later := v => Uses(p[1..], u, v) - Uses(p[1..], v, u);
    forall v ensures Uses(p, u, v) - Uses(p, v, u) == unit(v) + later(v) {
      UsesStep(p, u, v);
      UsesStep(p, v, u);
    }
    SumAdd(vs, unit, later);
    SumSame(vs, v => Uses(p, u, v) - Uses(p, v, u), v => unit(v) + later(v));
  }

  lemma UsesStep(p: seq<Node>, u: Node, v: Node)
    requires |p| >= 2
    ensures Uses(p, u, v) == One(u == p[0] && v == p[1]) + Uses(p[1..], u, v)
  {
  }

  lemma UnitNet(vs: set<Node>, a: Node, b: Node, u: Node)
    requires a in vs && b in vs
    ensures Sum(vs, v => One(u == a && v == b) - One(v == a && u == b)) == One(u == a) - One(u == b)
  {
    SumZero(vs);
    var into := v => One(u == a && v == b);
    var from := v => 0 - One(v == a && u == b);
    SumChange(vs, v => 0, into, b);
    SumChange(vs, v => 0, from, a);
    SumAdd(vs, into, from);
    SumSame(vs, v => One(u == a && v == b) - One(v == a && u == b), v => into(v) + from(v));
  }

  // ---------------------------------------------------------------- from a flow to paths

  /** f with one unit less along p. */
  ghost function Minus(f: Network, p: seq<Node>): Network
    decreases |p|
  {
    if |p| < 2 then f else Minus(Put(f, p[0], p[1], Get(f, p[0], p[1]) - 1), p[1..])
  }

  lemma {:induction false} MinusGet(f: Network, p: seq<Node>, u: Node, v: Node)
    ensures Get(Minus(f, p), u, v) == Get(f, u, v) - Uses(p, u, v)
    decreases |p|
  {
    if |p| >= 2 {
      MinusGet(Put(f, p[0], p[1], Get(f, p[0], p[1]) - 1), p[1..], u, v);
    }
  }

  /** A flow of positive value has a path of positive arcs from source to sink. */
  lemma CarryingPath(c: Network, s: Node, t: Node, f: Network, k: int)
    requires FlowOfValue(c, s, t, f, k) && k > 0
    ensures Reach(Support(f), s, t)
  {
    var vs := Vertices(c) + {s, t};
    var side := set v | v in vs && Reach(Support(f), s, v);
    ReachRefl(Support(f), s);
    if t !in side {
      var g := (u, v) => Get(f, u, v) - Get(f, v, u);
      forall u ensures Net(vs, f, u) == Sum(vs, v => g(u, v)) {
        SumSame(vs, v => Get(f, u, v) - Get(f, v, u), v => g(u, v));
      }
      NetAcross(vs, side, s, g);
      forall u | u in side ensures Sum(vs - side, v => g(u, v)) <= 0 {
        forall v | v in vs - side ensures g(u, v) <= 0 {
          if Get(f, u, v) > 0 {
            SupportGet(f, u, v);
            ReachArc(Support(f), u, v);
            ReachTrans(Support(f), s, u, v);
          }
          assert Get(f, v, u) >= 0;
        }
        SumAtMost(vs - side, v => g(u, v), v => 0);
        SumZero(vs - side);
      }
      SumAtMost(side, u => Sum(vs - side, v => g(u, v)), u => 0);
      SumZero(side);
    }
  }

  /** Taking one unit off a carrying simple path leaves a flow of value one less. */
  lemma MinusIsFlow(c: Network, s: Node, t: Node, f: Network, k: int, p: seq<Node>)
    requires s != t && FlowOfValue(c, s, t, f, k)
    requires Walk(Support(f), s, t, p) && Distinct(p)
    ensures FlowOfValue(c, s, t, Minus(f, p), k - 1)
  {
    var vs := Vertices(c) + {s, t};
    var r := Minus(f, p);
    forall u, v ensures 0 <= Get(r, u, v) <= Get(c, u, v) {
      MinusGet(f, p, u, v);
      SimpleUse(p, (u, v));
      assert 0 <= Get(f, u, v) <= Get(c, u, v);
      if (u, v) in PathArcs(p) {
        PathArcsWalk(Support(f), p, (u, v));
        SupportGet(f, u, v);
      }
    }
    forall n | n in p ensures n in vs {
      var i :| 0 <= i < |p| && p[i] == n;
      if i > 0 {
        assert (p[i-1], p[i]) in Support(f);
        assert 0 < Get(f, p[i-1], p[i]) <= Get(c, p[i-1], p[i]);
      }
    }
    forall u ensures Net(vs, r, u) == Net(vs, f, u) - One(u == s) + One(u == t) {
      PathNet(vs, p, u);
      var used := v => Uses(p, u, v) - Uses(p, v, u);
      forall v ensures Get(f, u, v) - Get(f, v, u) == (Get(r, u, v) - Get(r, v, u)) + used(v) {
        MinusGet(f, p, u, v);
        MinusGet(f, p, v, u);
      }
      SumAdd(vs, v => Get(r, u, v) - Get(r, v, u), used);
      SumSame(vs, v => Get(f, u, v) - Get(f, v, u), v => (x => Get(r, u, x) - Get(r, x, u))(v) + used(v));
    }
  }

  /** A flow of value k contains k simple paths that together stay within it. */
  lemma {:induction false} Decompose(c: Network, s: Node, t: Node, f: Network, k: nat) returns (ps: seq<seq<Node>>)
    requires s != t && FlowOfValue(c, s, t, f, k)
    ensures |ps| == k
    ensures forall i :: 0 <= i < k ==> Walk(Support(f), s, t, ps[i]) && Distinct(ps[i])
    ensures forall u, v :: AllUses(ps, u, v) <= Get(f, u, v)
    decreases k
  {
    if k == 0 {
      ps := [];
    } else {
      CarryingPath(c, s, t, f, k);
      var w :| Walk(Support(f), s, t, w);
      var p := Simplify(Support(f), s, t, w);
      MinusIsFlow(c, s, t, f, k, p);
      var r := Minus(f, p);
      var rest := Decompose(c, s, t, r, k - 1);
      ps := [p] + rest;
      forall u, v ensures AllUses(ps, u, v) <= Get(f, u, v) && Get(r, u, v) <= Get(f, u, v) {
        MinusGet(f, p, u, v);
        assert ps[1..] == rest;
      }
      forall i | 0 < i < k ensures Walk(Support(f), s, t, ps[i]) && Distinct(ps[i]) {
        assert ps[i] == rest[i-1];
        forall a | a in Support(r) ensures a in Support(f) {
          assert Get(r, a.0, a.1) <= Get(f, a.0, a.1);
        }
      }
    }
  }

  // ---------------------------------------------------------------- from paths to a flow

  /** The flow a family of paths carries inside c. */
  ghost function Carried(c: Network, ps: seq<seq<Node>>): Network {
    map u | u in c :: map v | v in c[u] :: AllUses(ps, u, v)
  }

  lemma {:induction false} FamilyNet(vs: set<Node>, s: Node, t: Node, ps: seq<seq<Node>>, u: Node)
    requires s != t
    requires forall i :: 0 <= i < |ps| ==> |ps[i]| > 0 && ps[i][0] == s && ps[i][|ps[i]|-1] == t
    requires forall i, n :: 0 <= i < |ps| && n in ps[i] ==> n in vs
    ensures Sum(vs, v => AllUses(ps, u, v) - AllUses(ps, v, u))
         == if u == s then |ps| else if u == t then -|ps| else 0
    decreases |ps|
  {
    if ps == [] {
      SumSame(vs, v => AllUses(ps, u, v) - AllUses(ps, v, u), v => 0);
      SumZero(vs);
    } else {
      var p, rest := ps[0], ps[1..];
      forall n | n in p ensures n in vs { assert n in ps[0]; }
      forall i, n | 0 <= i < |rest| && n in rest[i] ensures n in vs { assert n in ps[i+1]; }
      PathNet(vs, p, u);
      FamilyNet(vs, s, t, rest, u);
      SumAdd(vs, v => Uses(p, u, v) - Uses(p, v, u), v => AllUses(rest, u, v) - AllUses(rest, v, u));
      SumSame(vs, v => AllUses(ps, u, v) - AllUses(ps, v, u),
              v => (x => Uses(p, u, x) - Uses(p, x, u))(v)
                 + (x => AllUses(rest, u, x) - AllUses(rest, x, u))(v));
    }
  }

  lemma FamilyIsFlow(c: Network, s: Node, t: Node, ps: seq<seq<Node>>)
    requires s != t
    requires forall i :: 0 <= i < |ps| ==> Walk(Support(c), s, t, ps[i])
    requires forall u, v :: AllUses(ps, u, v) <= Get(c, u, v)
    ensures FlowOfValue(c, s, t, Carried(c, ps), |ps|)
  {
    var vs, f := Vertices(c) + {s, t}, Carried(c, ps);
    forall u, v ensures Get(f, u, v) == AllUses(ps, u, v) {
      assert AllUses(ps, u, v) <= Get(c, u, v);
    }
    forall i, n | 0 <= i < |ps| && n in ps[i] ensures n in vs {
      var j :| 0 <= j < |ps[i]| && ps[i][j] == n;
      assert Walk(Support(c), s, t, ps[i]);
      if j > 0 { assert (ps[i][j-1], ps[i][j]) in Support(c); }
    }
    forall u ensures Net(vs, f, u) == if u == s then |ps| else if u == t then -|ps| else 0 {
      FamilyNet(vs, s, t, ps, u);
      SumSame(vs, v => Get(f, u, v) - Get(f, v, u), v => AllUses(ps, u, v) - AllUses(ps, v, u));
    }
  }

  /** Paths that fit together into c are no more than its maximum flow. */
  lemma FamilyAtMostMaxFlow(c: Network, s: Node, t: Node, ps: seq<seq<Node>>, total: int)
    requires s != t
    requires exists side :: CutOfCapacity(c, s, t, side, total)
    requires forall i :: 0 <= i < |ps| ==> Walk(Support(c), s, t, ps[i])
    requires forall u, v :: AllUses(ps, u, v) <= Get(c, u, v)
    ensures |ps| <= total
  {
    FamilyIsFlow(c, s, t, ps);
    MaxFlowIsLargest(c, s, t, total, Carried(c, ps), |ps|);
  }
}
