/** How many walks of a given length lead from one node to another. */
module WalkCounts {
  import opened Arithmetic
  import opened Walks
  import opened Sums

  function Predecessors(arcs: set<Arc>, v: Node): set<Node> {
    set a | a in arcs && a.1 == v :: a.0
  }

  function Successors(arcs: set<Arc>, v: Node): set<Node> {
    set a | a in arcs && a.0 == v :: a.1
  }

  /** All walks from s to v with k hops. */
  ghost function WalksOf(arcs: set<Arc>, s: Node, v: Node, k: nat): set<seq<Node>>
    decreases k
  {
    if k == 0 then
      if s == v then {[s]} else {}
    else
      set u, p | u in Predecessors(arcs, v) && p in WalksOf(arcs, s, u, k - 1) :: p + [v]
  }

  ghost function Count(arcs: set<Arc>, s: Node, v: Node, k: nat): int {
    |WalksOf(arcs, s, v, k)|
  }

  lemma {:induction false} WalksOfAre(arcs: set<Arc>, s: Node, v: Node, k: nat, p: seq<Node>)
    ensures p in WalksOf(arcs, s, v, k) <==> Walk(arcs, s, v, p) && |p| == k + 1
    decreases k
  {
    if k == 0 {
      if Walk(arcs, s, v, p) && |p| == 1 { assert p == [s]; }
    } else {
      if p in WalksOf(arcs, s, v, k) {
        var u, q :| u in Predecessors(arcs, v) && q in WalksOf(arcs, s, u, k - 1) && p == q + [v];
        WalksOfAre(arcs, s, u, k - 1, q);
        WalkSnoc(arcs, s, u, v, q);
      }
      if Walk(arcs, s, v, p) && |p| == k + 1 {
        var u, q := p[k-1], p[..k];
        assert (u, v) in arcs by { assert p[k] == v; }
        assert Walk(arcs, s, u, q);
        WalksOfAre(arcs, s, u, k - 1, q);
        assert u in Predecessors(arcs, v) && p == q + [v];
      }
    }
  }

  /** Sets in one-to-one correspondence have the same size. */
  lemma {:induction false} SameCount<A, B>(xs: set<A>, ys: set<B>, f: A -> B, g: B -> A)
    requires forall x :: x in xs ==> f(x) in ys && g(f(x)) == x
    requires forall y :: y in ys ==> g(y) in xs && f(g(y)) == y
    ensures |xs| == |ys|
    decreases |xs|
  {
    if xs == {} {
      assert ys == {};
    } else {
      var x :| x in xs;
      SameCount(xs - {x}, ys - {f(x)}, f, g);
    }
  }

  // ---------------------------------------------------------------- the last hop

  /** The walks from s to v with k + 1 hops whose last but one node is in us. */
  ghost function WalksVia(arcs: set<Arc>, s: Node, v: Node, k: nat, us: set<Node>): set<seq<Node>> {
    set p | p in WalksOf(arcs, s, v, k + 1) && |p| == k + 2 && p[k] in us
  }

  lemma CountViaOne(arcs: set<Arc>, s: Node, v: Node, k: nat, u: Node)
    requires (u, v) in arcs
    ensures |WalksVia(arcs, s, v, k, {u})| == Count(arcs, s, u, k)
  {
    var xs, ys := WalksOf(arcs, s, u, k), WalksVia(arcs, s, v, k, {u});
    forall p | p in xs ensures p + [v] in ys && (p + [v])[..k+1] == p {
      WalksOfAre(arcs, s, u, k, p);
      WalkSnoc(arcs, s, u, v, p);
      WalksOfAre(arcs, s, v, k + 1, p + [v]);
    }
    forall p | p in ys ensures p[..k+1] in xs && p[..k+1] + [v] == p {
      WalksOfAre(arcs, s, v, k + 1, p);
      assert Walk(arcs, s, u, p[..k+1]);
      WalksOfAre(arcs, s, u, k, p[..k+1]);
    }
    SameCount(xs, ys, p => p + [v], (p: seq<Node>) => if |p| == k + 2 then p[..k+1] else p);
  }

  lemma {:induction false} CountVia(arcs: set<Arc>, s: Node, v: Node, k: nat, us: set<Node>)
    requires us <= Predecessors(arcs, v)
    ensures |WalksVia(arcs, s, v, k, us)| == Sum(us, u => Count(arcs, s, u, k))
    decreases |us|
  {
    if us == {} {
      assert WalksVia(arcs, s, v, k, us) == {};
    } else {
      var u :| u in us;
      CountVia(arcs, s, v, k, us - {u});
      CountViaOne(arcs, s, v, k, u);
      SumTake(us, x => Count(arcs, s, x, k), u);
      ViaSplit(arcs, s, v, k, us, u);
    }
  }

  lemma SplitSize<T>(all: set<T>, a: set<T>, b: set<T>)
    requires forall x :: x in all <==> x in a || x in b
    requires a !! b
    ensures |all| == |a| + |b|
  {
    assert all == a + b;
  }

  lemma ViaSplit(arcs: set<Arc>, s: Node, v: Node, k: nat, us: set<Node>, u: Node)
    requires u in us
    ensures |WalksVia(arcs, s, v, k, us)| == |WalksVia(arcs, s, v, k, us - {u})| + |WalksVia(arcs, s, v, k, {u})|
  {
    SplitSize(WalksVia(arcs, s, v, k, us), WalksVia(arcs, s, v, k, us - {u}), WalksVia(arcs, s, v, k, {u}));
  }

  /** Walks with k + 1 hops, counted by their last hop. */
  lemma CountByLastHop(arcs: set<Arc>, s: Node, v: Node, k: nat)
    ensures Count(arcs, s, v, k + 1) == Sum(Predecessors(arcs, v), u => Count(arcs, s, u, k))
  {
    CountVia(arcs, s, v, k, Predecessors(arcs, v));
    forall p | p in WalksOf(arcs, s, v, k + 1) ensures |p| == k + 2 && p[k] in Predecessors(arcs, v) {
      WalksOfAre(arcs, s, v, k + 1, p);
      assert p[k+1] == v && (p[k], p[k+1]) in arcs;
    }
    assert WalksOf(arcs, s, v, k + 1) == WalksVia(arcs, s, v, k, Predecessors(arcs, v));
  }

  // ---------------------------------------------------------------- the first hop

  /** The walks from v to t with k + 1 hops whose second node is in ws. */
  ghost function WalksInto(arcs: set<Arc>, v: Node, t: Node, k: nat, ws: set<Node>): set<seq<Node>> {
    set p | p in WalksOf(arcs, v, t, k + 1) && |p| == k + 2 && p[1] in ws
  }

  lemma CountIntoOne(arcs: set<Arc>, v: Node, t: Node, k: nat, w: Node)
    requires (v, w) in arcs
    ensures |WalksInto(arcs, v, t, k, {w})| == Count(arcs, w, t, k)
  {
    var xs, ys := WalksOf(arcs, w, t, k), WalksInto(arcs, v, t, k, {w});
    forall p | p in xs ensures [v] + p in ys && ([v] + p)[1..] == p {
      WalksOfAre(arcs, w, t, k, p);
      WalkCons(arcs, v, w, t, p);
      WalksOfAre(arcs, v, t, k + 1, [v] + p);
    }
    forall p | p in ys ensures p[1..] in xs && [v] + p[1..] == p {
      WalksOfAre(arcs, v, t, k + 1, p);
      assert Walk(arcs, w, t, p[1..]);
      WalksOfAre(arcs, w, t, k, p[1..]);
    }
    SameCount(xs, ys, p => [v] + p, (p: seq<Node>) => if |p| > 0 then p[1..] else p);
  }

  lemma {:induction false} CountInto(arcs: set<Arc>, v: Node, t: Node, k: nat, ws: set<Node>)
    requires ws <= Successors(arcs, v)
    ensures |WalksInto(arcs, v, t, k, ws)| == Sum(ws, w => Count(arcs, w, t, k))
    decreases |ws|
  {
    if ws == {} {
      assert WalksInto(arcs, v, t, k, ws) == {};
    } else {
      var w :| w in ws;
      CountInto(arcs, v, t, k, ws - {w});
      CountIntoOne(arcs, v, t, k, w);
      SumTake(ws, x => Count(arcs, x, t, k), w);
      IntoSplit(arcs, v, t, k, ws, w);
    }
  }

  lemma IntoSplit(arcs: set<Arc>, v: Node, t: Node, k: nat, ws: set<Node>, w: Node)
    requires w in ws
    ensures |WalksInto(arcs, v, t, k, ws)| == |WalksInto(arcs, v, t, k, ws - {w})| + |WalksInto(arcs, v, t, k, {w})|
  {
    SplitSize(WalksInto(arcs, v, t, k, ws), WalksInto(arcs, v, t, k, ws - {w}), WalksInto(arcs, v, t, k, {w}));
  }

  /** Walks with k + 1 hops, counted by their first hop. */
  lemma CountByFirstHop(arcs: set<Arc>, v: Node, t: Node, k: nat)
    ensures Count(arcs, v, t, k + 1) == Sum(Successors(arcs, v), w => Count(arcs, w, t, k))
  {
    CountInto(arcs, v, t, k, Successors(arcs, v));
    forall p | p in WalksOf(arcs, v, t, k + 1) ensures |p| == k + 2 && p[1] in Successors(arcs, v) {
      WalksOfAre(arcs, v, t, k + 1, p);
      assert p[0] == v && (p[0], p[1]) in arcs;
    }
    assert WalksOf(arcs, v, t, k + 1) == WalksInto(arcs, v, t, k, Successors(arcs, v));
  }

  // ---------------------------------------------------------------- none, some, and through a node

  lemma NoWalkNoCount(arcs: set<Arc>, s: Node, v: Node, k: nat)
    requires forall p :: Walk(arcs, s, v, p) ==> |p| != k + 1
    ensures Count(arcs, s, v, k) == 0
  {
    forall p ensures p !in WalksOf(arcs, s, v, k) {
      WalksOfAre(arcs, s, v, k, p);
    }
    assert WalksOf(arcs, s, v, k) == {};
  }

  lemma SomeWalkCounts(arcs: set<Arc>, s: Node, v: Node, k: nat, p: seq<Node>)
    requires Walk(arcs, s, v, p) && |p| == k + 1
    ensures Count(arcs, s, v, k) >= 1
  {
    WalksOfAre(arcs, s, v, k, p);
    assert p in WalksOf(arcs, s, v, k);
  }

  /** The walks from s to t with i + j hops that are at v after i hops. */
  ghost function WalksThrough(arcs: set<Arc>, s: Node, v: Node, t: Node, i: nat, j: nat): set<seq<Node>> {
    set p | p in WalksOf(arcs, s, t, i + j) && |p| == i + j + 1 && p[i] == v
  }

  /** The walks of ps whose first i hops are one of qs. */
  ghost function Beginning(ps: set<seq<Node>>, i: nat, qs: set<seq<Node>>): set<seq<Node>> {
    set p | p in ps && |p| > i && p[..i+1] in qs
  }

  lemma BeginningExtends(arcs: set<Arc>, s: Node, v: Node, t: Node, i: nat, j: nat, q: seq<Node>, r: seq<Node>)
    requires q in WalksOf(arcs, s, v, i) && r in WalksOf(arcs, v, t, j)
    ensures |q| == i + 1 && |r| > 0 && q + r[1..] in Beginning(WalksThrough(arcs, s, v, t, i, j), i, {q})
    ensures (q + r[1..])[i..] == r
  {
    WalksOfAre(arcs, s, v, i, q);
    WalksOfAre(arcs, v, t, j, r);
    WalkConcat(arcs, s, v, t, q, r);
    WalksOfAre(arcs, s, t, i + j, q + r[1..]);
    assert (q + r[1..])[..i+1] == q;
  }

  lemma BeginningCut(arcs: set<Arc>, s: Node, v: Node, t: Node, i: nat, j: nat, q: seq<Node>, p: seq<Node>)
    requires p in Beginning(WalksThrough(arcs, s, v, t, i, j), i, {q})
    ensures |p| > i && p[i..] in WalksOf(arcs, v, t, j) && q + p[i..][1..] == p
  {
    hide WalksOf;
    WalksOfAre(arcs, s, t, i + j, p);
    WalkFrom(arcs, s, t, p, i);
    WalksOfAre(arcs, v, t, j, p[i..]);
    CutAndJoin(p, i, q);
  }

  lemma WalkFrom(arcs: set<Arc>, s: Node, t: Node, p: seq<Node>, i: nat)
    requires Walk(arcs, s, t, p) && i < |p|
    ensures Walk(arcs, p[i], t, p[i..])
  {
  }

  lemma CutAndJoin(p: seq<Node>, i: nat, q: seq<Node>)
    requires i < |p| && q == p[..i+1]
    ensures q + p[i..][1..] == p
  {
    assert p == p[..i+1] + p[i+1..];
    assert p[i..][1..] == p[i+1..];
  }

  lemma CountBeginningOne(arcs: set<Arc>, s: Node, v: Node, t: Node, i: nat, j: nat, q: seq<Node>)
    requires q in WalksOf(arcs, s, v, i)
    ensures |Beginning(WalksThrough(arcs, s, v, t, i, j), i, {q})| == Count(arcs, v, t, j)
  {
    hide WalksOf, Beginning;
    var xs, ys := WalksOf(arcs, v, t, j), Beginning(WalksThrough(arcs, s, v, t, i, j), i, {q});
    forall r | r in xs ensures |q| == i + 1 && |r| > 0 && q + r[1..] in ys && (q + r[1..])[i..] == r {
      BeginningExtends(arcs, s, v, t, i, j, q, r);
    }
    forall p | p in ys ensures |p| > i && p[i..] in xs && q + p[i..][1..] == p {
      BeginningCut(arcs, s, v, t, i, j, q, p);
    }
    SameCount(xs, ys, (r: seq<Node>) => if |r| > 0 then q + r[1..] else r, (p: seq<Node>) => if |p| >= i then p[i..] else p);
  }

  lemma {:induction false} CountBeginning(arcs: set<Arc>, s: Node, v: Node, t: Node, i: nat, j: nat, qs: set<seq<Node>>)
    requires qs <= WalksOf(arcs, s, v, i)
    ensures |Beginning(WalksThrough(arcs, s, v, t, i, j), i, qs)| == |qs| * Count(arcs, v, t, j)
    decreases |qs|
  {
    if qs == {} {
      assert Beginning(WalksThrough(arcs, s, v, t, i, j), i, qs) == {};
    } else {
      var q :| q in qs;
      CountBeginning(arcs, s, v, t, i, j, qs - {q});
      CountBeginningOne(arcs, s, v, t, i, j, q);
      BeginningSplit(WalksThrough(arcs, s, v, t, i, j), i, qs, q);
      OneMore(|qs - {q}|, Count(arcs, v, t, j));
    }
  }

  lemma BeginningSplit(ps: set<seq<Node>>, i: nat, qs: set<seq<Node>>, q: seq<Node>)
    requires q in qs
    ensures |Beginning(ps, i, qs)| == |Beginning(ps, i, qs - {q})| + |Beginning(ps, i, {q})|
  {
    var rest, row := Beginning(ps, i, qs - {q}), Beginning(ps, i, {q});
    assert Beginning(ps, i, qs) == rest + row;
    assert rest !! row;
  }

  /** A walk through v is a walk to v and a walk on from v. */
  lemma CountThrough(arcs: set<Arc>, s: Node, v: Node, t: Node, i: nat, j: nat)
    ensures |WalksThrough(arcs, s, v, t, i, j)| == Count(arcs, s, v, i) * Count(arcs, v, t, j)
  {
    CountBeginning(arcs, s, v, t, i, j, WalksOf(arcs, s, v, i));
    forall p | p in WalksThrough(arcs, s, v, t, i, j) ensures p[..i+1] in WalksOf(arcs, s, v, i) {
      WalksOfAre(arcs, s, t, i + j, p);
      assert Walk(arcs, s, v, p[..i+1]);
      WalksOfAre(arcs, s, v, i, p[..i+1]);
    }
    assert WalksThrough(arcs, s, v, t, i, j) == Beginning(WalksThrough(arcs, s, v, t, i, j), i, WalksOf(arcs, s, v, i));
  }
}
