/** `_max_flow` of netlab/topology.py: breadth-first augmenting paths over a residual dictionary. */
module Flows {
  import opened Options
  import opened Walks
  import opened Sums

  /** A dictionary of dictionaries; a missing entry counts as 0. */
  type Network = map<Node, map<Node, int>>

  function Get(c: Network, u: Node, v: Node): int {
    if u in c && v in c[u] then c[u][v] else 0
  }

  /** `c[u][v] = x` on a defaultdict of dictionaries. */
  function Put(c: Network, u: Node, v: Node, x: int): (r: Network)
    ensures forall a, b :: Get(r, a, b) == if a == u && b == v then x else Get(c, a, b)
    ensures r.Keys == c.Keys + {u}
    ensures forall a, b :: a in r && b in r[a] <==> (a in c && b in c[a]) || (a == u && b == v)
  {
    c[u := (if u in c then c[u] else map[])[v := x]]
  }

  function Vertices(c: Network): set<Node> {
    c.Keys + set u, v | u in c && v in c[u] :: v
  }

  ghost predicate NonNegative(c: Network) {
    forall u, v :: Get(c, u, v) >= 0
  }

  // ---------------------------------------------------------------- flows and cuts

  /** What leaves u minus what enters it. */
  ghost function Net(vs: set<Node>, f: Network, u: Node): int {
    Sum(vs, v => Get(f, u, v) - Get(f, v, u))
  }

  /** f is a feasible flow from s to t carrying k units. */
  ghost predicate FlowOfValue(c: Network, s: Node, t: Node, f: Network, k: int) {
    var vs := Vertices(c) + {s, t};
    && (forall u, v :: 0 <= Get(f, u, v) <= Get(c, u, v))
    && (forall u :: u in vs && u != s && u != t ==> Net(vs, f, u) == 0)
    && Net(vs, f, s) == k
  }

  /** The capacity of the arcs that leave side. */
  ghost function Crossing(c: Network, side: set<Node>, rest: set<Node>): int {
    Sum(side, u => Sum(rest, v => Get(c, u, v)))
  }

  /** side separates s from t, and its outgoing arcs have capacity k in all. */
  ghost predicate CutOfCapacity(c: Network, s: Node, t: Node, side: set<Node>, k: int) {
    var vs := Vertices(c) + {s, t};
    && side <= vs && s in side && t !in side
    && Crossing(c, side, vs - side) == k
  }

  lemma AntisymmetricSum(side: set<Node>, g: (Node, Node) -> int)
    requires forall u, v :: g(u, v) == -g(v, u)
    ensures Sum(side, u => Sum(side, v => g(u, v))) == 0
  {
    var a := Sum(side, u => Sum(side, v => g(u, v)));
    SumSwap(side, side, g);
    forall v | v in side ensures Sum(side, u => g(u, v)) == 0 - Sum(side, u => g(v, u)) {
      SumAdd(side, u => g(u, v), u => g(v, u));
      SumSame(side, u => (x => g(x, v))(u) + (x => g(v, x))(u), u => 0);
      SumZero(side);
    }
    SumAdd(side, v => Sum(side, u => g(u, v)), v => Sum(side, u => g(v, u)));
    SumSame(side, v => (y => Sum(side, u => g(u, y)))(v) + (y => Sum(side, u => g(y, u)))(v), v => 0);
    SumZero(side);
  }

  /** What the source sends out crosses every cut. */
  lemma NetAcross(vs: set<Node>, side: set<Node>, s: Node, g: (Node, Node) -> int)
    requires side <= vs && s in side
    requires forall u, v :: g(u, v) == -g(v, u)
    requires forall u :: u in side && u != s ==> Sum(vs, v => g(u, v)) == 0
    ensures Sum(vs, v => g(s, v)) == Sum(side, u => Sum(vs - side, v => g(u, v)))
  {
    var total := u => Sum(vs, v => g(u, v));
    SumTake(side, total, s);
    SumSame(side - {s}, total, u => 0);
    SumZero(side - {s});
    forall u | u in side
      ensures total(u) == Sum(side, v => g(u, v)) + Sum(vs - side, v => g(u, v))
    {
      SumSplit(vs, side, v => g(u, v));
    }
    AntisymmetricSum(side, g);
    SumAdd(side, u => Sum(side, v => g(u, v)), u => Sum(vs - side, v => g(u, v)));
    SumSame(side, total,
            u => (x => Sum(side, v => g(x, v)))(u) + (x => Sum(vs - side, v => g(x, v)))(u));
  }

  /** No flow carries more than any cut lets through. */
  lemma WeakDuality(c: Network, s: Node, t: Node, f: Network, k: int, side: set<Node>, m: int)
    requires FlowOfValue(c, s, t, f, k) && CutOfCapacity(c, s, t, side, m)
    ensures k <= m
  {
    var vs := Vertices(c) + {s, t};
    var g := (u, v) => Get(f, u, v) - Get(f, v, u);
    forall u ensures Net(vs, f, u) == Sum(vs, v => g(u, v)) {
      SumSame(vs, v => Get(f, u, v) - Get(f, v, u), v => g(u, v));
    }
    NetAcross(vs, side, s, g);
    forall u | u in side
      ensures Sum(vs - side, v => g(u, v)) <= Sum(vs - side, v => Get(c, u, v))
    {
      SumAtMost(vs - side, v => g(u, v), v => Get(c, u, v));
    }
    SumAtMost(side, u => Sum(vs - side, v => g(u, v)), u => Sum(vs - side, v => Get(c, u, v)));
  }

  // ---------------------------------------------------------------- the residual network

  /** Entries come in pairs: res[u][v] exists exactly when res[v][u] does. */
  ghost predicate Paired(res: Network) {
    forall u, v :: u in res && v in res[u] ==> v in res && u in res[v]
  }

  /** res is a residual network of c in which total units have been sent from s to t. */
  ghost predicate Residual(c: Network, res: Network, s: Node, t: Node, total: int) {
    var vs := Vertices(c) + {s, t};
    && res.Keys <= Vertices(c)
    && Paired(res)
    && NonNegative(res)
    && (forall u, v :: Get(res, u, v) + Get(res, v, u) == Get(c, u, v) + Get(c, v, u))
    && (forall u :: u in vs && u != s && u != t ==> Sent(c, res, vs, u) == 0)
    && Sent(c, res, vs, s) == total
  }

  /** The net amount that leaves u in the flow that res stands for. */
  ghost function Sent(c: Network, res: Network, vs: set<Node>, u: Node): int {
    Sum(vs, v => Get(c, u, v) - Get(res, u, v))
  }

  /** The keys of `residual.get(node, {})`. */
  function Entries(res: Network, u: Node): set<Node> {
    if u in res then res[u].Keys else {}
  }

  /** Setting one entry and making sure of its reverse keeps the entries paired. */
  lemma PutPair(res: Network, u: Node, v: Node, x: int)
    requires Paired(res)
    ensures var r := Put(res, u, v, x);
            var q := Put(r, v, u, Get(r, v, u));
            && Paired(q) && q.Keys == res.Keys + {u, v}
            && forall a, b :: Get(q, a, b) == if a == u && b == v then x else Get(res, a, b)
  {
  }

  method InitResidual(capacity: Network) returns (residual: Network)
    ensures residual.Keys <= Vertices(capacity)
    ensures Paired(residual)
    ensures forall u, v :: Get(residual, u, v) == Get(capacity, u, v)
  {
    residual := map[];
    var outer := capacity.Keys;
    ghost var done: set<Arc> := {};
    while outer != {}
      invariant outer <= capacity.Keys
      invariant forall u, v :: (u, v) in done <==> u in capacity && v in capacity[u] && u !in outer
      invariant residual.Keys <= Vertices(capacity)
      invariant Paired(residual)
      invariant forall u, v :: Get(residual, u, v) == if (u, v) in done then capacity[u][v] else 0
    {
      var node :| node in outer;
      outer := outer - {node};
      var inner := capacity[node].Keys;
      while inner != {}
        invariant inner <= capacity[node].Keys
        invariant forall u, v :: (u, v) in done <==>
                    u in capacity && v in capacity[u] && u !in outer && (u == node ==> v !in inner)
        invariant residual.Keys <= Vertices(capacity)
        invariant Paired(residual)
        invariant forall u, v :: Get(residual, u, v) == if (u, v) in done then capacity[u][v] else 0
      {
        hide Paired, Put, Get;
        var nxt :| nxt in inner;
        inner := inner - {nxt};
        PutPair(residual, node, nxt, capacity[node][nxt]);
        residual := Put(residual, node, nxt, capacity[node][nxt]);
        residual := Put(residual, nxt, node, Get(residual, nxt, node));
        done := done + {(node, nxt)};
      }
    }
  }

  // ---------------------------------------------------------------- breadth-first search

  ghost predicate HasParent(res: Network, parent: map<Node, Option<Node>>, rank: map<Node, nat>, n: Node)
    requires parent.Keys == rank.Keys && n in parent
  {
    && parent[n].Some? && parent[n].value in parent
    && rank[parent[n].value] < rank[n]
    && Get(res, parent[n].value, n) > 0
  }

  /** Every entry but the source's names an entry of smaller rank, one open residual arc away. */
  ghost predicate ParentTree(res: Network, s: Node, parent: map<Node, Option<Node>>, rank: map<Node, nat>) {
    && s in parent && parent[s] == None
    && parent.Keys == rank.Keys
    && forall n {:trigger HasParent(res, parent, rank, n)} ::
         n in parent && n != s ==> HasParent(res, parent, rank, n)
  }

  lemma Discover(res: Network, s: Node, parent: map<Node, Option<Node>>, rank: map<Node, nat>,
                 node: Node, nxt: Node)
    requires ParentTree(res, s, parent, rank)
    requires node in parent && nxt !in parent && Get(res, node, nxt) > 0
    ensures ParentTree(res, s, parent[nxt := Some(node)], rank[nxt := rank[node] + 1])
  {
    forall n | n in parent && n != s
      ensures HasParent(res, parent[nxt := Some(node)], rank[nxt := rank[node] + 1], n)
    {
      assert HasParent(res, parent, rank, n);
    }
  }

  /** p follows the parent entries backwards from its end to s. */
  ghost predicate Chain(res: Network, s: Node, parent: map<Node, Option<Node>>, p: seq<Node>) {
    && |p| > 0 && p[0] == s && Distinct(p)
    && (forall i :: 0 <= i < |p| ==> p[i] in parent)
    && parent[s] == None
    && forall i :: 0 < i < |p| ==> parent[p[i]] == Some(p[i-1]) && Get(res, p[i-1], p[i]) > 0
  }

  lemma {:induction false} ChainTo(res: Network, s: Node, parent: map<Node, Option<Node>>,
                                   rank: map<Node, nat>, n: Node) returns (p: seq<Node>)
    requires ParentTree(res, s, parent, rank) && n in parent
    ensures Chain(res, s, parent, p) && p[|p|-1] == n
    ensures forall i :: 0 <= i < |p| ==> rank[p[i]] <= rank[n]
    decreases rank[n]
  {
    if n == s {
      p := [s];
    } else {
      assert HasParent(res, parent, rank, n);
      var q := ChainTo(res, s, parent, rank, parent[n].value);
      p := q + [n];
    }
  }

  /** The inner loop of the search: every open residual arc out of node is followed. */
  method Scan(residual: Network, node: Node, source: Node, parent0: map<Node, Option<Node>>,
              queue0: seq<Node>, ghost rank0: map<Node, nat>)
    returns (parent: map<Node, Option<Node>>, queue: seq<Node>, ghost rank: map<Node, nat>)
    requires ParentTree(residual, source, parent0, rank0) && node in parent0
    ensures ParentTree(residual, source, parent, rank)
    ensures parent0.Keys <= parent.Keys <= parent0.Keys + Entries(residual, node)
    ensures forall v :: Get(residual, node, v) > 0 ==> v in parent
    ensures queue0 <= queue && (parent.Keys == parent0.Keys ==> queue == queue0)
    ensures forall n :: n in queue ==> n in queue0 || n in parent
    ensures forall n :: n in parent ==> n in queue || n in parent0
  {
    parent, queue, rank := parent0, queue0, rank0;
    var items := Entries(residual, node);
    while items != {}
      invariant items <= Entries(residual, node)
      invariant ParentTree(residual, source, parent, rank)
      invariant parent0.Keys <= parent.Keys <= parent0.Keys + Entries(residual, node)
      invariant forall v :: Get(residual, node, v) > 0 && v !in items ==> v in parent
      invariant queue0 <= queue && (parent.Keys == parent0.Keys ==> queue == queue0)
      invariant forall n :: n in queue ==> n in queue0 || n in parent
      invariant forall n :: n in parent ==> n in queue || n in parent0
    {
      var nxt :| nxt in items;
      items := items - {nxt};
      if residual[node][nxt] > 0 && nxt !in parent {
        Discover(residual, source, parent, rank, node, nxt);
        parent := parent[nxt := Some(node)];
        rank := rank[nxt := rank[node] + 1];
        queue := queue + [nxt];
      }
    }
  }

  lemma EntriesKnown(res: Network, n: Node)
    requires Paired(res)
    ensures Entries(res, n) <= res.Keys
  {
  }

  method Search(residual: Network, source: Node, sink: Node)
    returns (parent: map<Node, Option<Node>>, ghost route: seq<Node>)
    requires Paired(residual)
    ensures source in parent && parent.Keys <= residual.Keys + {source}
    ensures sink in parent ==> Chain(residual, source, parent, route) && route[|route|-1] == sink
    ensures sink !in parent ==> forall u, v :: u in parent && Get(residual, u, v) > 0 ==> v in parent
  {
    parent := map[source := None];
    var queue := [source];
    ghost var rank: map<Node, nat> := map[source := 0];
    ghost var expanded: set<Node> := {};
    ghost var all := residual.Keys + {source};
    while queue != [] && sink !in parent
      invariant parent.Keys <= all
      invariant ParentTree(residual, source, parent, rank)
      invariant forall n :: n in queue ==> n in parent
      invariant forall n :: n in parent ==> n in queue || n in expanded
      invariant forall u, v :: u in expanded && Get(residual, u, v) > 0 ==> v in parent
      decreases all - parent.Keys, |queue|
    {
      hide ParentTree, Paired, Chain;
      var node := queue[0];
      assert queue == [node] + queue[1..];
      EntriesKnown(residual, node);
      parent, queue, rank := Scan(residual, node, source, parent, queue[1..], rank);
      expanded := expanded + {node};
    }
    if sink in parent {
      route := ChainTo(residual, source, parent, rank, sink);
    } else {
      route := [];
    }
  }

  // ---------------------------------------------------------------- augmentation

  function Pushed(res: Network, u: Node, v: Node, amount: int): (r: Network)
    requires u != v
    ensures Get(r, u, v) == Get(res, u, v) - amount && Get(r, v, u) == Get(res, v, u) + amount
    ensures forall a, b :: !(a == u && b == v) && !(a == v && b == u) ==> Get(r, a, b) == Get(res, a, b)
  {
    Put(Put(res, u, v, Get(res, u, v) - amount), v, u, Get(res, v, u) + amount)
  }

  /** Pushing along u -> v changes what u and v send and nothing else. */
  lemma PushedSent(c: Network, res: Network, vs: set<Node>, u: Node, v: Node, amount: int, n: Node)
    requires u != v && u in vs && v in vs
    ensures Sent(c, Pushed(res, u, v, amount), vs, n)
         == Sent(c, res, vs, n) + (if n == u then amount else if n == v then -amount else 0)
  {
    var r := Pushed(res, u, v, amount);
    SumChange(vs, x => Get(c, n, x) - Get(res, n, x), x => Get(c, n, x) - Get(r, n, x),
              if n == u then v else u);
  }

  /** amount units have left s along the discovered route but only reached node. */
  ghost predicate Midway(c: Network, res: Network, s: Node, t: Node, total: int, node: Node, amount: int) {
    var vs := Vertices(c) + {s, t};
    && res.Keys <= Vertices(c)
    && Paired(res)
    && NonNegative(res)
    && (forall u, v :: Get(res, u, v) + Get(res, v, u) == Get(c, u, v) + Get(c, v, u))
    && forall u :: u in vs && u != t ==>
         Sent(c, res, vs, u) == (if u == s then total else 0) + (if u == node then amount else 0)
  }

  lemma PushedShape(res: Network, u: Node, v: Node, amount: int)
    requires Paired(res) && NonNegative(res)
    requires u != v && u in res && v in res[u] && 0 < amount <= res[u][v]
    ensures Paired(Pushed(res, u, v, amount)) && NonNegative(Pushed(res, u, v, amount))
    ensures Pushed(res, u, v, amount).Keys == res.Keys
  {
  }

  lemma PushBack(c: Network, res: Network, s: Node, t: Node, total: int, u: Node, v: Node, amount: int)
    requires Midway(c, res, s, t, total, v, amount)
    requires u != v && u != t && 0 < amount <= Get(res, u, v)
    ensures Midway(c, Pushed(res, u, v, amount), s, t, total, u, amount)
  {
    var vs := Vertices(c) + {s, t};
    PushedShape(res, u, v, amount);
    assert u in res && v in res;
    forall n | n in vs && n != t
      ensures Sent(c, Pushed(res, u, v, amount), vs, n) == (if n == s then total else 0) + (if n == u then amount else 0)
    {
      PushedSent(c, res, vs, u, v, amount, n);
    }
  }

  /** The increment a walk back starts from, 10**9. */
  const UNBOUNDED := 1000000000

  method Bottleneck(residual: Network, source: Node, sink: Node,
                    parent: map<Node, Option<Node>>, ghost route: seq<Node>) returns (increment: int)
    requires Chain(residual, source, parent, route) && route[|route|-1] == sink
    ensures increment > 0 && (|route| == 1 ==> increment == UNBOUNDED)
    ensures forall i :: 0 < i < |route| ==> increment <= Get(residual, route[i-1], route[i])
  {
    increment := UNBOUNDED;
    var node := sink;
    ghost var k := |route| - 1;
    while parent[node] != None
      invariant 0 <= k < |route| && node == route[k]
      invariant parent[node] == if k == 0 then None else Some(route[k-1])
      invariant increment > 0 && (|route| == 1 ==> increment == UNBOUNDED)
      invariant forall i :: k < i < |route| ==> increment <= Get(residual, route[i-1], route[i])
      decreases k
    {
      var previous := parent[node].value;
      assert Get(residual, previous, node) > 0;
      increment := if residual[previous][node] < increment then residual[previous][node] else increment;
      node, k := previous, k - 1;
    }
  }

  /** Pushing along one hop of a simple route leaves the hops before it alone. */
  lemma RouteUntouched(res: Network, route: seq<Node>, k: nat, amount: int)
    requires Distinct(route) && 0 < k < |route|
    ensures forall i :: 0 < i < k ==>
              Get(Pushed(res, route[k-1], route[k], amount), route[i-1], route[i]) == Get(res, route[i-1], route[i])
  {
  }

  /** The second walk back along the parent entries, which updates the residual capacities. */
  method PushRoute(residual0: Network, source: Node, sink: Node, parent: map<Node, Option<Node>>,
                   increment: int, ghost route: seq<Node>, ghost c: Network, ghost total: int)
    returns (residual: Network)
    requires increment > 0
    requires source != sink ==> Midway(c, residual0, source, sink, total, sink, 0)
    requires Chain(residual0, source, parent, route) && route[|route|-1] == sink
    requires forall i :: 0 < i < |route| ==> increment <= Get(residual0, route[i-1], route[i])
    ensures source != sink ==> Midway(c, residual, source, sink, total, source, increment)
    ensures source == sink ==> residual == residual0
  {
    residual := residual0;
    var node := sink;
    ghost var k := |route| - 1;
    while parent[node] != None
      invariant 0 <= k < |route| && node == route[k]
      invariant parent[node] == if k == 0 then None else Some(route[k-1])
      invariant source != sink ==> Midway(c, residual, source, sink, total, node, if node == sink then 0 else increment)
      invariant source == sink ==> k == 0 && residual == residual0
      invariant forall i :: 0 < i <= k ==> Get(residual, route[i-1], route[i]) == Get(residual0, route[i-1], route[i])
      decreases k
    {
      var previous := parent[node].value;
      RouteUntouched(residual, route, k, increment);
      PushBack(c, residual, source, sink, total, previous, node, increment);
      residual := Pushed(residual, previous, node, increment);
      node, k := previous, k - 1;
    }
  }

  method Augment(residual0: Network, source: Node, sink: Node, parent: map<Node, Option<Node>>,
                 ghost route: seq<Node>, ghost c: Network, ghost total: int)
    returns (residual: Network, increment: int)
    requires source != sink ==> Residual(c, residual0, source, sink, total)
    requires Chain(residual0, source, parent, route) && route[|route|-1] == sink
    ensures increment > 0 && (source != sink ==> Residual(c, residual, source, sink, total + increment))
    ensures source == sink ==> residual == residual0 && increment == UNBOUNDED
  {
    increment := Bottleneck(residual0, source, sink, parent, route);
    residual := PushRoute(residual0, source, sink, parent, increment, route, c, total);
  }

  // ---------------------------------------------------------------- the loop

  /** The flow a residual network stands for. */
  ghost function FlowOf(c: Network, res: Network): Network {
    map u | u in c :: map v | v in c[u] :: if Get(c, u, v) > Get(res, u, v) then Get(c, u, v) - Get(res, u, v) else 0
  }

  lemma FlowOfIsFlow(c: Network, res: Network, s: Node, t: Node, total: int)
    requires NonNegative(c) && Residual(c, res, s, t, total)
    ensures FlowOfValue(c, s, t, FlowOf(c, res), total)
  {
    var vs, f := Vertices(c) + {s, t}, FlowOf(c, res);
    forall u, v
      ensures Get(f, u, v) - Get(f, v, u) == Get(c, u, v) - Get(res, u, v)
      ensures 0 <= Get(f, u, v) <= Get(c, u, v)
    {
      assert Get(res, u, v) + Get(res, v, u) == Get(c, u, v) + Get(c, v, u);
      assert Get(res, u, v) >= 0 && Get(res, v, u) >= 0 && Get(c, u, v) >= 0 && Get(c, v, u) >= 0;
    }
    forall u ensures Net(vs, f, u) == Sent(c, res, vs, u) {
      SumSame(vs, v => Get(f, u, v) - Get(f, v, u), v => Get(c, u, v) - Get(res, u, v));
    }
  }

  /** A set that no open residual arc leaves is a cut the flow fills. */
  lemma SaturatedCut(c: Network, res: Network, s: Node, t: Node, total: int, side: set<Node>)
    requires Residual(c, res, s, t, total)
    requires side <= Vertices(c) + {s, t} && s in side && t !in side
    requires forall u, v :: u in side && Get(res, u, v) > 0 ==> v in side
    ensures CutOfCapacity(c, s, t, side, total)
  {
    var vs := Vertices(c) + {s, t};
    var g := (u, v) => Get(c, u, v) - Get(res, u, v);
    forall u, v ensures g(u, v) == -g(v, u) {
      assert Get(res, u, v) + Get(res, v, u) == Get(c, u, v) + Get(c, v, u);
    }
    forall u ensures Sent(c, res, vs, u) == Sum(vs, v => g(u, v)) {
      SumSame(vs, v => Get(c, u, v) - Get(res, u, v), v => g(u, v));
    }
    NetAcross(vs, side, s, g);
    forall u | u in side
      ensures Sum(vs - side, v => g(u, v)) == Sum(vs - side, v => Get(c, u, v))
    {
      forall v | v in vs - side ensures g(u, v) == Get(c, u, v) {
        assert Get(res, u, v) >= 0;
      }
      SumSame(vs - side, v => g(u, v), v => Get(c, u, v));
    }
    SumSame(side, u => Sum(vs - side, v => g(u, v)), u => Sum(vs - side, v => Get(c, u, v)));
  }

  /** The capacity out of the source bounds what has been sent. */
  lemma SentBounded(c: Network, res: Network, s: Node, t: Node, total: int)
    requires Residual(c, res, s, t, total)
    ensures total <= Sum(Vertices(c) + {s, t}, v => Get(c, s, v))
  {
    var vs := Vertices(c) + {s, t};
    forall v ensures Get(c, s, v) - Get(res, s, v) <= Get(c, s, v) {
      assert Get(res, s, v) >= 0;
    }
    SumAtMost(vs, v => Get(c, s, v) - Get(res, s, v), v => Get(c, s, v));
  }

  /** What has been sent is at most the capacity of any cut. */
  lemma SentWithinCut(c: Network, res: Network, s: Node, t: Node, total: int, side: set<Node>, k: int)
    requires NonNegative(c) && Residual(c, res, s, t, total) && CutOfCapacity(c, s, t, side, k)
    ensures total <= k
  {
    FlowOfIsFlow(c, res, s, t, total);
    WeakDuality(c, s, t, FlowOf(c, res), total, side, k);
  }

  /** The residual network before the first round stands for the empty flow. */
  lemma NothingSent(c: Network, res: Network, s: Node, t: Node)
    requires NonNegative(c) && Paired(res) && res.Keys <= Vertices(c) && forall u, v :: Get(res, u, v) == Get(c, u, v)
    ensures Residual(c, res, s, t, 0)
  {
    var vs := Vertices(c) + {s, t};
    forall u ensures Sent(c, res, vs, u) == 0 {
      SumSame(vs, v => Get(c, u, v) - Get(res, u, v), v => 0);
      SumZero(vs);
    }
  }

  /** One round of the loop: a search, and an augmentation unless the sink was not found. */
  method Round(residual0: Network, source: Node, sink: Node, ghost c: Network, ghost total: int)
    returns (found: bool, residual: Network, increment: int)
    requires NonNegative(c) && Paired(residual0)
    requires source != sink ==> Residual(c, residual0, source, sink, total)
    ensures Paired(residual)
    ensures source == sink ==> found && residual == residual0 && increment == UNBOUNDED
    ensures source != sink && found ==> increment > 0 && Residual(c, residual, source, sink, total + increment)
    ensures !found ==> source != sink && Maximal(c, source, sink, total)
  {
    var parent, route := Search(residual0, source, sink);
    found := sink in parent;
    residual, increment := residual0, 0;
    if found {
      residual, increment := Augment(residual0, source, sink, parent, route, c, total);
    } else {
      SaturatedCut(c, residual0, source, sink, total, parent.Keys);
      FlowOfIsFlow(c, residual0, source, sink, total);
    }
  }

  /** total is the value of a feasible flow and the capacity of a cut. */
  ghost predicate Maximal(c: Network, s: Node, t: Node, total: int) {
    (exists f :: FlowOfValue(c, s, t, f, total)) && exists side :: CutOfCapacity(c, s, t, side, total)
  }

  /** `_max_flow`, for different ends. */
  method MaxFlow(capacity: Network, source: Node, sink: Node) returns (total: int)
    requires NonNegative(capacity) && source != sink
    ensures Maximal(capacity, source, sink, total)
  {
    var residual := InitResidual(capacity);
    NothingSent(capacity, residual, source, sink);
    total := 0;
    ghost var vs := Vertices(capacity) + {source, sink};
    var found := true;
    while found
      invariant found ==> Residual(capacity, residual, source, sink, total)
      invariant !found ==> Maximal(capacity, source, sink, total)
      decreases found, Sum(vs, v => Get(capacity, source, v)) - total
    {
      var increment;
      SentBounded(capacity, residual, source, sink, total);
      found, residual, increment := Round(residual, source, sink, capacity, total);
      if found {
        total := total + increment;
        SentBounded(capacity, residual, source, sink, total);
      }
    }
  }

  /** The first rounds of `_max_flow`, for any ends; left says whether the loop was left in one of them. With equal
      ends it never is, every round adding the same amount again; with different ends it is as soon as there are more
      rounds than some cut has capacity. */
  method MaxFlowRounds(capacity: Network, source: Node, sink: Node, rounds: nat) returns (left: bool, total: int)
    requires NonNegative(capacity)
    ensures source == sink ==> !left && total == rounds * UNBOUNDED
    ensures left ==> Maximal(capacity, source, sink, total)
    ensures source != sink ==> forall side, k :: CutOfCapacity(capacity, source, sink, side, k) && k < rounds ==> left
  {
    var residual := InitResidual(capacity);
    NothingSent(capacity, residual, source, sink);
    left, total := false, 0;
    for n := 0 to rounds
      invariant !left && Paired(residual)
      invariant source == sink ==> total == n * UNBOUNDED
      invariant source != sink ==> total >= n && Residual(capacity, residual, source, sink, total)
    {
      var found, increment;
      found, residual, increment := Round(residual, source, sink, capacity, total);
      if !found {
        return true, total;
      }
      total := total + increment;
    }
    if source != sink {
      forall side, k | CutOfCapacity(capacity, source, sink, side, k) ensures rounds <= k {
        SentWithinCut(capacity, residual, source, sink, total, side, k);
      }
    }
  }

  /** The two clauses of MaxFlow determine the result: it is the largest value of any flow. */
  lemma MaxFlowIsLargest(c: Network, s: Node, t: Node, total: int, f: Network, k: int)
    requires exists side :: CutOfCapacity(c, s, t, side, total)
    requires FlowOfValue(c, s, t, f, k)
    ensures k <= total
  {
    var side :| CutOfCapacity(c, s, t, side, total);
    WeakDuality(c, s, t, f, k, side, total);
  }
}
