/** plugins/controllers/latency_aware_routing.py: Dijkstra's algorithm with lazy deletion.

    The heap is a bag from which some entry of least cost is taken; ties are broken arbitrarily.
 */
module LatencyRouting {
  import opened Options
  import opened Walks
  import opened Routes

  /** A link record; feasible stands for link.get("feasible", link.get("link_ok", False)). */
  datatype Link = Link(src: Node, dst: Node, feasible: bool, delay: real)

  type Queue = multiset<(real, Node)>

  /** max(0.0, delay + penalty) */
  function Weight(link: Link, penalty: real): real {
    if link.delay + penalty > 0.0 then link.delay + penalty else 0.0
  }

  /** The feasible links with their weights. */
  ghost function Hops(links: seq<Link>, penalty: real): set<Hop> {
    set l | l in links && l.feasible :: (l.src, l.dst, Weight(l, penalty))
  }

  // ---------------------------------------------------------------- routes

  ghost function Cost(chain: seq<Hop>): real {
    if chain == [] then 0.0 else chain[0].2 + Cost(chain[1..])
  }

  ghost predicate NonNegative(hops: set<Hop>) {
    forall h :: h in hops ==> h.2 >= 0.0
  }

  lemma {:induction false} CostNonNegative(hops: set<Hop>, u: Node, v: Node, chain: seq<Hop>)
    requires NonNegative(hops) && Chain(hops, u, v, chain)
    ensures Cost(chain) >= 0.0
    decreases |chain|
  {
    if chain != [] {
      CostNonNegative(hops, chain[0].1, v, chain[1..]);
    }
  }

  // ---------------------------------------------------------------- the state of the search

  /** v was last improved over a hop from its parent, which had been settled. */
  ghost predicate Linked(hops: set<Hop>, distance: map<Node, real>, parent: map<Node, Node>, order: seq<Node>, v: Node) {
    && v in distance && v in parent && parent[v] in distance && Before(order, parent[v], v)
    && (parent[v], v, distance[v] - distance[parent[v]]) in hops
  }

  /** A queued cost is never below the label, and above it once the node is settled. */
  ghost predicate Queued(distance: map<Node, real>, order: seq<Node>, queue: Queue, floor: real, e: (real, Node)) {
    && queue[e] == 1 && e.1 in distance && floor <= e.0 && distance[e.1] <= e.0
    && (e.1 in order ==> distance[e.1] < e.0)
  }

  /** A label is final, or waits in the queue. */
  ghost predicate Labelled(distance: map<Node, real>, order: seq<Node>, queue: Queue, floor: real, v: Node) {
    && v in distance && distance[v] >= 0.0
    && (v in order ==> distance[v] <= floor)
    && (v !in order ==> (distance[v], v) in queue)
  }

  ghost predicate Relaxed(distance: map<Node, real>, order: seq<Node>, exempt: set<Hop>, h: Hop) {
    h.0 in order && h !in exempt ==> h.0 in distance && h.1 in distance && distance[h.1] <= distance[h.0] + h.2
  }

  /** order lists the settled nodes; their hops have been followed, except those in exempt. */
  ghost predicate State(hops: set<Hop>, s: Node, distance: map<Node, real>, parent: map<Node, Node>, queue: Queue,
                        order: seq<Node>, floor: real, exempt: set<Hop>) {
    && s in distance && distance[s] == 0.0 && s !in parent && floor >= 0.0
    && NodeSet(order) <= distance.Keys && Distinct(order)
    && (forall v {:trigger Linked(hops, distance, parent, order, v)} ::
          v in distance && v != s ==> Linked(hops, distance, parent, order, v))
    && (forall e {:trigger Queued(distance, order, queue, floor, e)} :: e in queue ==> Queued(distance, order, queue, floor, e))
    && (forall v {:trigger Labelled(distance, order, queue, floor, v)} ::
          v in distance ==> Labelled(distance, order, queue, floor, v))
    && (forall h {:trigger Relaxed(distance, order, exempt, h)} :: h in hops ==> Relaxed(distance, order, exempt, h))
  }

  ghost predicate LeastEntry(queue: Queue, e: (real, Node)) {
    e in queue && forall x :: x in queue ==> e.0 <= x.0
  }

  lemma InitialState(hops: set<Hop>, s: Node)
    ensures State(hops, s, map[s := 0.0], map[], multiset{(0.0, s)}, [], 0.0, {})
  {
  }

  /** `if cost != distance.get(node): continue` */
  lemma PopStale(hops: set<Hop>, s: Node, distance: map<Node, real>, parent: map<Node, Node>, queue: Queue,
                 order: seq<Node>, floor: real, e: (real, Node))
    requires State(hops, s, distance, parent, queue, order, floor, {}) && LeastEntry(queue, e)
    requires e.1 !in distance || e.0 != distance[e.1]
    ensures State(hops, s, distance, parent, queue - multiset{e}, order, e.0, {})
  {
    var rest := queue - multiset{e};
    assert Queued(distance, order, queue, floor, e);
    forall x | x in rest ensures Queued(distance, order, rest, e.0, x) {
      assert Queued(distance, order, queue, floor, x);
    }
    forall v | v in distance ensures Labelled(distance, order, rest, e.0, v) {
      assert Labelled(distance, order, queue, floor, v);
    }
  }

  /** The entry taken off the queue is current: its node is settled. */
  lemma PopSettle(hops: set<Hop>, s: Node, distance: map<Node, real>, parent: map<Node, Node>, queue: Queue,
                  order: seq<Node>, floor: real, e: (real, Node))
    requires State(hops, s, distance, parent, queue, order, floor, {}) && LeastEntry(queue, e)
    requires e.1 in distance && e.0 == distance[e.1]
    ensures e.1 !in order
    ensures State(hops, s, distance, parent, queue - multiset{e}, order + [e.1], e.0, HopsFrom(hops, e.1))
  {
    var rest, node, order' := queue - multiset{e}, e.1, order + [e.1];
    assert Queued(distance, order, queue, floor, e);
    assert Labelled(distance, order, queue, floor, node);
    forall x | x in rest ensures Queued(distance, order', rest, e.0, x) {
      assert Queued(distance, order, queue, floor, x);
    }
    forall v | v in distance ensures Labelled(distance, order', rest, e.0, v) {
      assert Labelled(distance, order, queue, floor, v);
    }
    forall v | v in distance && v != s ensures Linked(hops, distance, parent, order', v) {
      assert Linked(hops, distance, parent, order, v);
      BeforeMore(order, parent[v], v, node);
    }
    forall h | h in hops ensures Relaxed(distance, order', HopsFrom(hops, node), h) {
      assert Relaxed(distance, order, {}, h);
    }
    assert NodeSet(order') == NodeSet(order) + {node};
  }

  /** A hop that improves nothing has been followed. */
  lemma Keep(hops: set<Hop>, s: Node, distance: map<Node, real>, parent: map<Node, Node>, queue: Queue,
             order: seq<Node>, floor: real, exempt: set<Hop>, h: Hop)
    requires State(hops, s, distance, parent, queue, order, floor, exempt)
    requires h.0 in distance && h.1 in distance && distance[h.1] <= distance[h.0] + h.2
    ensures State(hops, s, distance, parent, queue, order, floor, exempt - {h})
  {
    forall x | x in hops ensures Relaxed(distance, order, exempt - {h}, x) {
      assert Relaxed(distance, order, exempt, x);
    }
  }

  /** Only unsettled nodes are improved, and the new entry is new. */
  lemma Improvable(hops: set<Hop>, s: Node, distance: map<Node, real>, parent: map<Node, Node>, queue: Queue,
                   order: seq<Node>, floor: real, exempt: set<Hop>, h: Hop)
    requires State(hops, s, distance, parent, queue, order, floor, exempt)
    requires h.2 >= 0.0 && h.0 in order && h.0 in distance && distance[h.0] == floor
    requires h.1 in distance ==> floor + h.2 < distance[h.1]
    ensures h.1 !in order && h.1 != h.0 && h.1 != s && (floor + h.2, h.1) !in queue
  {
    var e := (floor + h.2, h.1);
    assert h.1 in distance ==> Labelled(distance, order, queue, floor, h.1);
    assert h.1 in order ==> h.1 in NodeSet(order);
    assert e in queue ==> Queued(distance, order, queue, floor, e);
  }

  lemma LinkedAfter(hops: set<Hop>, distance: map<Node, real>, parent: map<Node, Node>, order: seq<Node>, h: Hop, d: real, x: Node)
    requires h.1 !in order && h.1 != h.0
    requires x != h.1 ==> Linked(hops, distance, parent, order, x)
    requires x == h.1 ==> h in hops && order != [] && h.0 == order[|order|-1] && h.0 in distance && d == distance[h.0] + h.2
    ensures Linked(hops, distance[h.1 := d], parent[h.1 := h.0], order, x)
  {
    if x == h.1 {
      assert order[..|order|] == order;
      assert Before(order, h.0, x);
    } else {
      assert parent[x] in order;
    }
  }

  lemma AllLinkedAfter(hops: set<Hop>, s: Node, distance: map<Node, real>, parent: map<Node, Node>, order: seq<Node>, h: Hop, d: real)
    requires h.1 !in order && h.1 != h.0
    requires forall v {:trigger Linked(hops, distance, parent, order, v)} ::
               v in distance && v != s ==> Linked(hops, distance, parent, order, v)
    requires h in hops && order != [] && h.0 == order[|order|-1] && h.0 in distance && d == distance[h.0] + h.2
    ensures var after, parent' := distance[h.1 := d], parent[h.1 := h.0];
            forall v {:trigger Linked(hops, after, parent', order, v)} ::
              v in after && v != s ==> Linked(hops, after, parent', order, v)
  {
    var after, parent' := distance[h.1 := d], parent[h.1 := h.0];
    forall v | v in after && v != s ensures Linked(hops, after, parent', order, v) {
      assert v != h.1 ==> Linked(hops, distance, parent, order, v);
      LinkedAfter(hops, distance, parent, order, h, d, v);
    }
  }

  /** A hop from the node just settled improves the label of its end. */
  lemma Improve(hops: set<Hop>, s: Node, distance: map<Node, real>, parent: map<Node, Node>, queue: Queue,
                order: seq<Node>, floor: real, exempt: set<Hop>, h: Hop)
    requires State(hops, s, distance, parent, queue, order, floor, exempt)
    requires h in hops && h.2 >= 0.0 && order != [] && h.0 == order[|order|-1] && h.0 in distance && distance[h.0] == floor
    requires h.1 in distance ==> floor + h.2 < distance[h.1]
    ensures State(hops, s, distance[h.1 := floor + h.2], parent[h.1 := h.0], queue + multiset{(floor + h.2, h.1)},
                  order, floor, exempt - {h})
    ensures h.1 !in order && h.1 != h.0
  {
    var (u, v, w) := h;
    var entry := (floor + w, v);
    var distance', parent', queue' := distance[v := floor + w], parent[v := u], queue + multiset{entry};
    Improvable(hops, s, distance, parent, queue, order, floor, exempt, h);
    forall x | x in queue' ensures Queued(distance', order, queue', floor, x) {
      if x != entry { assert Queued(distance, order, queue, floor, x); }
    }
    forall x | x in distance' ensures Labelled(distance', order, queue', floor, x) {
      if x != v { assert Labelled(distance, order, queue, floor, x); }
    }
    AllLinkedAfter(hops, s, distance, parent, order, h, floor + w);
    forall x | x in hops ensures Relaxed(distance', order, exempt - {h}, x) {
      assert Relaxed(distance, order, exempt, x);
    }
  }

  // ---------------------------------------------------------------- what the search establishes

  /** Every chain to an unsettled node costs at least as much as every queued entry. */
  lemma {:induction false} NoCheaperChain(hops: set<Hop>, s: Node, distance: map<Node, real>, parent: map<Node, Node>, queue: Queue,
                         order: seq<Node>, floor: real, bound: real, u: Node, v: Node, chain: seq<Hop>)
    requires State(hops, s, distance, parent, queue, order, floor, {}) && NonNegative(hops)
    requires forall e :: e in queue ==> bound <= e.0
    requires u in distance && v !in order && Chain(hops, u, v, chain)
    ensures queue != multiset{} && bound <= distance[u] + Cost(chain)
    decreases |chain|
  {
    assert Labelled(distance, order, queue, floor, u);
    if u !in order {
      CostNonNegative(hops, u, v, chain);
    } else {
      var h := chain[0];
      assert Relaxed(distance, order, {}, h);
      NoCheaperChain(hops, s, distance, parent, queue, order, floor, bound, h.1, v, chain[1..]);
    }
  }

  // ---------------------------------------------------------------- the loops

  lemma HopsMore(links: seq<Link>, penalty: real, l: Link)
    ensures Hops(links + [l], penalty) == Hops(links, penalty) + (if l.feasible then {(l.src, l.dst, Weight(l, penalty))} else {})
  {
    forall h | h in Hops(links, penalty) + (if l.feasible then {(l.src, l.dst, Weight(l, penalty))} else {})
      ensures h in Hops(links + [l], penalty)
    {
      if h in Hops(links, penalty) {
        var k :| k in links && k.feasible && h == (k.src, k.dst, Weight(k, penalty));
        assert k in links + [l];
      } else {
        assert l in links + [l];
      }
    }
  }

  /** `for link in context.get("links", [])` */
  method BuildTable(links: seq<Link>, penalty: real) returns (table: Table)
    ensures Tabled(table, Hops(links, penalty))
  {
    table := map[];
    for i := 0 to |links|
      invariant Tabled(table, Hops(links[..i], penalty))
    {
      var link := links[i];
      HopsMore(links[..i], penalty, link);
      assert links[..i+1] == links[..i] + [link];
      if !link.feasible { continue; }
      OneMoreLink(table, Hops(links[..i], penalty), (link.src, link.dst, Weight(link, penalty)));
      table := table[link.src := (if link.src in table then table[link.src] else []) + [(link.dst, Weight(link, penalty))]];
    }
    assert links[..|links|] == links;
  }

  lemma {:induction false} LeastExists(queue: Queue)
    requires queue != multiset{}
    ensures exists e :: LeastEntry(queue, e)
    decreases |queue|
  {
    var x :| x in queue;
    var rest := queue - multiset{x};
    assert forall y :: y in queue ==> y == x || y in rest;
    if rest == multiset{} {
      assert LeastEntry(queue, x);
    } else {
      LeastExists(rest);
      var y :| LeastEntry(rest, y);
      assert LeastEntry(queue, if x.0 <= y.0 then x else y);
    }
  }

  /** heapq.heappop */
  method HeapPop(queue: Queue) returns (e: (real, Node), rest: Queue)
    requires queue != multiset{}
    ensures LeastEntry(queue, e) && rest == queue - multiset{e}
  {
    LeastExists(queue);
    ghost var least :| LeastEntry(queue, least);
    assert exists e :: e in queue && forall x :: x in queue ==> e.0 <= x.0;
    e :| e in queue && forall x :: x in queue ==> e.0 <= x.0;
    rest := queue - multiset{e};
  }

  /** The row of node is being scanned, and node was settled last. */
  ghost predicate Scanning(hops: set<Hop>, s: Node, distance: map<Node, real>, parent: map<Node, Node>, queue: Queue,
                           order: seq<Node>, row: seq<(Node, real)>, i: nat, node: Node, cost: real) {
    && State(hops, s, distance, parent, queue, order, cost, Unscanned(node, row, i))
    && order != [] && node == order[|order|-1] && node in distance && distance[node] == cost
  }

  lemma Exempt(hops: set<Hop>, s: Node, distance: map<Node, real>, parent: map<Node, Node>, queue: Queue,
               order: seq<Node>, floor: real, exempt: set<Hop>, more: set<Hop>)
    requires State(hops, s, distance, parent, queue, order, floor, exempt) && exempt <= more
    ensures State(hops, s, distance, parent, queue, order, floor, more)
  {
    forall x | x in hops ensures Relaxed(distance, order, more, x) {
      assert Relaxed(distance, order, exempt, x);
    }
  }

  /** `for neighbor, weight in graph.get(node, [])`: one round. */
  method Relax(node: Node, cost: real, row: seq<(Node, real)>, i: nat, distance0: map<Node, real>, parent0: map<Node, Node>,
               queue0: Queue, ghost hops: set<Hop>, ghost s: Node, ghost order: seq<Node>)
    returns (distance: map<Node, real>, parent: map<Node, Node>, queue: Queue)
    requires NonNegative(hops) && i < |row| && (node, row[i].0, row[i].1) in hops
    requires Scanning(hops, s, distance0, parent0, queue0, order, row, i, node, cost)
    ensures Scanning(hops, s, distance, parent, queue, order, row, i + 1, node, cost)
  {
    distance, parent, queue := distance0, parent0, queue0;
    var (neighbor, weight) := row[i];
    var candidate := cost + weight;
    ghost var h := (node, neighbor, weight);
    ghost var before := Unscanned(node, row, i);
    assert before - {h} <= Unscanned(node, row, i + 1);
    if neighbor !in distance || candidate < distance[neighbor] {
      Improve(hops, s, distance, parent, queue, order, cost, before, h);
      distance := distance[neighbor := candidate];
      parent := parent[neighbor := node];
      queue := queue + multiset{(candidate, neighbor)};
    } else {
      Keep(hops, s, distance, parent, queue, order, cost, before, h);
    }
    Exempt(hops, s, distance, parent, queue, order, cost, before - {h}, Unscanned(node, row, i + 1));
  }

  method RelaxAll(node: Node, cost: real, row: seq<(Node, real)>, distance0: map<Node, real>, parent0: map<Node, Node>,
                  queue0: Queue, ghost hops: set<Hop>, ghost s: Node, ghost order: seq<Node>)
    returns (distance: map<Node, real>, parent: map<Node, Node>, queue: Queue)
    requires NonNegative(hops) && forall h :: h in HopsFrom(hops, node) <==> h.0 == node && (h.1, h.2) in row
    requires order != [] && node == order[|order|-1] && node in distance0 && distance0[node] == cost
    requires State(hops, s, distance0, parent0, queue0, order, cost, HopsFrom(hops, node))
    ensures State(hops, s, distance, parent, queue, order, cost, {})
  {
    distance, parent, queue := distance0, parent0, queue0;
    forall h | h in HopsFrom(hops, node) ensures h in Unscanned(node, row, 0) {
      var k :| 0 <= k < |row| && row[k] == (h.1, h.2);
    }
    Exempt(hops, s, distance, parent, queue, order, cost, HopsFrom(hops, node), Unscanned(node, row, 0));
    var i := 0;
    while i < |row|
      invariant 0 <= i <= |row|
      invariant Scanning(hops, s, distance, parent, queue, order, row, i, node, cost)
    {
      assert row[i] in row;
      assert (node, row[i].0, row[i].1) in HopsFrom(hops, node);
      distance, parent, queue := Relax(node, cost, row, i, distance, parent, queue, hops, s, order);
      i := i + 1;
    }
    assert Unscanned(node, row, i) == {};
  }

  /** The parents lead back to s along feasible links. */
  ghost predicate Tree(hops: set<Hop>, s: Node, distance: map<Node, real>, parent: map<Node, Node>, order: seq<Node>) {
    && s in distance && distance[s] == 0.0 && Distinct(order)
    && forall v {:trigger Linked(hops, distance, parent, order, v)} ::
         v in distance && v != s ==> Linked(hops, distance, parent, order, v)
  }

  /** Where the search ends: t is labelled with the least cost of a chain, or there is no chain. */
  ghost predicate Searched(hops: set<Hop>, s: Node, t: Node, distance: map<Node, real>, parent: map<Node, Node>, order: seq<Node>) {
    && Tree(hops, s, distance, parent, order) && t !in order
    && (t !in distance ==> !Joined(hops, s, t))
    && (t in distance ==> forall chain :: Chain(hops, s, t, chain) ==> distance[t] <= Cost(chain))
  }

  /** `if node == destination: break` */
  lemma Arrived(hops: set<Hop>, s: Node, t: Node, distance: map<Node, real>, parent: map<Node, Node>, queue: Queue,
                order: seq<Node>, floor: real, e: (real, Node))
    requires State(hops, s, distance, parent, queue, order, floor, {}) && NonNegative(hops) && t !in order
    requires LeastEntry(queue, e) && e.1 == t
    ensures t in distance && Searched(hops, s, t, distance, parent, order)
  {
    assert Queued(distance, order, queue, floor, e);
    assert Labelled(distance, order, queue, floor, t);
    forall chain | Chain(hops, s, t, chain) ensures distance[t] <= Cost(chain) {
      NoCheaperChain(hops, s, distance, parent, queue, order, floor, e.0, s, t, chain);
    }
  }

  lemma Exhausted(hops: set<Hop>, s: Node, t: Node, distance: map<Node, real>, parent: map<Node, Node>, order: seq<Node>, floor: real)
    requires State(hops, s, distance, parent, multiset{}, order, floor, {}) && NonNegative(hops) && t !in order
    ensures t !in distance && Searched(hops, s, t, distance, parent, order)
  {
    assert t in distance ==> Labelled(distance, order, multiset{}, floor, t);
    if Joined(hops, s, t) {
      var chain :| Chain(hops, s, t, chain);
      NoCheaperChain(hops, s, distance, parent, multiset{}, order, floor, 0.0, s, t, chain);
    }
  }

  lemma LabelledAreEnds(hops: set<Hop>, s: Node, distance: map<Node, real>, parent: map<Node, Node>, order: seq<Node>)
    requires Tree(hops, s, distance, parent, order)
    ensures distance.Keys <= Ends(hops, s)
  {
    forall v | v in distance ensures v in Ends(hops, s) {
      if v != s {
        assert Linked(hops, distance, parent, order, v);
        assert (parent[v], v, distance[v] - distance[parent[v]]).1 == v;
      }
    }
  }

  /** `while queue` */
  method Search(table: Table, s: Node, t: Node, ghost hops: set<Hop>)
    returns (distance: map<Node, real>, parent: map<Node, Node>, ghost order: seq<Node>)
    requires Tabled(table, hops) && NonNegative(hops)
    ensures Searched(hops, s, t, distance, parent, order)
  {
    distance, parent := map[s := 0.0], map[];
    var queue: Queue := multiset{(0.0, s)};
    order := [];
    ghost var floor := 0.0;
    InitialState(hops, s);
    while queue != multiset{}
      invariant State(hops, s, distance, parent, queue, order, floor, {}) && t !in order
      decreases Ends(hops, s) - NodeSet(order), |queue|
    {
      var e, rest := HeapPop(queue);
      var (cost, node) := e;
      if node == t {
        Arrived(hops, s, t, distance, parent, queue, order, floor, e);
        return;
      }
      if node !in distance || cost != distance[node] {
        PopStale(hops, s, distance, parent, queue, order, floor, e);
        queue, floor := rest, cost;
        continue;
      }
      PopSettle(hops, s, distance, parent, queue, order, floor, e);
      LabelledAreEnds(hops, s, distance, parent, order);
      ghost var order0 := order;
      order, floor := order + [node], cost;
      assert NodeSet(order) == NodeSet(order0) + {node};
      var row := if node in table then table[node] else [];
      distance, parent, queue := RelaxAll(node, cost, row, distance, parent, rest, hops, s, order);
    }
    Exhausted(hops, s, t, distance, parent, order, floor);
  }

  // ---------------------------------------------------------------- the route

  /** The route collected so far, back from t: x is its last node, settled in place limit. */
  ghost predicate WalkingBack(hops: set<Hop>, t: Node, distance: map<Node, real>, order: seq<Node>,
                              route: seq<Node>, chain: seq<Hop>, limit: nat) {
    && route != [] && Distinct(route) && t in distance
    && var x := route[|route|-1];
    && x in distance && Chain(hops, x, t, chain) && Reverse(route) == Stops(x, chain)
    && distance[x] + Cost(chain) == distance[t]
    && limit <= |order| && (limit < |order| ==> order[limit] == x)
    && (forall y :: y in route ==> y !in order[..limit])
  }

  lemma {:induction false} StepBack(hops: set<Hop>, t: Node, distance: map<Node, real>, parent: map<Node, Node>, order: seq<Node>,
                 route: seq<Node>, chain: seq<Hop>, limit: nat) returns (chain': seq<Hop>, limit': nat)
    requires WalkingBack(hops, t, distance, order, route, chain, limit) && Distinct(order)
    requires Linked(hops, distance, parent, order, route[|route|-1])
    ensures WalkingBack(hops, t, distance, order, route + [parent[route[|route|-1]]], chain', limit') && limit' < limit
  {
    var x := route[|route|-1];
    var u := parent[x];
    var j :| 0 <= j < |order| && order[j] == u && x !in order[..j+1];
    var h := (u, x, distance[x] - distance[u]);
    chain', limit' := [h] + chain, j;
    assert limit < |order| ==> order[limit] !in order[..j+1];
    assert chain'[1..] == chain;
    var route' := route + [u];
    assert route'[..|route|] == route;
    assert u in order[..limit] by { assert order[..limit][j] == u; }
    forall y | y in route' ensures y !in order[..j] {
      if y in route {
        assert forall z :: z in order[..j] ==> z in order[..limit];
      }
    }
  }

  /** The walk back from t over the parents. */
  method RouteTo(parent: map<Node, Node>, s: Node, t: Node, ghost hops: set<Hop>, ghost distance: map<Node, real>,
                 ghost order: seq<Node>)
    returns (route: seq<Node>, ghost chain: seq<Hop>)
    requires Tree(hops, s, distance, parent, order) && t in distance && t !in order
    ensures Chain(hops, s, t, chain) && Stops(s, chain) == route && Cost(chain) == distance[t]
    ensures Distinct(route)
  {
    route, chain := [t], [];
    ghost var limit: nat := |order|;
    while route[|route|-1] != s
      invariant WalkingBack(hops, t, distance, order, route, chain, limit)
      decreases limit
    {
      assert Linked(hops, distance, parent, order, route[|route|-1]);
      ghost var chain', limit' := StepBack(hops, t, distance, parent, order, route, chain, limit);
      route := route + [parent[route[|route|-1]]];
      chain, limit := chain', limit';
    }
    ReverseDistinct(route);
    route := Reverse(route);
  }

  /** The chain visits the stops of the route, costs what is reported, and none is cheaper. */
  ghost predicate Cheapest(hops: set<Hop>, s: Node, t: Node, route: seq<Node>, estimate: real, chain: seq<Hop>) {
    && Chain(hops, s, t, chain) && Stops(s, chain) == route && Cost(chain) == estimate
    && forall other :: Chain(hops, s, t, other) ==> estimate <= Cost(other)
  }

  // ---------------------------------------------------------------- routes as lists of links

  /** Listed feasible links that lead from u to v, each beginning where the one before ends. */
  ghost predicate Leads(links: seq<Link>, u: Node, v: Node, ls: seq<Link>) {
    && (forall l :: l in ls ==> l in links && l.feasible)
    && (forall i, j {:trigger ls[i], ls[j]} :: 0 <= i < |ls| && 0 <= j < |ls| && j == i + 1 ==> ls[i].dst == ls[j].src)
    && (if ls == [] then u == v else ls[0].src == u && ls[|ls|-1].dst == v)
  }

  /** The route visits the ends of the links in turn. */
  ghost predicate Visits(route: seq<Node>, u: Node, ls: seq<Link>) {
    && |route| == |ls| + 1 && route[0] == u
    && forall k :: 0 <= k < |ls| ==> ls[k].dst == route[k+1]
  }

  ghost function Delays(ls: seq<Link>): real {
    if ls == [] then 0.0 else ls[0].delay + Delays(ls[1..])
  }

  /** What the links cost when each is charged its delay and the penalty, but never less than nothing. */
  ghost function Charged(ls: seq<Link>, penalty: real): real {
    if ls == [] then 0.0
    else (if ls[0].delay + penalty < 0.0 then 0.0 else ls[0].delay + penalty) + Charged(ls[1..], penalty)
  }

  lemma FirstLink(links: seq<Link>, u: Node, v: Node, ls: seq<Link>)
    requires Leads(links, u, v, ls) && ls != []
    ensures ls[0] in links && ls[0].feasible && ls[0].src == u && Leads(links, ls[0].dst, v, ls[1..])
  {
    assert ls[0] in ls;
    var rest := ls[1..];
    assert |ls| > 1 ==> ls[0].dst == ls[1].src && rest[0] == ls[1];
  }

  lemma LinkBefore(links: seq<Link>, u: Node, v: Node, l: Link, rest: seq<Link>)
    requires l in links && l.feasible && l.src == u && Leads(links, l.dst, v, rest)
    ensures Leads(links, u, v, [l] + rest)
  {
    var ls := [l] + rest;
    forall i, j | 0 <= i < |ls| && 0 <= j < |ls| && j == i + 1 ensures ls[i].dst == ls[j].src {
      if i > 0 { assert rest[i-1].dst == rest[j-1].src; }
    }
  }

  /** A chain of hops is run by listed feasible links. */
  lemma {:induction false} LinksOf(links: seq<Link>, penalty: real, u: Node, v: Node, chain: seq<Hop>) returns (ls: seq<Link>)
    requires Chain(Hops(links, penalty), u, v, chain)
    ensures Leads(links, u, v, ls) && Visits(Stops(u, chain), u, ls) && Cost(chain) == Charged(ls, penalty)
    decreases |chain|
  {
    ls := [];
    if chain != [] {
      var l :| l in links && l.feasible && chain[0] == (l.src, l.dst, Weight(l, penalty));
      var rest := LinksOf(links, penalty, l.dst, v, chain[1..]);
      LinkBefore(links, u, v, l, rest);
      ls := [l] + rest;
      assert ls[1..] == rest;
      var stops := Stops(l.dst, chain[1..]);
      assert Stops(u, chain) == [u] + stops;
    }
  }

  /** Listed feasible links are a chain of hops. */
  lemma {:induction false} ChainOf(links: seq<Link>, penalty: real, u: Node, v: Node, ls: seq<Link>) returns (chain: seq<Hop>)
    requires Leads(links, u, v, ls)
    ensures Chain(Hops(links, penalty), u, v, chain) && Cost(chain) == Charged(ls, penalty)
    decreases |ls|
  {
    chain := [];
    if ls != [] {
      FirstLink(links, u, v, ls);
      var rest := ChainOf(links, penalty, ls[0].dst, v, ls[1..]);
      chain := [(ls[0].src, ls[0].dst, Weight(ls[0], penalty))] + rest;
      assert chain[1..] == rest;
    }
  }

  /** The links run the route at the reported cost, and no listed feasible links run from s to t for less. */
  ghost predicate LeastCharged(links: seq<Link>, penalty: real, s: Node, t: Node, route: seq<Node>, estimate: real, ls: seq<Link>) {
    && Leads(links, s, t, ls) && Visits(route, s, ls) && estimate == Charged(ls, penalty)
    && forall other :: Leads(links, s, t, other) ==> estimate <= Charged(other, penalty)
  }

  lemma CheapestIsLeast(links: seq<Link>, penalty: real, s: Node, t: Node, route: seq<Node>, estimate: real, chain: seq<Hop>)
    returns (ls: seq<Link>)
    requires Cheapest(Hops(links, penalty), s, t, route, estimate, chain)
    ensures LeastCharged(links, penalty, s, t, route, estimate, ls)
  {
    ls := LinksOf(links, penalty, s, t, chain);
    forall other | Leads(links, s, t, other) ensures estimate <= Charged(other, penalty) {
      var hops := ChainOf(links, penalty, s, t, other);
    }
  }

  lemma JoinedIsLed(links: seq<Link>, penalty: real, s: Node, t: Node)
    ensures Joined(Hops(links, penalty), s, t) <==> exists ls :: Leads(links, s, t, ls)
  {
    if Joined(Hops(links, penalty), s, t) {
      var chain :| Chain(Hops(links, penalty), s, t, chain);
      var ls := LinksOf(links, penalty, s, t, chain);
    }
    if ls :| Leads(links, s, t, ls) {
      var chain := ChainOf(links, penalty, s, t, ls);
    }
  }

  /** No feasible link is cheaper than nothing. */
  ghost predicate NoneClamped(links: seq<Link>, penalty: real) {
    forall l :: l in links && l.feasible ==> l.delay + penalty >= 0.0
  }

  /** The delays along the links and a penalty for each. */
  ghost function Total(ls: seq<Link>, penalty: real): real {
    Delays(ls) + |ls| as real * penalty
  }

  /** Where nothing is clamped, links are charged their delays and a penalty for each. */
  lemma {:induction false} ChargedIsTotal(links: seq<Link>, penalty: real, u: Node, v: Node, ls: seq<Link>)
    requires NoneClamped(links, penalty) && Leads(links, u, v, ls)
    ensures Charged(ls, penalty) == Total(ls, penalty)
    decreases |ls|
  {
    if ls != [] {
      FirstLink(links, u, v, ls);
      ChargedIsTotal(links, penalty, ls[0].dst, v, ls[1..]);
      var n := |ls| - 1;
      assert |ls| as real == n as real + 1.0;
      assert (n as real + 1.0) * penalty == n as real * penalty + penalty;
    }
  }

  /** The links run the route, the estimate is their delays and a penalty for each, and no listed feasible links run
      from s to t for less. */
  ghost predicate LeastTotal(links: seq<Link>, penalty: real, s: Node, t: Node, route: seq<Node>, estimate: real, ls: seq<Link>) {
    && Leads(links, s, t, ls) && Visits(route, s, ls) && estimate == Delays(ls) + |ls| as real * penalty
    && forall other :: Leads(links, s, t, other) ==> estimate <= Delays(other) + |other| as real * penalty
  }

  lemma LeastIsTotal(links: seq<Link>, penalty: real, s: Node, t: Node, route: seq<Node>, estimate: real, ls: seq<Link>)
    requires NoneClamped(links, penalty) && LeastCharged(links, penalty, s, t, route, estimate, ls)
    ensures LeastTotal(links, penalty, s, t, route, estimate, ls)
  {
    ChargedIsTotal(links, penalty, s, t, ls);
    forall other | Leads(links, s, t, other) ensures estimate <= Delays(other) + |other| as real * penalty {
      ChargedIsTotal(links, penalty, s, t, other);
    }
  }

  /** `plan_route`: a simple route of least total delay, or none exactly when no listed feasible links lead there. With
      delays and a penalty that are not negative the estimate is the sum of the delays and a penalty for each link. */
  method PlanRoute(source: Node, destination: Node, penalty: real, links: seq<Link>)
    returns (route: seq<Node>, estimatedDelay: Option<real>)
    ensures route == [] <==> estimatedDelay == None
    ensures route == [] <==> !exists ls :: Leads(links, source, destination, ls)
    ensures route != [] ==>
              Distinct(route) && exists ls :: LeastCharged(links, penalty, source, destination, route, estimatedDelay.value, ls)
    ensures route != [] && (forall l :: l in links && l.feasible ==> l.delay + penalty >= 0.0) ==>
              exists ls :: LeastTotal(links, penalty, source, destination, route, estimatedDelay.value, ls)
    ensures route != [] ==> exists chain :: Cheapest(Hops(links, penalty), source, destination, route, estimatedDelay.value, chain)
  {
    hide Searched, Tree, Hops, Leads, Visits, LeastCharged, LeastTotal;
    ghost var hops := Hops(links, penalty);
    HopsNonNegative(links, penalty);
    var table := BuildTable(links, penalty);
    var distance, parent;
    ghost var order;
    distance, parent, order := Search(table, source, destination, hops);
    JoinedIsLed(links, penalty, source, destination);
    SearchedTree(hops, source, destination, distance, parent, order);
    if destination !in distance {
      return [], None;
    }
    ghost var chain;
    route, chain := RouteTo(parent, source, destination, hops, distance, order);
    estimatedDelay := Some(distance[destination]);
    assert Joined(hops, source, destination) && Stops(source, chain) != [];
    assert Cheapest(hops, source, destination, route, distance[destination], chain);
    ghost var ls := CheapestIsLeast(links, penalty, source, destination, route, distance[destination], chain);
    if NoneClamped(links, penalty) {
      LeastIsTotal(links, penalty, source, destination, route, distance[destination], ls);
    }
  }

  lemma HopsNonNegative(links: seq<Link>, penalty: real)
    ensures NonNegative(Hops(links, penalty))
  {
  }

  lemma SearchedTree(hops: set<Hop>, s: Node, t: Node, distance: map<Node, real>, parent: map<Node, Node>, order: seq<Node>)
    requires Searched(hops, s, t, distance, parent, order)
    ensures Tree(hops, s, distance, parent, order) && t !in order && (t !in distance ==> !Joined(hops, s, t))
    ensures t in distance ==> forall chain :: Chain(hops, s, t, chain) ==> distance[t] <= Cost(chain)
  {
  }
}
