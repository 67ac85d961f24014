/** plugins/controllers/maximum_bottleneck_routing.py: widest paths with a capacity floor and lazy deletion.

    The heap is a bag from which some entry of greatest score is taken; ties are broken arbitrarily.
 */
module BottleneckRouting {
  import opened Walks
  import opened Routes

  /** A link record; feasible stands for link.get("feasible", link.get("link_ok", False)). */
  datatype Link = Link(src: Node, dst: Node, feasible: bool, capacity: real)

  /** float("inf") or a number. */
  datatype Score = Infinite | Mbps(value: real)

  type Queue = multiset<(Score, Node)>

  predicate Exceeds(a: Score, b: Score) {
    b.Mbps? && (a.Infinite? || a.value > b.value)
  }

  predicate AtLeast(a: Score, b: Score) {
    !Exceeds(b, a)
  }

  function MinScore(a: Score, b: Score): Score {
    if Exceeds(a, b) then b else a
  }

  // ---------------------------------------------------------------- routes

  /** The links a route may use: feasible and not below the floor. */
  ghost function Allowed(links: seq<Link>, minimum: real): set<Hop> {
    set l | l in links && l.feasible && l.capacity >= minimum :: (l.src, l.dst, l.capacity)
  }

  /** The hops wider than the -1.0 that stands for an unknown score. */
  ghost function Usable(hops: set<Hop>): set<Hop> {
    set h | h in hops && h.2 > -1.0
  }

  /** The least capacity along a chain. */
  ghost function Width(chain: seq<Hop>): Score
    decreases |chain|
  {
    if chain == [] then Infinite else MinScore(Mbps(chain[0].2), Width(chain[1..]))
  }

  // ---------------------------------------------------------------- the state of the search

  /** A hop from u to v narrows the score from to exactly to. */
  ghost predicate Narrows(hops: set<Hop>, u: Node, v: Node, from: Score, to: Score) {
    exists w :: (u, v, w) in hops && to == MinScore(from, Mbps(w))
  }

  ghost predicate Linked(hops: set<Hop>, best: map<Node, Score>, parent: map<Node, Node>, order: seq<Node>, v: Node) {
    && v in best && v in parent && parent[v] in best && Before(order, parent[v], v)
    && Narrows(hops, parent[v], v, best[parent[v]], best[v])
  }

  /** A queued score is never above the best one, and below it once the node is settled. */
  ghost predicate Queued(best: map<Node, Score>, order: seq<Node>, queue: Queue, ceiling: Score, e: (Score, Node)) {
    && queue[e] == 1 && e.1 in best && AtLeast(ceiling, e.0) && AtLeast(best[e.1], e.0)
    && (e.1 in order ==> Exceeds(best[e.1], e.0))
  }

  ghost predicate Labelled(best: map<Node, Score>, order: seq<Node>, queue: Queue, ceiling: Score, v: Node) {
    && v in best && Exceeds(best[v], Mbps(-1.0))
    && (v in order ==> AtLeast(best[v], ceiling))
    && (v !in order ==> (best[v], v) in queue)
  }

  ghost predicate Relaxed(best: map<Node, Score>, order: seq<Node>, exempt: set<Hop>, h: Hop) {
    h.0 in order && h !in exempt ==>
      h.0 in best && h.1 in best && AtLeast(best[h.1], MinScore(best[h.0], Mbps(h.2)))
  }

  /** order lists the settled nodes; their hops have been followed, except those in exempt. */
  ghost predicate State(hops: set<Hop>, s: Node, best: map<Node, Score>, parent: map<Node, Node>, queue: Queue,
                        order: seq<Node>, ceiling: Score, exempt: set<Hop>) {
    && s in best && best[s] == Infinite && s !in parent
    && NodeSet(order) <= best.Keys && Distinct(order)
    && (forall v {:trigger Linked(hops, best, parent, order, v)} ::
          v in best && v != s ==> Linked(hops, best, parent, order, v))
    && (forall e {:trigger Queued(best, order, queue, ceiling, e)} :: e in queue ==> Queued(best, order, queue, ceiling, e))
    && (forall v {:trigger Labelled(best, order, queue, ceiling, v)} :: v in best ==> Labelled(best, order, queue, ceiling, v))
    && (forall h {:trigger Relaxed(best, order, exempt, h)} :: h in hops ==> Relaxed(best, order, exempt, h))
  }

  ghost predicate GreatestEntry(queue: Queue, e: (Score, Node)) {
    e in queue && forall x :: x in queue ==> AtLeast(e.0, x.0)
  }

  lemma InitialState(hops: set<Hop>, s: Node)
    ensures State(hops, s, map[s := Infinite], map[], multiset{(Infinite, s)}, [], Infinite, {})
  {
  }

  /** `if score < best.get(node, 0.0): continue` */
  lemma PopStale(hops: set<Hop>, s: Node, best: map<Node, Score>, parent: map<Node, Node>, queue: Queue,
                 order: seq<Node>, ceiling: Score, e: (Score, Node))
    requires State(hops, s, best, parent, queue, order, ceiling, {}) && GreatestEntry(queue, e)
    requires e.1 in best && Exceeds(best[e.1], e.0)
    ensures State(hops, s, best, parent, queue - multiset{e}, order, e.0, {})
  {
    var rest := queue - multiset{e};
    assert Queued(best, order, queue, ceiling, e);
    forall x | x in rest ensures Queued(best, order, rest, e.0, x) {
      assert Queued(best, order, queue, ceiling, x);
    }
    forall v | v in best ensures Labelled(best, order, rest, e.0, v) {
      assert Labelled(best, order, queue, ceiling, v);
    }
  }

  /** The entry taken off the queue is current: its node is settled. */
  lemma PopSettle(hops: set<Hop>, s: Node, best: map<Node, Score>, parent: map<Node, Node>, queue: Queue,
                  order: seq<Node>, ceiling: Score, e: (Score, Node))
    requires State(hops, s, best, parent, queue, order, ceiling, {}) && GreatestEntry(queue, e)
    requires e.1 in best && !Exceeds(best[e.1], e.0)
    ensures e.1 !in order && best[e.1] == e.0
    ensures State(hops, s, best, parent, queue - multiset{e}, order + [e.1], e.0, HopsFrom(hops, e.1))
  {
    hide Linked;
    var rest, node, order' := queue - multiset{e}, e.1, order + [e.1];
    assert Queued(best, order, queue, ceiling, e);
    assert Labelled(best, order, queue, ceiling, node);
    forall x | x in rest ensures Queued(best, order', rest, e.0, x) {
      assert Queued(best, order, queue, ceiling, x);
    }
    forall v | v in best ensures Labelled(best, order', rest, e.0, v) {
      assert Labelled(best, order, queue, ceiling, v);
    }
    forall v | v in best && v != s ensures Linked(hops, best, parent, order', v) {
      LinkedLater(hops, best, parent, order, node, v);
    }
    forall h | h in hops ensures Relaxed(best, order', HopsFrom(hops, node), h) {
      assert Relaxed(best, order, {}, h);
    }
    assert NodeSet(order') == NodeSet(order) + {node};
  }

  lemma LinkedLater(hops: set<Hop>, best: map<Node, Score>, parent: map<Node, Node>, order: seq<Node>, node: Node, v: Node)
    requires Linked(hops, best, parent, order, v)
    ensures Linked(hops, best, parent, order + [node], v)
  {
    hide Narrows;
    BeforeMore(order, parent[v], v, node);
  }

  /** A hop that improves nothing has been followed. */
  lemma Keep(hops: set<Hop>, s: Node, best: map<Node, Score>, parent: map<Node, Node>, queue: Queue,
             order: seq<Node>, ceiling: Score, exempt: set<Hop>, h: Hop)
    requires State(hops, s, best, parent, queue, order, ceiling, exempt)
    requires h !in hops || (h.0 in best && h.1 in best && AtLeast(best[h.1], MinScore(best[h.0], Mbps(h.2))))
    ensures State(hops, s, best, parent, queue, order, ceiling, exempt - {h})
  {
    forall x | x in hops ensures Relaxed(best, order, exempt - {h}, x) {
      assert Relaxed(best, order, exempt, x);
    }
  }

  /** Only unsettled nodes are improved, and the new entry is new. */
  lemma Improvable(hops: set<Hop>, s: Node, best: map<Node, Score>, parent: map<Node, Node>, queue: Queue,
                   order: seq<Node>, ceiling: Score, exempt: set<Hop>, h: Hop, candidate: Score)
    requires State(hops, s, best, parent, queue, order, ceiling, exempt)
    requires h.0 in order && h.0 in best && best[h.0] == ceiling && candidate == MinScore(ceiling, Mbps(h.2))
    requires h.1 in best ==> Exceeds(candidate, best[h.1])
    ensures h.1 !in order && h.1 != h.0 && h.1 != s && (candidate, h.1) !in queue
  {
    var e := (candidate, h.1);
    assert h.1 in best ==> Labelled(best, order, queue, ceiling, h.1);
    assert h.1 in order ==> h.1 in NodeSet(order);
    assert e in queue ==> Queued(best, order, queue, ceiling, e);
  }

  lemma LinkedAfter(hops: set<Hop>, best: map<Node, Score>, parent: map<Node, Node>, order: seq<Node>, h: Hop, b: Score, x: Node)
    requires h.1 !in order && h.1 != h.0
    requires x != h.1 ==> Linked(hops, best, parent, order, x)
    requires x == h.1 ==>
               h in hops && order != [] && h.0 == order[|order|-1] && h.0 in best && b == MinScore(best[h.0], Mbps(h.2))
    ensures Linked(hops, best[h.1 := b], parent[h.1 := h.0], order, x)
  {
    if x == h.1 {
      assert order[..|order|] == order;
      assert Before(order, h.0, x);
      assert (h.0, h.1, h.2) in hops;
    } else {
      assert parent[x] in order;
    }
  }

  lemma AllLinkedAfter(hops: set<Hop>, s: Node, best: map<Node, Score>, parent: map<Node, Node>, order: seq<Node>, h: Hop, d: Score)
    requires h.1 !in order && h.1 != h.0
    requires forall v {:trigger Linked(hops, best, parent, order, v)} ::
               v in best && v != s ==> Linked(hops, best, parent, order, v)
    requires h in hops && order != [] && h.0 == order[|order|-1] && h.0 in best && d == MinScore(best[h.0], Mbps(h.2))
    ensures var after, parent' := best[h.1 := d], parent[h.1 := h.0];
            forall v {:trigger Linked(hops, after, parent', order, v)} ::
              v in after && v != s ==> Linked(hops, after, parent', order, v)
  {
    var after, parent' := best[h.1 := d], parent[h.1 := h.0];
    forall v | v in after && v != s ensures Linked(hops, after, parent', order, v) {
      assert v != h.1 ==> Linked(hops, best, parent, order, v);
      LinkedAfter(hops, best, parent, order, h, d, v);
    }
  }

  /** A hop from the node just settled improves the score of its end. */
  lemma Improve(hops: set<Hop>, s: Node, best: map<Node, Score>, parent: map<Node, Node>, queue: Queue,
                order: seq<Node>, ceiling: Score, exempt: set<Hop>, h: Hop, candidate: Score)
    requires State(hops, s, best, parent, queue, order, ceiling, exempt)
    requires h in hops && order != [] && h.0 == order[|order|-1] && h.0 in best && best[h.0] == ceiling
    requires candidate == MinScore(ceiling, Mbps(h.2))
    requires Exceeds(candidate, if h.1 in best then best[h.1] else Mbps(-1.0))
    ensures State(hops, s, best[h.1 := candidate], parent[h.1 := h.0], queue + multiset{(candidate, h.1)},
                  order, ceiling, exempt - {h})
    ensures h.1 != h.0
  {
    var (u, v, w) := h;
    var entry := (candidate, v);
    var best', parent', queue' := best[v := candidate], parent[v := u], queue + multiset{entry};
    Improvable(hops, s, best, parent, queue, order, ceiling, exempt, h, candidate);
    assert v in best ==> Labelled(best, order, queue, ceiling, v);
    forall x | x in queue' ensures Queued(best', order, queue', ceiling, x) {
      if x != entry { assert Queued(best, order, queue, ceiling, x); }
    }
    forall x | x in best' ensures Labelled(best', order, queue', ceiling, x) {
      if x != v { assert Labelled(best, order, queue, ceiling, x); }
    }
    AllLinkedAfter(hops, s, best, parent, order, h, candidate);
    forall x | x in hops ensures Relaxed(best', order, exempt - {h}, x) {
      assert Relaxed(best, order, exempt, x);
    }
  }

  // ---------------------------------------------------------------- what the search establishes

  /** No chain to an unsettled node is wider than every queued entry. */
  lemma {:induction false} NoWiderChain(hops: set<Hop>, s: Node, best: map<Node, Score>, parent: map<Node, Node>, queue: Queue,
                       order: seq<Node>, ceiling: Score, bound: Score, u: Node, v: Node, chain: seq<Hop>)
    requires State(hops, s, best, parent, queue, order, ceiling, {})
    requires forall e :: e in queue ==> AtLeast(bound, e.0)
    requires u in best && v !in order && Chain(hops, u, v, chain)
    ensures queue != multiset{} && AtLeast(bound, MinScore(best[u], Width(chain)))
    decreases |chain|
  {
    assert Labelled(best, order, queue, ceiling, u);
    if u in order {
      var h := chain[0];
      assert Relaxed(best, order, {}, h);
      NoWiderChain(hops, s, best, parent, queue, order, ceiling, bound, h.1, v, chain[1..]);
    }
  }

  /** The parents lead back to s along usable links. */
  ghost predicate Tree(hops: set<Hop>, s: Node, best: map<Node, Score>, parent: map<Node, Node>, order: seq<Node>) {
    && s in best && best[s] == Infinite && Distinct(order)
    && forall v {:trigger Linked(hops, best, parent, order, v)} ::
         v in best && v != s ==> Linked(hops, best, parent, order, v)
  }

  /** Where the search ends: t is labelled with the greatest width of a chain, or there is no chain. */
  ghost predicate Searched(hops: set<Hop>, s: Node, t: Node, best: map<Node, Score>, parent: map<Node, Node>, order: seq<Node>) {
    && Tree(hops, s, best, parent, order) && t !in order
    && (t !in best ==> !Joined(hops, s, t))
    && (t in best ==> forall chain :: Chain(hops, s, t, chain) ==> AtLeast(best[t], Width(chain)))
  }

  /** `if node == destination: break` */
  lemma Arrived(hops: set<Hop>, s: Node, t: Node, best: map<Node, Score>, parent: map<Node, Node>, queue: Queue,
                order: seq<Node>, ceiling: Score, e: (Score, Node))
    requires State(hops, s, best, parent, queue, order, ceiling, {}) && t !in order
    requires GreatestEntry(queue, e) && e.1 == t
    ensures t in best && Searched(hops, s, t, best, parent, order)
  {
    assert Queued(best, order, queue, ceiling, e);
    assert Labelled(best, order, queue, ceiling, t);
    forall chain | Chain(hops, s, t, chain) ensures AtLeast(best[t], Width(chain)) {
      NoWiderChain(hops, s, best, parent, queue, order, ceiling, e.0, s, t, chain);
    }
  }

  lemma Exhausted(hops: set<Hop>, s: Node, t: Node, best: map<Node, Score>, parent: map<Node, Node>, order: seq<Node>, ceiling: Score)
    requires State(hops, s, best, parent, multiset{}, order, ceiling, {}) && t !in order
    ensures t !in best && Searched(hops, s, t, best, parent, order)
  {
    assert t in best ==> Labelled(best, order, multiset{}, ceiling, t);
    if Joined(hops, s, t) {
      var chain :| Chain(hops, s, t, chain);
      NoWiderChain(hops, s, best, parent, multiset{}, order, ceiling, Infinite, s, t, chain);
    }
  }

  // ---------------------------------------------------------------- the loops

  lemma AllowedMore(links: seq<Link>, minimum: real, l: Link)
    ensures Allowed(links + [l], minimum)
         == Allowed(links, minimum) + (if l.feasible && l.capacity >= minimum then {(l.src, l.dst, l.capacity)} else {})
  {
    forall h | h in Allowed(links, minimum) + (if l.feasible && l.capacity >= minimum then {(l.src, l.dst, l.capacity)} else {})
      ensures h in Allowed(links + [l], minimum)
    {
      if h in Allowed(links, minimum) {
        var k :| k in links && k.feasible && k.capacity >= minimum && h == (k.src, k.dst, k.capacity);
        assert k in links + [l];
      } else {
        assert l in links + [l];
      }
    }
  }

  /** `for link in context.get("links", [])` */
  method BuildTable(links: seq<Link>, minimum: real) returns (table: Table)
    ensures Tabled(table, Allowed(links, minimum))
  {
    table := map[];
    for i := 0 to |links|
      invariant Tabled(table, Allowed(links[..i], minimum))
    {
      var link := links[i];
      AllowedMore(links[..i], minimum, link);
      assert links[..i+1] == links[..i] + [link];
      if !link.feasible { continue; }
      if link.capacity < minimum { continue; }
      OneMoreLink(table, Allowed(links[..i], minimum), (link.src, link.dst, link.capacity));
      table := table[link.src := (if link.src in table then table[link.src] else []) + [(link.dst, link.capacity)]];
    }
    assert links[..|links|] == links;
  }

  lemma {:induction false} GreatestExists(queue: Queue)
    requires queue != multiset{}
    ensures exists e :: GreatestEntry(queue, e)
    decreases |queue|
  {
    var x :| x in queue;
    var rest := queue - multiset{x};
    assert forall y :: y in queue ==> y == x || y in rest;
    if rest == multiset{} {
      assert GreatestEntry(queue, x);
    } else {
      GreatestExists(rest);
      var y :| GreatestEntry(rest, y);
      assert GreatestEntry(queue, if AtLeast(x.0, y.0) then x else y);
    }
  }

  /** heapq.heappop on negated scores */
  method HeapPop(queue: Queue) returns (e: (Score, Node), rest: Queue)
    requires queue != multiset{}
    ensures GreatestEntry(queue, e) && rest == queue - multiset{e}
  {
    GreatestExists(queue);
    ghost var greatest :| GreatestEntry(queue, greatest);
    assert exists e :: e in queue && forall x :: x in queue ==> AtLeast(e.0, x.0);
    e :| e in queue && forall x :: x in queue ==> AtLeast(e.0, x.0);
    rest := queue - multiset{e};
  }

  /** The row of node is being scanned, and node was settled last. */
  ghost predicate Scanning(hops: set<Hop>, s: Node, best: map<Node, Score>, parent: map<Node, Node>, queue: Queue,
                           order: seq<Node>, row: seq<(Node, real)>, i: nat, node: Node, score: Score) {
    && State(hops, s, best, parent, queue, order, score, Unscanned(node, row, i))
    && order != [] && node == order[|order|-1] && node in best && best[node] == score
    && Exceeds(score, Mbps(-1.0))
  }

  lemma Exempt(hops: set<Hop>, s: Node, best: map<Node, Score>, parent: map<Node, Node>, queue: Queue,
               order: seq<Node>, ceiling: Score, exempt: set<Hop>, more: set<Hop>)
    requires State(hops, s, best, parent, queue, order, ceiling, exempt) && exempt <= more
    ensures State(hops, s, best, parent, queue, order, ceiling, more)
  {
    forall x | x in hops ensures Relaxed(best, order, more, x) {
      assert Relaxed(best, order, exempt, x);
    }
  }

  /** `for neighbor, capacity in graph.get(node, [])`: one round. */
  method Relax(node: Node, score: Score, row: seq<(Node, real)>, i: nat, best0: map<Node, Score>, parent0: map<Node, Node>,
               queue0: Queue, ghost hops: set<Hop>, ghost s: Node, ghost order: seq<Node>)
    returns (best: map<Node, Score>, parent: map<Node, Node>, queue: Queue)
    requires i < |row| && ((node, row[i].0, row[i].1) in hops <==> row[i].1 > -1.0)
    requires Scanning(hops, s, best0, parent0, queue0, order, row, i, node, score)
    ensures Scanning(hops, s, best, parent, queue, order, row, i + 1, node, score)
  {
    best, parent, queue := best0, parent0, queue0;
    var (neighbor, capacity) := row[i];
    var candidate := MinScore(score, Mbps(capacity));
    ghost var h := (node, neighbor, capacity);
    ghost var before := Unscanned(node, row, i);
    assert before - {h} <= Unscanned(node, row, i + 1);
    assert neighbor in best ==> Labelled(best, order, queue, score, neighbor);
    if Exceeds(candidate, if neighbor in best then best[neighbor] else Mbps(-1.0)) {
      Improve(hops, s, best, parent, queue, order, score, before, h, candidate);
      best := best[neighbor := candidate];
      parent := parent[neighbor := node];
      queue := queue + multiset{(candidate, neighbor)};
    } else {
      Keep(hops, s, best, parent, queue, order, score, before, h);
    }
    Exempt(hops, s, best, parent, queue, order, score, before - {h}, Unscanned(node, row, i + 1));
  }

  method RelaxAll(node: Node, score: Score, row: seq<(Node, real)>, best0: map<Node, Score>, parent0: map<Node, Node>,
                  queue0: Queue, ghost hops: set<Hop>, ghost s: Node, ghost order: seq<Node>)
    returns (best: map<Node, Score>, parent: map<Node, Node>, queue: Queue)
    requires forall h :: h in HopsFrom(hops, node) <==> h.0 == node && (h.1, h.2) in row && h.2 > -1.0
    requires order != [] && node == order[|order|-1] && node in best0 && best0[node] == score && Exceeds(score, Mbps(-1.0))
    requires State(hops, s, best0, parent0, queue0, order, score, HopsFrom(hops, node))
    ensures State(hops, s, best, parent, queue, order, score, {})
  {
    best, parent, queue := best0, parent0, queue0;
    forall h | h in HopsFrom(hops, node) ensures h in Unscanned(node, row, 0) {
      var k :| 0 <= k < |row| && row[k] == (h.1, h.2);
    }
    Exempt(hops, s, best, parent, queue, order, score, HopsFrom(hops, node), Unscanned(node, row, 0));
    var i := 0;
    while i < |row|
      invariant 0 <= i <= |row|
      invariant Scanning(hops, s, best, parent, queue, order, row, i, node, score)
    {
      assert row[i] in row;
      assert row[i].1 > -1.0 <==> (node, row[i].0, row[i].1) in HopsFrom(hops, node);
      best, parent, queue := Relax(node, score, row, i, best, parent, queue, hops, s, order);
      i := i + 1;
    }
    assert Unscanned(node, row, i) == {};
  }

  lemma LabelledAreEnds(hops: set<Hop>, s: Node, best: map<Node, Score>, parent: map<Node, Node>, order: seq<Node>)
    requires Tree(hops, s, best, parent, order)
    ensures best.Keys <= Ends(hops, s)
  {
    forall v | v in best ensures v in Ends(hops, s) {
      if v != s {
        assert Linked(hops, best, parent, order, v);
        var w :| (parent[v], v, w) in hops;
        assert (parent[v], v, w).1 == v;
      }
    }
  }

  /** `while queue` */
  method Search(table: Table, s: Node, t: Node, ghost all: set<Hop>)
    returns (best: map<Node, Score>, parent: map<Node, Node>, ghost order: seq<Node>)
    requires Tabled(table, all)
    ensures Searched(Usable(all), s, t, best, parent, order)
  {
    ghost var hops := Usable(all);
    best, parent := map[s := Infinite], map[];
    var queue: Queue := multiset{(Infinite, s)};
    order := [];
    ghost var ceiling := Infinite;
    InitialState(hops, s);
    while queue != multiset{}
      invariant State(hops, s, best, parent, queue, order, ceiling, {}) && t !in order
      decreases Ends(hops, s) - NodeSet(order), |queue|
    {
      var e, rest := HeapPop(queue);
      var (score, node) := e;
      if node == t {
        Arrived(hops, s, t, best, parent, queue, order, ceiling, e);
        return;
      }
      assert Queued(best, order, queue, ceiling, e);
      if Exceeds(if node in best then best[node] else Mbps(0.0), score) {
        PopStale(hops, s, best, parent, queue, order, ceiling, e);
        queue, ceiling := rest, score;
        continue;
      }
      assert Labelled(best, order, queue, ceiling, node);
      PopSettle(hops, s, best, parent, queue, order, ceiling, e);
      LabelledAreEnds(hops, s, best, parent, order);
      ghost var order0 := order;
      order, ceiling := order + [node], score;
      assert NodeSet(order) == NodeSet(order0) + {node};
      var row := if node in table then table[node] else [];
      best, parent, queue := RelaxAll(node, score, row, best, parent, rest, hops, s, order);
    }
    Exhausted(hops, s, t, best, parent, order, ceiling);
  }

  // ---------------------------------------------------------------- the route

  /** The route collected so far, back from t: x is its last node, settled in place limit. */
  ghost predicate WalkingBack(hops: set<Hop>, t: Node, best: map<Node, Score>, order: seq<Node>,
                              route: seq<Node>, chain: seq<Hop>, limit: nat) {
    && route != [] && Distinct(route) && t in best
    && var x := route[|route|-1];
    && x in best && Chain(hops, x, t, chain) && Reverse(route) == Stops(x, chain)
    && MinScore(best[x], Width(chain)) == best[t]
    && limit <= |order| && (limit < |order| ==> order[limit] == x)
    && (forall y :: y in route ==> y !in order[..limit])
  }

  lemma {:induction false} StepBack(hops: set<Hop>, t: Node, best: map<Node, Score>, parent: map<Node, Node>, order: seq<Node>,
                 route: seq<Node>, chain: seq<Hop>, limit: nat) returns (chain': seq<Hop>, limit': nat)
    requires WalkingBack(hops, t, best, order, route, chain, limit) && Distinct(order)
    requires Linked(hops, best, parent, order, route[|route|-1])
    ensures WalkingBack(hops, t, best, order, route + [parent[route[|route|-1]]], chain', limit') && limit' < limit
  {
    var x := route[|route|-1];
    var u := parent[x];
    var j :| 0 <= j < |order| && order[j] == u && x !in order[..j+1];
    var w :| (u, x, w) in hops && best[x] == MinScore(best[u], Mbps(w));
    var h := (u, x, w);
    chain', limit' := [h] + chain, j;
    assert limit < |order| ==> order[limit] !in order[..j+1];
    assert chain'[1..] == chain;
    var route' := route + [u];
    assert route'[..|route|] == route;
    assert u in order[..limit] by { assert order[..limit][j] == u; }
    forall y | y in route' ensures y !in order[..j] {
      if y in route {
        assert forall z :: z in order[..j] ==> z in order[..limit];
      }
    }
  }

  /** The walk back from t over the parents. */
  method RouteTo(parent: map<Node, Node>, s: Node, t: Node, ghost hops: set<Hop>, ghost best: map<Node, Score>,
                 ghost order: seq<Node>)
    returns (route: seq<Node>, ghost chain: seq<Hop>)
    requires Tree(hops, s, best, parent, order) && t in best && t !in order
    ensures Chain(hops, s, t, chain) && Stops(s, chain) == route && Width(chain) == best[t]
    ensures Distinct(route)
  {
    route, chain := [t], [];
    ghost var limit: nat := |order|;
    while route[|route|-1] != s
      invariant WalkingBack(hops, t, best, order, route, chain, limit)
      decreases limit
    {
      assert Linked(hops, best, parent, order, route[|route|-1]);
      ghost var chain', limit' := StepBack(hops, t, best, parent, order, route, chain, limit);
      route := route + [parent[route[|route|-1]]];
      chain, limit := chain', limit';
    }
    ReverseDistinct(route);
    route := Reverse(route);
  }

  /** The chain visits the stops of the route, has the reported width, and none is wider. */
  ghost predicate Widest(hops: set<Hop>, s: Node, t: Node, route: seq<Node>, width: Score, chain: seq<Hop>) {
    && Chain(hops, s, t, chain) && Stops(s, chain) == route && Width(chain) == width
    && forall other :: Chain(hops, s, t, other) ==> AtLeast(width, Width(other))
  }

  // ---------------------------------------------------------------- routes as lists of links

  /** Listed feasible links at the floor or above, and wider than the -1.0 that stands for an unknown score, that lead
      from u to v, each beginning where the one before ends. */
  ghost predicate Leads(links: seq<Link>, minimum: real, u: Node, v: Node, ls: seq<Link>) {
    && (forall l :: l in ls ==> l in links && l.feasible && l.capacity >= minimum && l.capacity > -1.0)
    && (forall i, j {:trigger ls[i], ls[j]} :: 0 <= i < |ls| && 0 <= j < |ls| && j == i + 1 ==> ls[i].dst == ls[j].src)
    && (if ls == [] then u == v else ls[0].src == u && ls[|ls|-1].dst == v)
  }

  /** The route visits the ends of the links in turn. */
  ghost predicate Visits(route: seq<Node>, u: Node, ls: seq<Link>) {
    && |route| == |ls| + 1 && route[0] == u
    && forall k :: 0 <= k < |ls| ==> ls[k].dst == route[k+1]
  }

  /** The least capacity of the links; infinite when there are none. */
  ghost predicate Narrowest(ls: seq<Link>, width: Score) {
    && (width.Infinite? <==> ls == [])
    && (width.Mbps? ==> (exists l :: l in ls && l.capacity == width.value) && forall l :: l in ls ==> width.value <= l.capacity)
  }

  lemma FirstLink(links: seq<Link>, minimum: real, u: Node, v: Node, ls: seq<Link>)
    requires Leads(links, minimum, u, v, ls) && ls != []
    ensures ls[0].src == u && (u, ls[0].dst, ls[0].capacity) in Usable(Allowed(links, minimum))
    ensures Leads(links, minimum, ls[0].dst, v, ls[1..])
  {
    assert ls[0] in ls;
    var rest := ls[1..];
    assert |ls| > 1 ==> ls[0].dst == ls[1].src && rest[0] == ls[1];
  }

  lemma LinkBefore(links: seq<Link>, minimum: real, u: Node, v: Node, l: Link, rest: seq<Link>)
    requires l in links && l.feasible && l.capacity >= minimum && l.capacity > -1.0 && l.src == u
    requires Leads(links, minimum, l.dst, v, rest)
    ensures Leads(links, minimum, u, v, [l] + rest)
  {
    var ls := [l] + rest;
    forall i, j | 0 <= i < |ls| && 0 <= j < |ls| && j == i + 1 ensures ls[i].dst == ls[j].src {
      if i > 0 { assert rest[i-1].dst == rest[j-1].src; }
    }
  }

  lemma NarrowestBefore(l: Link, rest: seq<Link>, width: Score)
    requires Narrowest(rest, width)
    ensures Narrowest([l] + rest, MinScore(Mbps(l.capacity), width))
  {
    var ls := [l] + rest;
    assert ls[0] == l;
    assert forall x :: x in ls <==> x == l || x in rest;
  }

  /** A chain of usable hops is run by links, and as wide as the narrowest of them. */
  lemma {:induction false} LinksOf(links: seq<Link>, minimum: real, u: Node, v: Node, chain: seq<Hop>) returns (ls: seq<Link>)
    requires Chain(Usable(Allowed(links, minimum)), u, v, chain)
    ensures Leads(links, minimum, u, v, ls) && Visits(Stops(u, chain), u, ls) && Narrowest(ls, Width(chain))
    decreases |chain|
  {
    ls := [];
    if chain != [] {
      assert chain[0] in Allowed(links, minimum);
      var l :| l in links && l.feasible && l.capacity >= minimum && chain[0] == (l.src, l.dst, l.capacity);
      var rest := LinksOf(links, minimum, l.dst, v, chain[1..]);
      LinkBefore(links, minimum, u, v, l, rest);
      NarrowestBefore(l, rest, Width(chain[1..]));
      ls := [l] + rest;
      var stops := Stops(l.dst, chain[1..]);
      assert Stops(u, chain) == [u] + stops;
    }
  }

  /** Links at the floor or above are a chain of usable hops, as wide as the narrowest of them. */
  lemma {:induction false} ChainOf(links: seq<Link>, minimum: real, u: Node, v: Node, ls: seq<Link>) returns (chain: seq<Hop>)
    requires Leads(links, minimum, u, v, ls)
    ensures Chain(Usable(Allowed(links, minimum)), u, v, chain) && Narrowest(ls, Width(chain))
    decreases |ls|
  {
    chain := [];
    if ls != [] {
      FirstLink(links, minimum, u, v, ls);
      var rest := ChainOf(links, minimum, ls[0].dst, v, ls[1..]);
      chain := [(u, ls[0].dst, ls[0].capacity)] + rest;
      assert chain[1..] == rest;
      NarrowestBefore(ls[0], ls[1..], Width(rest));
      assert [ls[0]] + ls[1..] == ls;
    }
  }

  /** The links run the route, its bottleneck is the capacity of the narrowest of them, and all links that lead from s to
      t have one that is no wider. */
  ghost predicate WidestLinks(links: seq<Link>, minimum: real, s: Node, t: Node, route: seq<Node>, width: Score, ls: seq<Link>) {
    && Leads(links, minimum, s, t, ls) && Visits(route, s, ls) && Narrowest(ls, width)
    && forall other :: Leads(links, minimum, s, t, other) ==>
         width.Infinite? || exists l: Link :: l in other && l.capacity <= width.value
  }

  lemma WidestIsRun(links: seq<Link>, minimum: real, s: Node, t: Node, route: seq<Node>, width: Score, chain: seq<Hop>)
    returns (ls: seq<Link>)
    requires Widest(Usable(Allowed(links, minimum)), s, t, route, width, chain)
    ensures WidestLinks(links, minimum, s, t, route, width, ls)
  {
    ls := LinksOf(links, minimum, s, t, chain);
    forall other | Leads(links, minimum, s, t, other)
      ensures width.Infinite? || exists l: Link :: l in other && l.capacity <= width.value
    {
      var hops := ChainOf(links, minimum, s, t, other);
      assert AtLeast(width, Width(hops));
    }
  }

  lemma JoinedIsLed(links: seq<Link>, minimum: real, s: Node, t: Node)
    ensures Joined(Usable(Allowed(links, minimum)), s, t) <==> exists ls :: Leads(links, minimum, s, t, ls)
  {
    if Joined(Usable(Allowed(links, minimum)), s, t) {
      var chain :| Chain(Usable(Allowed(links, minimum)), s, t, chain);
      var ls := LinksOf(links, minimum, s, t, chain);
    }
    if ls :| Leads(links, minimum, s, t, ls) {
      var chain := ChainOf(links, minimum, s, t, ls);
    }
  }

  lemma SearchedTree(hops: set<Hop>, s: Node, t: Node, best: map<Node, Score>, parent: map<Node, Node>, order: seq<Node>)
    requires Searched(hops, s, t, best, parent, order)
    ensures Tree(hops, s, best, parent, order) && t !in order && (t !in best ==> !Joined(hops, s, t))
    ensures t in best ==> forall chain :: Chain(hops, s, t, chain) ==> AtLeast(best[t], Width(chain))
  {
  }

  /** `plan_route`: a simple route whose narrowest link is as wide as possible, or none exactly when no feasible links at
      the floor or above lead there. */
  method PlanRoute(source: Node, destination: Node, minimum: real, links: seq<Link>)
    returns (route: seq<Node>, bottleneck: Score)
    ensures route == [] <==> !exists ls :: Leads(links, minimum, source, destination, ls)
    ensures route == [] ==> bottleneck == Mbps(0.0)
    ensures route != [] ==>
              Distinct(route) && exists ls :: WidestLinks(links, minimum, source, destination, route, bottleneck, ls)
    ensures route != [] ==> exists chain :: Widest(Usable(Allowed(links, minimum)), source, destination, route, bottleneck, chain)
  {
    hide Searched, Tree, Usable, Allowed, Leads, Visits, Narrowest, WidestLinks;
    ghost var hops := Usable(Allowed(links, minimum));
    var table := BuildTable(links, minimum);
    var best, parent;
    ghost var order;
    best, parent, order := Search(table, source, destination, Allowed(links, minimum));
    JoinedIsLed(links, minimum, source, destination);
    SearchedTree(hops, source, destination, best, parent, order);
    if destination !in best {
      return [], Mbps(0.0);
    }
    ghost var chain;
    route, chain := RouteTo(parent, source, destination, hops, best, order);
    bottleneck := best[destination];
    assert Joined(hops, source, destination) && Stops(source, chain) != [];
    assert Widest(hops, source, destination, route, bottleneck, chain);
    ghost var ls := WidestIsRun(links, minimum, source, destination, route, bottleneck, chain);
  }

  // ---------------------------------------------------------------- when no link is unusable

  /** With a floor above -1 every allowed link is usable, so the guarantee covers all of them. */
  lemma FloorMakesUsable(links: seq<Link>, minimum: real)
    requires minimum > -1.0
    ensures Usable(Allowed(links, minimum)) == Allowed(links, minimum)
  {
  }

  /** A floor of -1 or less admits a link that is never followed: an allowed route is missed. */
  lemma LowFloorMissesRoute(minimum: real, a: Node, b: Node)
    requires minimum <= -1.0 && a != b
    ensures var links := [Link(a, b, true, minimum)];
            Joined(Allowed(links, minimum), a, b) && !Joined(Usable(Allowed(links, minimum)), a, b)
  {
    var links := [Link(a, b, true, minimum)];
    var hops := Allowed(links, minimum);
    assert links[0] in links;
    assert (a, b, minimum) in hops;
    var chain := [(a, b, minimum)];
    assert chain[1..] == [];
    assert Chain(hops, b, b, []);
    assert Chain(hops, a, b, chain);
    forall other ensures !Chain(Usable(hops), a, b, other) {
    }
  }

  /** No usable link lies below the floor: every hop of a chosen route meets it. */
  lemma {:induction false} RouteMeetsFloor(links: seq<Link>, minimum: real, s: Node, t: Node, chain: seq<Hop>)
    requires Chain(Usable(Allowed(links, minimum)), s, t, chain)
    ensures AtLeast(Width(chain), Mbps(minimum))
    ensures forall h :: h in chain ==> exists l :: l in links && l.feasible && l.capacity >= minimum && h == (l.src, l.dst, l.capacity)
    decreases |chain|
  {
    if chain != [] {
      RouteMeetsFloor(links, minimum, chain[0].1, t, chain[1..]);
      assert chain[0] in Allowed(links, minimum);
      assert forall h :: h in chain ==> h == chain[0] || h in chain[1..];
    }
  }
}
