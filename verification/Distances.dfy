/** Hop distances, and the invariant shared by every breadth-first search of the repository. */
module Distances {
  import opened Walks

  /** v is d hops away from s: some walk has d hops and none has fewer. */
  ghost predicate Distance(arcs: set<Arc>, s: Node, v: Node, d: int) {
    && (exists p :: Walk(arcs, s, v, p) && |p| == d + 1)
    && (forall p :: Walk(arcs, s, v, p) ==> |p| >= d + 1)
  }

  lemma DistanceUnique(arcs: set<Arc>, s: Node, v: Node, d: int, e: int)
    requires Distance(arcs, s, v, d) && Distance(arcs, s, v, e)
    ensures d == e
  {
  }

  lemma DistanceReach(arcs: set<Arc>, s: Node, v: Node, d: int)
    requires Distance(arcs, s, v, d)
    ensures Reach(arcs, s, v) && d >= 0
  {
    var p :| Walk(arcs, s, v, p) && |p| == d + 1;
  }

  // ---------------------------------------------------------------- labels

  /** A label other than the source's is one more than that of some labelled predecessor. */
  ghost predicate Supported(arcs: set<Arc>, dist: map<Node, int>, v: Node) {
    v in dist && exists u :: u in dist && (u, v) in arcs && dist[v] == dist[u] + 1
  }

  ghost predicate Labels(arcs: set<Arc>, s: Node, dist: map<Node, int>) {
    && s in dist && dist[s] == 0
    && (forall v :: v in dist ==> dist[v] >= 0)
    && (forall v {:trigger Supported(arcs, dist, v)} :: v in dist && v != s ==> Supported(arcs, dist, v))
  }

  lemma {:induction false} LabelIsWalk(arcs: set<Arc>, s: Node, dist: map<Node, int>, v: Node) returns (p: seq<Node>)
    requires Labels(arcs, s, dist) && v in dist
    ensures Walk(arcs, s, v, p) && |p| == dist[v] + 1
    decreases dist[v]
  {
    if v == s {
      p := [s];
    } else {
      assert Supported(arcs, dist, v);
      var u :| u in dist && (u, v) in arcs && dist[v] == dist[u] + 1;
      var q := LabelIsWalk(arcs, s, dist, u);
      p := q + [v];
    }
  }

  /** Nodes with labels below k have only labelled successors, one further away at most. */
  ghost predicate Relaxed(arcs: set<Arc>, dist: map<Node, int>, k: int) {
    forall u, v :: (u, v) in arcs && u in dist && dist[u] < k ==> v in dist && dist[v] <= dist[u] + 1
  }

  lemma {:induction false} WalkBoundsLabel(arcs: set<Arc>, s: Node, dist: map<Node, int>, k: int, v: Node, p: seq<Node>)
    requires Labels(arcs, s, dist) && Relaxed(arcs, dist, k)
    requires Walk(arcs, s, v, p) && |p| <= k + 1
    ensures v in dist && dist[v] <= |p| - 1
    decreases |p|
  {
    if |p| > 1 {
      var u := p[|p|-2];
      assert Walk(arcs, s, u, p[..|p|-1]);
      WalkBoundsLabel(arcs, s, dist, k, u, p[..|p|-1]);
      assert (u, v) in arcs;
    }
  }

  /** A label within the relaxed range is the true distance. */
  lemma LabelIsDistance(arcs: set<Arc>, s: Node, dist: map<Node, int>, k: int, v: Node)
    requires Labels(arcs, s, dist) && Relaxed(arcs, dist, k) && v in dist && dist[v] <= k
    ensures Distance(arcs, s, v, dist[v])
  {
    var p := LabelIsWalk(arcs, s, dist, v);
    forall q | Walk(arcs, s, v, q) ensures |q| >= dist[v] + 1 {
      if |q| <= k + 1 {
        WalkBoundsLabel(arcs, s, dist, k, v, q);
      }
    }
  }

  // ---------------------------------------------------------------- breadth-first search

  /** Between two rounds: the queue holds the labelled nodes not yet expanded, in order of distance,
      and no label exceeds the first queued one by more than 1. */
  ghost predicate Frontier(arcs: set<Arc>, s: Node, dist: map<Node, int>, queue: seq<Node>, done: set<Node>) {
    && Labels(arcs, s, dist)
    && dist.Keys == done + NodeSet(queue)
    && Distinct(queue) && (forall n :: n in queue ==> n !in done)
    && (forall u, v :: (u, v) in arcs && u in done ==> v in dist && dist[v] <= dist[u] + 1)
    && (forall i, j :: 0 <= i < j < |queue| ==> dist[queue[i]] <= dist[queue[j]])
    && (queue != [] ==> forall n :: n in dist ==> dist[n] <= dist[queue[0]] + 1)
    && (queue != [] ==> forall n :: n in done ==> dist[n] <= dist[queue[0]])
  }

  /** node has been taken off the queue and its successors in scanned have been dealt with. */
  ghost predicate Expanding(arcs: set<Arc>, s: Node, dist: map<Node, int>, queue: seq<Node>, done: set<Node>,
                            node: Node, scanned: set<Node>) {
    && Labels(arcs, s, dist)
    && dist.Keys == done + {node} + NodeSet(queue) && node in dist
    && Distinct(queue) && node !in done && node !in queue && (forall n :: n in queue ==> n !in done)
    && (forall u, v :: (u, v) in arcs && u in done ==> v in dist && dist[v] <= dist[u] + 1)
    && (forall v :: v in scanned ==> v in dist)
    && (forall i, j :: 0 <= i < j < |queue| ==> dist[queue[i]] <= dist[queue[j]])
    && (forall n :: n in queue ==> dist[node] <= dist[n])
    && (forall n :: n in dist ==> dist[n] <= dist[node] + 1)
    && (forall n :: n in done ==> dist[n] <= dist[node])
  }

  lemma Start(arcs: set<Arc>, s: Node)
    ensures Frontier(arcs, s, map[s := 0], [s], {})
  {
  }

  lemma Pop(arcs: set<Arc>, s: Node, dist: map<Node, int>, queue: seq<Node>, done: set<Node>)
    requires Frontier(arcs, s, dist, queue, done) && queue != []
    ensures Expanding(arcs, s, dist, queue[1..], done, queue[0], {})
  {
    assert queue == [queue[0]] + queue[1..];
  }

  lemma Discover(arcs: set<Arc>, s: Node, dist: map<Node, int>, queue: seq<Node>, done: set<Node>,
                 node: Node, scanned: set<Node>, nxt: Node)
    requires Expanding(arcs, s, dist, queue, done, node, scanned) && (node, nxt) in arcs && nxt !in dist
    ensures Expanding(arcs, s, dist[nxt := dist[node] + 1], queue + [nxt], done, node, scanned + {nxt})
  {
    var dist' := dist[nxt := dist[node] + 1];
    forall v | v in dist' && v != s ensures Supported(arcs, dist', v) {
      if v == nxt {
        assert node in dist' && dist'[v] == dist'[node] + 1;
      } else {
        assert Supported(arcs, dist, v);
        var u :| u in dist && (u, v) in arcs && dist[v] == dist[u] + 1;
        assert u in dist' && dist'[v] == dist'[u] + 1;
      }
    }
    forall i, j | 0 <= i < j < |queue + [nxt]| ensures dist'[(queue + [nxt])[i]] <= dist'[(queue + [nxt])[j]] {
      assert (queue + [nxt])[i] == queue[i];
    }
  }

  lemma Expanded(arcs: set<Arc>, s: Node, dist: map<Node, int>, queue: seq<Node>, done: set<Node>,
                 node: Node, scanned: set<Node>)
    requires Expanding(arcs, s, dist, queue, done, node, scanned)
    requires forall v :: (node, v) in arcs ==> v in scanned
    ensures Frontier(arcs, s, dist, queue, done + {node})
  {
  }

  /** When the queue is empty, the labels are the distances of exactly the reachable nodes. */
  lemma Finished(arcs: set<Arc>, s: Node, dist: map<Node, int>, done: set<Node>)
    requires Frontier(arcs, s, dist, [], done)
    ensures forall v :: v in dist ==> Distance(arcs, s, v, dist[v])
    ensures forall v :: v in dist <==> Reach(arcs, s, v)
  {
    forall v | v in dist ensures Distance(arcs, s, v, dist[v]) && Reach(arcs, s, v) {
      LabelIsDistance(arcs, s, dist, dist[v], v);
      DistanceReach(arcs, s, v, dist[v]);
    }
    forall v | Reach(arcs, s, v) ensures v in dist {
      ReachStays(arcs, dist.Keys, s, v);
    }
  }
}
