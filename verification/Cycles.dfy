/** `has_cycle` of netlab/topology.py: three-colour depth-first search. */
module Cycles {
  import opened Walks

  /** Some arc closes a walk. */
  ghost predicate Cyclic(arcs: set<Arc>) {
    exists u, v :: (u, v) in arcs && Reach(arcs, v, u)
  }

  /** Every arc out of the node at position i leads to an earlier position, or out of the graph. */
  ghost predicate LeadsBack(arcs: set<Arc>, keys: set<Node>, order: seq<Node>, i: int) {
    0 <= i < |order| && forall v :: (order[i], v) in arcs && v in keys ==> v in order[..i]
  }

  /** The reversal of order is a topological order of its nodes. */
  ghost predicate FinishOrder(arcs: set<Arc>, keys: set<Node>, order: seq<Node>) {
    forall i {:trigger LeadsBack(arcs, keys, order, i)} :: 0 <= i < |order| ==> LeadsBack(arcs, keys, order, i)
  }

  lemma FinishNode(arcs: set<Arc>, keys: set<Node>, order: seq<Node>, node: Node)
    requires FinishOrder(arcs, keys, order)
    requires forall v :: (node, v) in arcs && v in keys ==> v in order
    ensures FinishOrder(arcs, keys, order + [node])
  {
    var order' := order + [node];
    forall i | 0 <= i < |order'| ensures LeadsBack(arcs, keys, order', i) {
      if i < |order| {
        assert LeadsBack(arcs, keys, order, i);
        assert order'[..i] == order[..i];
      } else {
        assert order'[..i] == order;
      }
    }
  }

  /** Walks out of a finished node stay among the nodes finished before it. */
  lemma {:induction false} WalkLeadsBack(arcs: set<Arc>, keys: set<Node>, order: seq<Node>, i: nat, v: Node, p: seq<Node>)
    requires FinishOrder(arcs, keys, order) && i < |order| && Walk(arcs, order[i], v, p) && v in keys
    requires forall a :: a in arcs ==> a.0 in keys
    ensures v in order[..i+1]
    decreases |p|
  {
    if |p| == 1 {
      assert order[..i+1][i] == v;
    } else {
      assert LeadsBack(arcs, keys, order, i);
      var next := p[1];
      assert (order[i], next) in arcs;
      assert next in keys by {
        if |p| > 2 { assert (next, p[2]) in arcs; }
      }
      var j :| 0 <= j < i && order[..i][j] == next;
      assert Walk(arcs, next, v, p[1..]);
      WalkLeadsBack(arcs, keys, order, j, v, p[1..]);
      assert v in order[..j+1];
    }
  }

  lemma OrderedIsAcyclic(arcs: set<Arc>, keys: set<Node>, order: seq<Node>)
    requires FinishOrder(arcs, keys, order) && Distinct(order) && NodeSet(order) == keys
    requires forall a :: a in arcs ==> a.0 in keys
    ensures !Cyclic(arcs)
  {
    forall u, v | (u, v) in arcs && Reach(arcs, v, u) ensures false {
      var p :| Walk(arcs, v, u, p);
      assert v in keys by {
        if |p| > 1 { assert (p[0], p[1]) in arcs; }
      }
      assert u in NodeSet(order);
      var i :| 0 <= i < |order| && order[i] == u;
      assert LeadsBack(arcs, keys, order, i);
      var j :| 0 <= j < i && order[..i][j] == v;
      WalkLeadsBack(arcs, keys, order, j, u, p);
    }
  }

  /** From any node of a walk its end can be reached. */
  lemma ReachEnd(arcs: set<Arc>, path: seq<Node>, v: Node)
    requires IsWalk(arcs, path) && v in path
    ensures Reach(arcs, v, path[|path|-1])
  {
    var i :| 0 <= i < |path| && path[i] == v;
    assert Walk(arcs, v, path[|path|-1], path[i..]);
  }

  /** The colours partition the nodes; gray is the path of open visits, black the finished nodes in order. */
  ghost predicate Colours(arcs: set<Arc>, keys: set<Node>, white: set<Node>, gray: set<Node>, black: set<Node>,
                          path: seq<Node>, order: seq<Node>) {
    && white + gray + black == keys && white !! gray && white !! black && gray !! black
    && gray == NodeSet(path) && (path != [] ==> IsWalk(arcs, path))
    && black == NodeSet(order) && Distinct(order) && FinishOrder(arcs, keys, order)
  }

  lemma Finish(arcs: set<Arc>, keys: set<Node>, white: set<Node>, gray: set<Node>, black: set<Node>,
               path: seq<Node>, order: seq<Node>, node: Node)
    requires Colours(arcs, keys, white, gray, black, path + [node], order) && node !in path
    requires forall v :: (node, v) in arcs && v in keys ==> v in black
    ensures Colours(arcs, keys, white, gray - {node}, black + {node}, path, order + [node])
  {
    FinishNode(arcs, keys, order, node);
    assert (path + [node])[|path|] == node;
    forall x | x in path ensures x in path + [node] { }
    assert NodeSet(path + [node]) == NodeSet(path) + {node};
    assert NodeSet(order + [node]) == NodeSet(order) + {node};
    if path != [] {
      assert forall i :: 0 <= i < |path| ==> path[i] == (path + [node])[i];
    }
  }

  lemma OpenNode(arcs: set<Arc>, keys: set<Node>, white: set<Node>, gray: set<Node>, black: set<Node>,
             path: seq<Node>, order: seq<Node>, node: Node)
    requires Colours(arcs, keys, white, gray, black, path, order) && node in white
    requires path != [] ==> (path[|path|-1], node) in arcs
    ensures node !in path && Colours(arcs, keys, white - {node}, gray + {node}, black, path + [node], order)
  {
    assert NodeSet(path + [node]) == NodeSet(path) + {node};
  }

  /** The nested function: true as soon as an arc leads back to an open node. */
  method Visit(graph: Graph, node: Node, white0: set<Node>, gray0: set<Node>, black0: set<Node>,
               ghost path: seq<Node>, ghost order0: seq<Node>)
    returns (found: bool, white: set<Node>, gray: set<Node>, black: set<Node>, ghost order: seq<Node>)
    requires Colours(Arcs(graph), graph.Keys, white0, gray0, black0, path, order0) && node in white0
    requires path != [] ==> (path[|path|-1], node) in Arcs(graph)
    ensures found ==> Cyclic(Arcs(graph))
    ensures !found ==> Colours(Arcs(graph), graph.Keys, white, gray, black, path, order)
    ensures !found ==> white <= white0 - {node} && black0 + {node} <= black
    decreases white0, 1
  {
    OpenNode(Arcs(graph), graph.Keys, white0, gray0, black0, path, order0, node);
    white, gray, black, order := white0 - {node}, gray0 + {node}, black0, order0;
    found, white, gray, black, order := VisitNeighbours(graph, node, white, gray, black, path, order);
    if !found {
      forall v | (node, v) in Arcs(graph) && v in graph.Keys ensures v in black {
        assert v in graph[node];
      }
      Finish(Arcs(graph), graph.Keys, white, gray, black, path, order, node);
      gray, black, order := gray - {node}, black + {node}, order + [node];
    }
  }

  method VisitNeighbours(graph: Graph, node: Node, white0: set<Node>, gray0: set<Node>, black0: set<Node>,
                         ghost path: seq<Node>, ghost order0: seq<Node>)
    returns (found: bool, white: set<Node>, gray: set<Node>, black: set<Node>, ghost order: seq<Node>)
    requires node in graph && Colours(Arcs(graph), graph.Keys, white0, gray0, black0, path + [node], order0)
    ensures found ==> Cyclic(Arcs(graph))
    ensures !found ==> Colours(Arcs(graph), graph.Keys, white, gray, black, path + [node], order)
    ensures !found ==> white <= white0 && black0 <= black
    ensures !found ==> forall v :: v in graph[node] && v in graph ==> v in black
    decreases white0 + {node}, 0
  {
    white, gray, black, order := white0, gray0, black0, order0;
    var todo := graph[node];
    while todo != {}
      invariant todo <= graph[node]
      invariant Colours(Arcs(graph), graph.Keys, white, gray, black, path + [node], order)
      invariant white <= white0 && black0 <= black
      invariant forall v :: v in graph[node] && v !in todo && v in graph ==> v in black
    {
      var nxt :| nxt in todo;
      todo := todo - {nxt};
      if nxt in black { continue; }
      assert (node, nxt) in Arcs(graph);
      assert (path + [node])[|path|] == node;
      if nxt in gray {
        ReachEnd(Arcs(graph), path + [node], nxt);
        return true, white, gray, black, order;
      }
      if nxt in white {
        var deeper;
        deeper, white, gray, black, order := Visit(graph, nxt, white, gray, black, path + [node], order);
        if deeper {
          return true, white, gray, black, order;
        }
      }
    }
    found := false;
  }

  /** `has_cycle`: true exactly for cyclic graphs; otherwise the nodes are left in topological order. */
  method HasCycle(graph: Graph) returns (found: bool, ghost order: seq<Node>)
    ensures found <==> Cyclic(Arcs(graph))
    ensures !found ==> Distinct(order) && NodeSet(order) == graph.Keys && FinishOrder(Arcs(graph), graph.Keys, order)
  {
    var white, gray, black: set<Node> := graph.Keys, {}, {};
    order := [];
    while white != {}
      invariant Colours(Arcs(graph), graph.Keys, white, gray, black, [], order)
    {
      var node :| node in white;
      var cyclic;
      cyclic, white, gray, black, order := Visit(graph, node, white, gray, black, [], order);
      if cyclic {
        return true, order;
      }
    }
    found := false;
    OrderedIsAcyclic(Arcs(graph), graph.Keys, order);
  }
}
