/** `_simple_path_count` of netlab/topology.py. */
module SimplePathCount {
  import opened Arithmetic
  import opened Walks
  import opened LowLink
  import opened Reachability

  ghost predicate SimplePath(arcs: set<Arc>, source: Node, sink: Node, p: seq<Node>) {
    Walk(arcs, source, sink, p) && Distinct(p)
  }

  // ---------------------------------------------------------------- there are finitely many

  ghost function SequencesUpTo(nodes: set<Node>, k: nat): set<seq<Node>> {
    if k == 0 then {[]} else {[]} + set p, n | p in SequencesUpTo(nodes, k - 1) && n in nodes :: p + [n]
  }

  lemma {:induction false} InSequencesUpTo(nodes: set<Node>, k: nat, p: seq<Node>)
    requires NodeSet(p) <= nodes && |p| <= k
    ensures p in SequencesUpTo(nodes, k)
    decreases k
  {
    if p != [] {
      var q, n := p[..|p|-1], p[|p|-1];
      assert n in NodeSet(p) && NodeSet(q) <= NodeSet(p);
      InSequencesUpTo(nodes, k - 1, q);
      assert p == q + [n];
    }
  }

  /** All simple paths from source to sink. */
  ghost function SimplePaths(arcs: set<Arc>, nodes: set<Node>, source: Node, sink: Node): set<seq<Node>> {
    set p | p in SequencesUpTo(nodes, |nodes|) && SimplePath(arcs, source, sink, p)
  }

  /** No simple path is missing from SimplePaths. */
  lemma SimplePathsComplete(arcs: set<Arc>, nodes: set<Node>, source: Node, sink: Node, p: seq<Node>)
    requires source in nodes && forall a :: a in arcs ==> a.1 in nodes
    ensures p in SimplePaths(arcs, nodes, source, sink) <==> SimplePath(arcs, source, sink, p)
  {
    if SimplePath(arcs, source, sink, p) {
      forall i | 0 <= i < |p| ensures p[i] in nodes {
        if i > 0 { assert (p[i-1], p[i]) in arcs; }
      }
      NodeSetSize(p);
      SubsetSize(NodeSet(p), nodes);
      InSequencesUpTo(nodes, |nodes|, p);
    }
  }

  // ---------------------------------------------------------------- the search

  ghost predicate Incomparable(p: seq<Node>, q: seq<Node>) {
    !(p <= q) && !(q <= p)
  }

  ghost predicate Apart(all: seq<seq<Node>>, i: int, j: int)
    requires 0 <= i < j < |all|
  {
    Incomparable(all[i], all[j])
  }

  /** No listed path is a prefix of another. */
  ghost predicate Antichain(all: seq<seq<Node>>) {
    forall i, j {:trigger Apart(all, i, j)} :: 0 <= i < j < |all| ==> Apart(all, i, j)
  }

  ghost predicate PathFrom(arcs: set<Arc>, source: Node, p: seq<Node>) {
    IsWalk(arcs, p) && p[0] == source && Distinct(p)
  }

  /** p has been found, or continues a path still on the stack. */
  ghost predicate Accounted(found: seq<seq<Node>>, paths: seq<seq<Node>>, p: seq<Node>) {
    p in found || exists i :: 0 <= i < |paths| && paths[i] <= p
  }

  ghost predicate Searching(arcs: set<Arc>, source: Node, sink: Node, found: seq<seq<Node>>, paths: seq<seq<Node>>) {
    && (forall i :: 0 <= i < |found| ==> SimplePath(arcs, source, sink, found[i]))
    && (forall i :: 0 <= i < |paths| ==> PathFrom(arcs, source, paths[i]))
    && Antichain(found + paths)
    && (forall p {:trigger Accounted(found, paths, p)} :: SimplePath(arcs, source, sink, p) ==> Accounted(found, paths, p))
  }

  /** A simple path to sink is not a proper prefix of another one. */
  lemma SinkEnds(arcs: set<Arc>, source: Node, sink: Node, q: seq<Node>, p: seq<Node>)
    requires SimplePath(arcs, source, sink, q) && SimplePath(arcs, source, sink, p) && q <= p
    ensures q == p
  {
    assert p[|q|-1] == sink;
  }

  lemma Regrouped(found: seq<seq<Node>>, base: seq<seq<Node>>, q: seq<Node>)
    requires Antichain(found + (base + [q]))
    ensures Antichain(found + [q] + base)
  {
    var before, after := found + (base + [q]), found + [q] + base;
    var f, last := |found|, |before| - 1;
    assert before[last] == q;
    forall i, j {:trigger Apart(after, i, j)} | 0 <= i < j < |after| ensures Apart(after, i, j) {
      var i', j' := if i < f then i else if i == f then last else i - 1, if j < f then j else if j == f then last else j - 1;
      assert after[i] == before[i'] && after[j] == before[j'];
      if i' < j' {
        assert Apart(before, i', j');
      } else {
        assert Apart(before, j', i');
      }
    }
  }

  /** The path taken off the stack ends at the sink. */
  lemma Arrive(arcs: set<Arc>, source: Node, sink: Node, found: seq<seq<Node>>, base: seq<seq<Node>>, q: seq<Node>)
    requires Searching(arcs, source, sink, found, base + [q]) && |q| > 0 && q[|q|-1] == sink
    ensures Searching(arcs, source, sink, found + [q], base)
  {
    var paths := base + [q];
    assert paths[|base|] == q;
    forall i | 0 <= i < |base| ensures PathFrom(arcs, source, base[i]) {
      assert paths[i] == base[i];
    }
    Regrouped(found, base, q);
    forall p | SimplePath(arcs, source, sink, p) ensures Accounted(found + [q], base, p) {
      assert Accounted(found, paths, p);
      if p !in found {
        var i :| 0 <= i < |paths| && paths[i] <= p;
        if i == |base| {
          SinkEnds(arcs, source, sink, q, p);
          assert (found + [q])[|found|] == p;
        } else {
          assert base[i] <= p;
        }
      } else {
        var i :| 0 <= i < |found| && found[i] == p;
        assert (found + [q])[i] == p;
      }
    }
  }

  ghost function Extended(q: seq<Node>, names: seq<Node>): (r: seq<seq<Node>>)
    ensures |r| == |names| && forall i :: 0 <= i < |r| ==> r[i] == q + [names[i]]
  {
    seq(|names|, i requires 0 <= i < |names| => q + [names[i]])
  }

  lemma ChildIncomparable(x: seq<Node>, q: seq<Node>, n: Node)
    requires Incomparable(x, q)
    ensures Incomparable(x, q + [n])
  {
    assert x <= q + [n] ==> x == q + [n] || x <= q;
  }

  lemma BranchApart(found: seq<seq<Node>>, base: seq<seq<Node>>, q: seq<Node>, names: seq<Node>)
    requires Antichain(found + (base + [q])) && Distinct(names)
    ensures Antichain(found + (base + Extended(q, names)))
  {
    var before, after := found + (base + [q]), found + (base + Extended(q, names));
    var k := |found| + |base|;
    forall i, j {:trigger Apart(after, i, j)} | 0 <= i < j < |after| ensures Apart(after, i, j) {
      if j < k {
        assert Apart(before, i, j);
        assert before[i] == after[i] && before[j] == after[j];
      } else if i < k {
        assert Apart(before, i, k);
        assert before[i] == after[i] && before[k] == q;
        ChildIncomparable(after[i], q, names[j - k]);
      } else {
        var a, b := q + [names[i - k]], q + [names[j - k]];
        assert after[i] == a && after[j] == b;
        assert a[|q|] != b[|q|];
      }
    }
  }

  /** The path taken off the stack goes on to every neighbour not yet on it. */
  lemma Branch(arcs: set<Arc>, source: Node, sink: Node, found: seq<seq<Node>>, base: seq<seq<Node>>, q: seq<Node>, names: seq<Node>)
    requires Searching(arcs, source, sink, found, base + [q]) && |q| > 0 && q[|q|-1] != sink
    requires Distinct(names) && NodeSet(names) == Neighbours(arcs, q[|q|-1]) - NodeSet(q)
    ensures Searching(arcs, source, sink, found, base + Extended(q, names))
  {
    var paths, next := base + [q], base + Extended(q, names);
    assert paths[|base|] == q;
    forall i | 0 <= i < |next| ensures PathFrom(arcs, source, next[i]) {
      if i < |base| {
        assert paths[i] == next[i];
      } else {
        assert names[i - |base|] in NodeSet(names);
      }
    }
    BranchApart(found, base, q, names);
    forall p | SimplePath(arcs, source, sink, p) ensures Accounted(found, next, p) {
      assert Accounted(found, paths, p);
      if p !in found {
        var i :| 0 <= i < |paths| && paths[i] <= p;
        if i < |base| {
          assert next[i] <= p;
        } else {
          GoesOn(arcs, source, sink, q, p, names);
          var j :| 0 <= j < |names| && q + [names[j]] <= p;
          assert next[|base| + j] <= p;
        }
      }
    }
  }

  lemma GoesOn(arcs: set<Arc>, source: Node, sink: Node, q: seq<Node>, p: seq<Node>, names: seq<Node>)
    requires SimplePath(arcs, source, sink, p) && |q| > 0 && q <= p && q[|q|-1] != sink
    requires NodeSet(names) == Neighbours(arcs, q[|q|-1]) - NodeSet(q)
    ensures exists j :: 0 <= j < |names| && q + [names[j]] <= p
  {
    var n := p[|q|];
    assert (p[|q|-1], p[|q|]) in arcs;
    assert n in NodeSet(names);
    var j :| 0 <= j < |names| && names[j] == n;
    assert q + [names[j]] <= p;
  }

  // ---------------------------------------------------------------- termination

  /** An upper bound on the entries that one entry with k free nodes leads to, itself included. */
  ghost function Load(k: nat): nat {
    if k == 0 then 1 else 1 + k * Load(k - 1)
  }

  ghost function StackLoad(nodes: set<Node>, stack: seq<(Node, set<Node>)>): nat {
    if stack == [] then 0
    else StackLoad(nodes, stack[..|stack|-1]) + Load(|nodes - stack[|stack|-1].1|)
  }

  lemma PushLoad(nodes: set<Node>, stack: seq<(Node, set<Node>)>, entry: (Node, set<Node>))
    ensures StackLoad(nodes, stack + [entry]) == StackLoad(nodes, stack) + Load(|nodes - entry.1|)
  {
    assert (stack + [entry])[..|stack|] == stack;
  }

  // ---------------------------------------------------------------- the method

  /** Every stack entry is the end of a path and the set of its nodes. */
  ghost predicate Tracked(nodes: set<Node>, stack: seq<(Node, set<Node>)>, paths: seq<seq<Node>>) {
    && |stack| == |paths|
    && forall i :: 0 <= i < |stack| ==>
         |paths[i]| > 0 && stack[i].0 == paths[i][|paths[i]|-1] && stack[i].1 == NodeSet(paths[i]) && stack[i].1 <= nodes
  }

  lemma PushTracked(nodes: set<Node>, stack: seq<(Node, set<Node>)>, base: seq<seq<Node>>, q: seq<Node>, names: seq<Node>, nxt: Node)
    requires Tracked(nodes, stack, base + Extended(q, names)) && NodeSet(q) + {nxt} <= nodes && nxt !in NodeSet(names)
    ensures Tracked(nodes, stack + [(nxt, NodeSet(q) + {nxt})], base + Extended(q, names + [nxt]))
    ensures NodeSet(names + [nxt]) == NodeSet(names) + {nxt}
  {
    assert base + Extended(q, names + [nxt]) == base + Extended(q, names) + [q + [nxt]];
    assert NodeSet(q + [nxt]) == NodeSet(q) + {nxt};
  }

  /** While the neighbours of the last node of q are pushed; names are those pushed so far. */
  ghost predicate Pushing(nodes: set<Node>, scanned: set<Node>, stack0: seq<(Node, set<Node>)>, stack: seq<(Node, set<Node>)>,
                          base: seq<seq<Node>>, q: seq<Node>, names: seq<Node>) {
    && Distinct(names) && NodeSet(names) == scanned - NodeSet(q)
    && Tracked(nodes, stack, base + Extended(q, names))
    && StackLoad(nodes, stack) == StackLoad(nodes, stack0) + |names| * ChildLoad(nodes, q)
  }

  ghost function ChildLoad(nodes: set<Node>, q: seq<Node>): nat {
    var free := |nodes - NodeSet(q)|;
    if free > 0 then Load(free - 1) else 0
  }

  lemma PushStart(nodes: set<Node>, stack: seq<(Node, set<Node>)>, base: seq<seq<Node>>, q: seq<Node>)
    requires Tracked(nodes, stack, base)
    ensures Pushing(nodes, {}, stack, stack, base, q, [])
  {
    assert base + Extended(q, []) == base;
  }

  lemma LoadOfChild(nodes: set<Node>, q: seq<Node>, nxt: Node)
    requires nxt in nodes && nxt !in NodeSet(q)
    ensures Load(|nodes - (NodeSet(q) + {nxt})|) == ChildLoad(nodes, q)
  {
    hide Load;
    FreeShrinks(nodes, NodeSet(q), nxt);
  }

  lemma FreeShrinks(nodes: set<Node>, seen: set<Node>, nxt: Node)
    requires nxt in nodes && nxt !in seen
    ensures |nodes - seen| > 0 && |nodes - (seen + {nxt})| == |nodes - seen| - 1
  {
    var free := nodes - seen;
    assert free == (free - {nxt}) + {nxt};
    assert nodes - (seen + {nxt}) == free - {nxt};
  }

  lemma LoadGrows(nodes: set<Node>, stack0: seq<(Node, set<Node>)>, stack: seq<(Node, set<Node>)>, q: seq<Node>, n: nat, nxt: Node)
    requires nxt in nodes && nxt !in NodeSet(q)
    requires StackLoad(nodes, stack) == StackLoad(nodes, stack0) + n * ChildLoad(nodes, q)
    ensures StackLoad(nodes, stack + [(nxt, NodeSet(q) + {nxt})]) == StackLoad(nodes, stack0) + (n + 1) * ChildLoad(nodes, q)
  {
    PushLoad(nodes, stack, (nxt, NodeSet(q) + {nxt}));
    LoadOfChild(nodes, q, nxt);
    OneMore(n, ChildLoad(nodes, q));
  }

  lemma PushSkip(nodes: set<Node>, scanned: set<Node>, stack0: seq<(Node, set<Node>)>, stack: seq<(Node, set<Node>)>,
                 base: seq<seq<Node>>, q: seq<Node>, names: seq<Node>, nxt: Node)
    requires Pushing(nodes, scanned, stack0, stack, base, q, names) && nxt in NodeSet(q)
    ensures Pushing(nodes, scanned + {nxt}, stack0, stack, base, q, names)
  {
    assert scanned + {nxt} - NodeSet(q) == scanned - NodeSet(q);
  }

  lemma PushNew(nodes: set<Node>, scanned: set<Node>, stack0: seq<(Node, set<Node>)>, stack: seq<(Node, set<Node>)>,
                base: seq<seq<Node>>, q: seq<Node>, names: seq<Node>, nxt: Node)
    requires Pushing(nodes, scanned, stack0, stack, base, q, names)
    requires nxt !in scanned && nxt !in NodeSet(q) && nxt in nodes && NodeSet(q) <= nodes
    ensures Pushing(nodes, scanned + {nxt}, stack0, stack + [(nxt, NodeSet(q) + {nxt})], base, q, names + [nxt])
  {
    hide StackLoad, Load, ChildLoad;
    PushTracked(nodes, stack, base, q, names, nxt);
    LoadGrows(nodes, stack0, stack, q, |names|, nxt);
    assert nxt !in NodeSet(names);
  }

  lemma PushStep(nodes: set<Node>, scanned: set<Node>, stack0: seq<(Node, set<Node>)>, stack: seq<(Node, set<Node>)>,
                 base: seq<seq<Node>>, q: seq<Node>, names: seq<Node>, nxt: Node)
    requires Pushing(nodes, scanned, stack0, stack, base, q, names) && nxt !in scanned && nxt in nodes && NodeSet(q) <= nodes
    ensures nxt in NodeSet(q) ==> Pushing(nodes, scanned + {nxt}, stack0, stack, base, q, names)
    ensures nxt !in NodeSet(q) ==>
              Pushing(nodes, scanned + {nxt}, stack0, stack + [(nxt, NodeSet(q) + {nxt})], base, q, names + [nxt])
  {
    if nxt in NodeSet(q) {
      PushSkip(nodes, scanned, stack0, stack, base, q, names, nxt);
    } else {
      PushNew(nodes, scanned, stack0, stack, base, q, names, nxt);
    }
  }

  lemma PushEnd(nodes: set<Node>, scanned: set<Node>, stack0: seq<(Node, set<Node>)>, stack: seq<(Node, set<Node>)>,
                base: seq<seq<Node>>, q: seq<Node>, names: seq<Node>)
    requires Pushing(nodes, scanned, stack0, stack, base, q, names) && scanned <= nodes
    ensures Distinct(names) && NodeSet(names) == scanned - NodeSet(q) && Tracked(nodes, stack, base + Extended(q, names))
    ensures StackLoad(nodes, stack) < StackLoad(nodes, stack0) + Load(|nodes - NodeSet(q)|)
  {
    NodeSetSize(names);
    SubsetSize(NodeSet(names), nodes - NodeSet(q));
    Monotone(|names|, |nodes - NodeSet(q)|, ChildLoad(nodes, q));
  }

  /** `for nxt in graph.get(node, set())` */
  method PushNeighbours(graph: Graph, node: Node, seen: set<Node>, stack0: seq<(Node, set<Node>)>,
                        ghost nodes: set<Node>, ghost base: seq<seq<Node>>, ghost q: seq<Node>)
    returns (stack: seq<(Node, set<Node>)>, ghost names: seq<Node>)
    requires Mentioned(graph) <= nodes && seen <= nodes
    requires Tracked(nodes, stack0, base) && seen == NodeSet(q)
    ensures Distinct(names) && NodeSet(names) == Neighbours(Arcs(graph), node) - seen
    ensures Tracked(nodes, stack, base + Extended(q, names))
    ensures StackLoad(nodes, stack) < StackLoad(nodes, stack0) + Load(|nodes - seen|)
  {
    hide Pushing, StackLoad, Load, Tracked, Extended;
    stack, names := stack0, [];
    SuccIsNeighbours(graph, node);
    PushStart(nodes, stack0, base, q);
    var todo := Succ(graph, node);
    ghost var scanned: set<Node> := {};
    while todo != {}
      invariant todo + scanned == Succ(graph, node) && todo !! scanned
      invariant Pushing(nodes, scanned, stack0, stack, base, q, names)
    {
      var nxt :| nxt in todo;
      todo := todo - {nxt};
      PushStep(nodes, scanned, stack0, stack, base, q, names, nxt);
      if nxt !in seen {
        stack := stack + [(nxt, seen + {nxt})];
        names := names + [nxt];
      }
      scanned := scanned + {nxt};
    }
    PushEnd(nodes, scanned, stack0, stack, base, q, names);
  }

  lemma Initially(arcs: set<Arc>, source: Node, sink: Node)
    ensures Searching(arcs, source, sink, [], [[source]])
  {
    forall p | SimplePath(arcs, source, sink, p) ensures Accounted([], [[source]], p) {
      assert [[source]][0] <= p;
    }
  }

  /** The top of the stack and what is below it. */
  lemma TopOfStack(nodes: set<Node>, stack: seq<(Node, set<Node>)>, paths: seq<seq<Node>>)
    requires Tracked(nodes, stack, paths) && stack != []
    ensures var n := |stack| - 1;
            && paths == paths[..n] + [paths[n]] && Tracked(nodes, stack[..n], paths[..n])
            && |paths[n]| > 0 && stack[n].0 == paths[n][|paths[n]|-1] && stack[n].1 == NodeSet(paths[n])
            && stack[n].1 <= nodes
            && StackLoad(nodes, stack) == StackLoad(nodes, stack[..n]) + Load(|nodes - stack[n].1|)
  {
  }

  lemma LoadPositive(k: nat)
    ensures Load(k) > 0
  {
  }

  /** `stack.pop()` and what follows: the popped path is finished, or goes on to its neighbours. */
  method PopPath(graph: Graph, source: Node, sink: Node, stack0: seq<(Node, set<Node>)>, ghost nodes: set<Node>,
                 ghost found0: seq<seq<Node>>, ghost paths0: seq<seq<Node>>)
    returns (stack: seq<(Node, set<Node>)>, arrived: bool, ghost found: seq<seq<Node>>, ghost paths: seq<seq<Node>>)
    requires stack0 != [] && Mentioned(graph) <= nodes
    requires Searching(Arcs(graph), source, sink, found0, paths0) && Tracked(nodes, stack0, paths0)
    ensures Searching(Arcs(graph), source, sink, found, paths) && Tracked(nodes, stack, paths)
    ensures |found| == |found0| + (if arrived then 1 else 0)
    ensures StackLoad(nodes, stack) < StackLoad(nodes, stack0)
  {
    hide Searching, StackLoad, Load;
    var (node, seen) := stack0[|stack0|-1];
    TopOfStack(nodes, stack0, paths0);
    LoadPositive(|nodes - seen|);
    ghost var base, q := paths0[..|stack0|-1], paths0[|stack0|-1];
    stack := stack0[..|stack0|-1];
    arrived := node == sink;
    if arrived {
      Arrive(Arcs(graph), source, sink, found0, base, q);
      found, paths := found0 + [q], base;
    } else {
      ghost var names;
      stack, names := PushNeighbours(graph, node, seen, stack, nodes, base, q);
      Branch(Arcs(graph), source, sink, found0, base, q, names);
      found, paths := found0, base + Extended(q, names);
    }
  }

  /** `_simple_path_count`: the number of simple paths, or the limit if there are more. */
  method SimplePathCount(graph: Graph, source: Node, sink: Node, limit: int) returns (count: int)
    ensures var n := |SimplePaths(Arcs(graph), Mentioned(graph) + {source}, source, sink)|;
            count == if limit <= 0 then 0 else if n < limit then n else limit
  {
    hide Searching, StackLoad;
    count := 0;
    var stack: seq<(Node, set<Node>)> := [(source, {source})];
    ghost var arcs, nodes := Arcs(graph), Mentioned(graph) + {source};
    ghost var found: seq<seq<Node>>, paths := [], [[source]];
    Initially(arcs, source, sink);
    assert NodeSet([source]) == {source};
    while stack != [] && count < limit
      invariant Searching(arcs, source, sink, found, paths) && Tracked(nodes, stack, paths)
      invariant count == |found| && (limit > 0 ==> count <= limit) && (limit <= 0 ==> count == 0)
      decreases StackLoad(nodes, stack)
    {
      var arrived;
      stack, arrived, found, paths := PopPath(graph, source, sink, stack, nodes, found, paths);
      if arrived {
        count := count + 1;
      }
    }
    Tally(arcs, nodes, source, sink, found, paths);
  }

  /** The found paths are different simple paths, and all of them once the stack is empty. */
  lemma Tally(arcs: set<Arc>, nodes: set<Node>, source: Node, sink: Node, found: seq<seq<Node>>, paths: seq<seq<Node>>)
    requires source in nodes && forall a :: a in arcs ==> a.1 in nodes
    requires Searching(arcs, source, sink, found, paths)
    ensures |found| <= |SimplePaths(arcs, nodes, source, sink)|
    ensures paths == [] ==> |found| == |SimplePaths(arcs, nodes, source, sink)|
  {
    var all := SimplePaths(arcs, nodes, source, sink);
    forall i | 0 <= i < |found| ensures found[i] in all {
      SimplePathsComplete(arcs, nodes, source, sink, found[i]);
    }
    forall i, j | 0 <= i < j < |found| ensures found[i] != found[j] {
      assert Apart(found + paths, i, j);
    }
    DifferentSize(found, all);
    if paths == [] {
      forall p | p in all ensures p in found {
        SimplePathsComplete(arcs, nodes, source, sink, p);
        assert Accounted(found, paths, p);
      }
    }
  }
}
