/** The backward pass of `_brandes_betweenness` in netlab/topology.py: the dependencies of one source. */
module BrandesBackward {
  import opened Walks
  import opened RealSums
  import opened BrandesForward
  import opened Dependencies
  import opened DependencyTotals

  /** dep[v] is what v has received from its children in from. */
  ghost predicate Gathered(arcs: set<Arc>, s: Node, dist: map<Node, int>, dep: map<Node, real>, v: Node, from: set<Node>) {
    v in dep && dep[v] == RealSum(Children(arcs, dist, v) * from, w => Received(arcs, s, dist, v, w))
  }

  ghost predicate GatheredSo(arcs: set<Arc>, s: Node, dist: map<Node, int>, dep: map<Node, real>,
                             popped: set<Node>, node: Node, served: set<Node>, v: Node) {
    Gathered(arcs, s, dist, dep, v, if v in served then popped + {node} else popped)
  }

  /** Every node has received from the popped nodes, those in served also from node; nodes out of reach nothing. */
  ghost predicate Collected(arcs: set<Arc>, s: Node, dist: map<Node, int>, dep: map<Node, real>,
                            popped: set<Node>, node: Node, served: set<Node>) {
    && (forall v :: v in dep && v !in dist ==> dep[v] == 0.0)
    && forall v {:trigger GatheredSo(arcs, s, dist, dep, popped, node, served, v)} ::
         v in dist ==> GatheredSo(arcs, s, dist, dep, popped, node, served, v)
  }

  lemma ForwardHops(arcs: set<Arc>, s: Node, dist: map<Node, int>, stack: seq<Node>, sigma: map<Node, int>,
                    preds: map<Node, seq<Node>>)
    requires Forward(arcs, s, dist, stack, sigma, preds)
    ensures Hops(arcs, s, dist)
  {
  }

  /** The children of the last node on the stack have been popped before it. */
  lemma ChildrenPopped(arcs: set<Arc>, dist: map<Node, int>, stack: seq<Node>, n: nat)
    requires Sorted(dist, stack) && NodeSet(stack) == dist.Keys && n < |stack|
    ensures Children(arcs, dist, stack[n]) <= NodeSet(stack[n+1..])
  {
    forall w | w in Children(arcs, dist, stack[n]) ensures w in stack[n+1..] {
      assert dist[w] == dist[stack[n]] + 1;
      assert w in NodeSet(stack);
      var i :| 0 <= i < |stack| && stack[i] == w;
      assert stack[n+1..][i - n - 1] == w;
    }
  }

  lemma AllCollected(arcs: set<Arc>, s: Node, dist: map<Node, int>, dep: map<Node, real>, popped: set<Node>, node: Node)
    requires Hops(arcs, s, dist) && node in dist && Children(arcs, dist, node) <= popped
    requires Gathered(arcs, s, dist, dep, node, popped)
    ensures dep[node] == DependencyOn(arcs, s, dist, node)
  {
    assert Children(arcs, dist, node) * popped == Children(arcs, dist, node);
    Recursion(arcs, s, dist, node);
  }

  /** One addition to the dependency of a predecessor. */
  lemma Serve(arcs: set<Arc>, s: Node, dist: map<Node, int>, dep: map<Node, real>, popped: set<Node>,
              node: Node, served: set<Node>, previous: Node)
    requires Collected(arcs, s, dist, dep, popped, node, served)
    requires previous in dist && node in Children(arcs, dist, previous) && previous !in served && node !in popped
    ensures previous in dep
    ensures Collected(arcs, s, dist, dep[previous := dep[previous] + Received(arcs, s, dist, previous, node)],
                      popped, node, served + {previous})
  {
    var dep' := dep[previous := dep[previous] + Received(arcs, s, dist, previous, node)];
    assert GatheredSo(arcs, s, dist, dep, popped, node, served, previous);
    forall v | v in dist ensures GatheredSo(arcs, s, dist, dep', popped, node, served + {previous}, v) {
      assert GatheredSo(arcs, s, dist, dep, popped, node, served, v);
      if v == previous {
        var more := Children(arcs, dist, v) * (popped + {node});
        RealTake(more, w => Received(arcs, s, dist, v, w), node);
        assert more - {node} == Children(arcs, dist, v) * popped;
      }
    }
  }

  /** Once all predecessors of node are served, everyone has received from it. */
  lemma Served(arcs: set<Arc>, s: Node, dist: map<Node, int>, dep: map<Node, real>, popped: set<Node>, node: Node)
    requires Collected(arcs, s, dist, dep, popped, node, Feeding(arcs, dist, node))
    ensures Collected(arcs, s, dist, dep, popped + {node}, node, {})
  {
    forall v | v in dist ensures GatheredSo(arcs, s, dist, dep, popped + {node}, node, {}, v) {
      assert GatheredSo(arcs, s, dist, dep, popped, node, Feeding(arcs, dist, node), v);
      if v !in Feeding(arcs, dist, node) {
        assert node in Children(arcs, dist, v) ==> (v, node) in arcs;
        assert Children(arcs, dist, v) * (popped + {node}) == Children(arcs, dist, v) * popped;
      }
    }
  }

  /** With nothing served yet, it does not matter which node is serving. */
  lemma Recollect(arcs: set<Arc>, s: Node, dist: map<Node, int>, dep: map<Node, real>, popped: set<Node>, node: Node, other: Node)
    requires Collected(arcs, s, dist, dep, popped, node, {})
    ensures Collected(arcs, s, dist, dep, popped, other, {})
  {
    forall v | v in dist ensures GatheredSo(arcs, s, dist, dep, popped, other, {}, v) {
      assert GatheredSo(arcs, s, dist, dep, popped, node, {}, v);
    }
  }

  // ---------------------------------------------------------------- the loops

  ghost predicate Counts(arcs: set<Arc>, s: Node, dist: map<Node, int>, sigma: map<Node, int>) {
    forall v :: v in dist ==> v in sigma && sigma[v] == Paths(arcs, s, dist, v)
  }

  /** While node hands back; its own dependency is complete. */
  ghost predicate Handing(arcs: set<Arc>, s: Node, dist: map<Node, int>, dep: map<Node, real>, nodes: set<Node>,
                          popped: set<Node>, node: Node, served: set<Node>) {
    && dep.Keys == nodes && node in dist && node in dep && node !in popped
    && Collected(arcs, s, dist, dep, popped, node, served)
    && dep[node] == DependencyOn(arcs, s, dist, node)
  }

  /** What one child adds: (sigma[previous] / sigma[node]) * (1.0 + dependency[node]). */
  function Portion(sigmaPrevious: int, sigmaNode: int, dependency: real): real
    requires sigmaNode > 0
  {
    sigmaPrevious as real / sigmaNode as real * (1.0 + dependency)
  }

  lemma PortionIsReceived(arcs: set<Arc>, s: Node, dist: map<Node, int>, v: Node, w: Node,
                          sigmaV: int, sigmaW: int, depW: real)
    requires Hops(arcs, s, dist) && v in dist && w in dist
    requires sigmaV == Paths(arcs, s, dist, v) && sigmaW == Paths(arcs, s, dist, w)
    requires depW == DependencyOn(arcs, s, dist, w)
    ensures sigmaW > 0 && Portion(sigmaV, sigmaW, depW) == Received(arcs, s, dist, v, w)
  {
    SigmaPositive(arcs, s, dist, w);
  }

  lemma ServeInHand(arcs: set<Arc>, s: Node, dist: map<Node, int>, dep: map<Node, real>, nodes: set<Node>,
                    popped: set<Node>, node: Node, served: set<Node>, previous: Node, portion: real)
    requires Handing(arcs, s, dist, dep, nodes, popped, node, served) && dist.Keys <= nodes
    requires previous in dist && previous != node && node in Children(arcs, dist, previous) && previous !in served
    requires portion == Received(arcs, s, dist, previous, node)
    ensures Handing(arcs, s, dist, dep[previous := dep[previous] + portion], nodes, popped, node, served + {previous})
  {
    Serve(arcs, s, dist, dep, popped, node, served, previous);
  }

  /** One round of `for previous in predecessors[node]`. */
  method AddShare(node: Node, previous: Node, sigma: map<Node, int>, dependency0: map<Node, real>, ghost nodes: set<Node>,
                  ghost arcs: set<Arc>, ghost s: Node, ghost dist: map<Node, int>, ghost popped: set<Node>, ghost served: set<Node>)
    returns (dependency: map<Node, real>)
    requires Hops(arcs, s, dist) && Counts(arcs, s, dist, sigma)
    requires Handing(arcs, s, dist, dependency0, nodes, popped, node, served) && dist.Keys <= nodes
    requires previous in dist && previous != node && node in Children(arcs, dist, previous) && previous !in served
    ensures Handing(arcs, s, dist, dependency, nodes, popped, node, served + {previous})
  {
    dependency := dependency0;
    PortionIsReceived(arcs, s, dist, previous, node, sigma[previous], sigma[node], dependency[node]);
    if sigma[node] > 0 {
      var portion := Portion(sigma[previous], sigma[node], dependency[node]);
      ServeInHand(arcs, s, dist, dependency, nodes, popped, node, served, previous, portion);
      dependency := dependency[previous := dependency[previous] + portion];
    }
  }

  /** `for previous in predecessors[node]` */
  method HandBack(node: Node, predecessors: seq<Node>, sigma: map<Node, int>, dependency0: map<Node, real>, ghost nodes: set<Node>,
                  ghost arcs: set<Arc>, ghost s: Node, ghost dist: map<Node, int>, ghost popped: set<Node>)
    returns (dependency: map<Node, real>)
    requires Hops(arcs, s, dist) && Counts(arcs, s, dist, sigma)
    requires Distinct(predecessors) && NodeSet(predecessors) == Feeding(arcs, dist, node)
    requires Handing(arcs, s, dist, dependency0, nodes, popped, node, {}) && dist.Keys <= nodes
    ensures dependency.Keys == nodes && node in dependency
    ensures Collected(arcs, s, dist, dependency, popped + {node}, node, {})
    ensures dependency[node] == DependencyOn(arcs, s, dist, node)
  {
    dependency := dependency0;
    var i := 0;
    assert NodeSet(predecessors[..i]) == {};
    while i < |predecessors|
      invariant 0 <= i <= |predecessors|
      invariant Handing(arcs, s, dist, dependency, nodes, popped, node, NodeSet(predecessors[..i]))
    {
      FeedsNode(arcs, dist, predecessors, node, i);
      dependency := AddShare(node, predecessors[i], sigma, dependency, nodes, arcs, s, dist, popped, NodeSet(predecessors[..i]));
      i := i + 1;
    }
    assert predecessors[..i] == predecessors;
    Served(arcs, s, dist, dependency, popped, node);
  }

  lemma FeedsNode(arcs: set<Arc>, dist: map<Node, int>, preds: seq<Node>, node: Node, i: nat)
    requires i < |preds| && Distinct(preds) && NodeSet(preds) == Feeding(arcs, dist, node)
    ensures preds[i] in dist && preds[i] != node && node in Children(arcs, dist, preds[i])
    ensures preds[i] !in NodeSet(preds[..i])
    ensures NodeSet(preds[..i+1]) == NodeSet(preds[..i]) + {preds[i]}
  {
    assert preds[i] in NodeSet(preds);
    assert (preds[i], node) in arcs;
    assert preds[..i+1] == preds[..i] + [preds[i]];
  }

  /** The entries of the popped nodes other than the source have grown by their dependency. */
  ghost predicate Credited(arcs: set<Arc>, s: Node, dist: map<Node, int>, before: map<Node, real>,
                           after: map<Node, real>, popped: set<Node>) {
    && after.Keys == before.Keys
    && forall v :: v in after ==>
         after[v] == before[v] + (if v in popped && v != s then DependencyOn(arcs, s, dist, v) else 0.0)
  }

  lemma NothingCollected(arcs: set<Arc>, s: Node, dist: map<Node, int>, dep: map<Node, real>, node: Node)
    requires dist.Keys <= dep.Keys && forall v :: v in dep ==> dep[v] == 0.0
    ensures Collected(arcs, s, dist, dep, {}, node, {})
  {
    forall v | v in dist ensures GatheredSo(arcs, s, dist, dep, {}, node, {}, v) {
      assert Children(arcs, dist, v) * {} == {};
    }
  }

  lemma Popping(dist: map<Node, int>, stack: seq<Node>, n: nat)
    requires n < |stack| && Distinct(stack) && NodeSet(stack) == dist.Keys
    ensures stack[n] in dist && stack[n] !in NodeSet(stack[n+1..])
    ensures NodeSet(stack[n..]) == NodeSet(stack[n+1..]) + {stack[n]}
  {
    assert stack[n] in NodeSet(stack);
    assert stack[n..] == [stack[n]] + stack[n+1..];
  }

  /** Between two pops: n nodes are left on the stack. */
  ghost predicate Accumulated(arcs: set<Arc>, s: Node, dist: map<Node, int>, nodes: set<Node>, stack: seq<Node>, n: nat,
                              dependency: map<Node, real>, before: map<Node, real>, after: map<Node, real>) {
    && n <= |stack| && dependency.Keys == nodes
    && Collected(arcs, s, dist, dependency, NodeSet(stack[n..]), s, {})
    && Credited(arcs, s, dist, before, after, NodeSet(stack[n..]))
  }

  lemma AtPop(arcs: set<Arc>, s: Node, dist: map<Node, int>, nodes: set<Node>, stack: seq<Node>, n: nat,
              dependency: map<Node, real>, before: map<Node, real>, after: map<Node, real>)
    requires Hops(arcs, s, dist) && Sorted(dist, stack) && Distinct(stack) && NodeSet(stack) == dist.Keys
    requires dist.Keys <= nodes
    requires Accumulated(arcs, s, dist, nodes, stack, n + 1, dependency, before, after)
    ensures Handing(arcs, s, dist, dependency, nodes, NodeSet(stack[n+1..]), stack[n], {})
    ensures NodeSet(stack[n..]) == NodeSet(stack[n+1..]) + {stack[n]}
  {
    Popping(dist, stack, n);
    ChildrenPopped(arcs, dist, stack, n);
    assert GatheredSo(arcs, s, dist, dependency, NodeSet(stack[n+1..]), s, {}, stack[n]);
    Recollect(arcs, s, dist, dependency, NodeSet(stack[n+1..]), s, stack[n]);
    AllCollected(arcs, s, dist, dependency, NodeSet(stack[n+1..]), stack[n]);
  }

  lemma Crediting(arcs: set<Arc>, s: Node, dist: map<Node, int>, before: map<Node, real>, after: map<Node, real>,
                  popped: set<Node>, node: Node, amount: real)
    requires Credited(arcs, s, dist, before, after, popped) && node in after && node !in popped
    requires amount == DependencyOn(arcs, s, dist, node)
    ensures Credited(arcs, s, dist, before, if node != s then after[node := after[node] + amount] else after, popped + {node})
  {
  }

  /** Between two pops, with the nodes in stack left. */
  ghost predicate Unwinding(arcs: set<Arc>, s: Node, dist: map<Node, int>, nodes: set<Node>, full: seq<Node>, stack: seq<Node>,
                            dependency: map<Node, real>, before: map<Node, real>, after: map<Node, real>) {
    && |stack| <= |full| && stack == full[..|stack|]
    && Accumulated(arcs, s, dist, nodes, full, |stack|, dependency, before, after)
  }

  lemma UnwindStart(arcs: set<Arc>, s: Node, dist: map<Node, int>, nodes: set<Node>, stack: seq<Node>,
                    dependency: map<Node, real>, before: map<Node, real>)
    requires dependency.Keys == nodes && dist.Keys <= nodes && forall v :: v in nodes ==> dependency[v] == 0.0
    ensures Unwinding(arcs, s, dist, nodes, stack, stack, dependency, before, before)
  {
    NothingCollected(arcs, s, dist, dependency, s);
    assert NodeSet(stack[|stack|..]) == {};
  }

  lemma UnwindEnd(arcs: set<Arc>, s: Node, dist: map<Node, int>, nodes: set<Node>, full: seq<Node>,
                  dependency: map<Node, real>, before: map<Node, real>, after: map<Node, real>)
    requires Unwinding(arcs, s, dist, nodes, full, [], dependency, before, after) && NodeSet(full) == dist.Keys
    ensures Credited(arcs, s, dist, before, after, dist.Keys)
  {
    assert full[0..] == full;
  }

  /** The body of the loop over the stack, after `node = stack.pop()`. */
  method Credit(node: Node, predecessors: seq<Node>, sigma: map<Node, int>, dependency0: map<Node, real>,
                centrality0: map<Node, real>, s: Node, ghost nodes: set<Node>, ghost arcs: set<Arc>,
                ghost dist: map<Node, int>, ghost full: seq<Node>, ghost n: nat, ghost before: map<Node, real>)
    returns (dependency: map<Node, real>, centrality: map<Node, real>)
    requires Hops(arcs, s, dist) && Sorted(dist, full) && Distinct(full) && NodeSet(full) == dist.Keys
    requires Counts(arcs, s, dist, sigma) && dist.Keys <= nodes && before.Keys == nodes
    requires Accumulated(arcs, s, dist, nodes, full, n + 1, dependency0, before, centrality0) && node == full[n]
    requires Distinct(predecessors) && NodeSet(predecessors) == Feeding(arcs, dist, node)
    ensures Accumulated(arcs, s, dist, nodes, full, n, dependency, before, centrality)
  {
    ghost var popped := NodeSet(full[n+1..]);
    AtPop(arcs, s, dist, nodes, full, n, dependency0, before, centrality0);
    dependency := HandBack(node, predecessors, sigma, dependency0, nodes, arcs, s, dist, popped);
    Crediting(arcs, s, dist, before, centrality0, popped, node, dependency[node]);
    centrality := centrality0;
    if node != s {
      centrality := centrality[node := centrality[node] + dependency[node]];
    }
    Recollect(arcs, s, dist, dependency, popped + {node}, node, s);
  }

  lemma PopFacts(arcs: set<Arc>, s: Node, dist: map<Node, int>, nodes: set<Node>, full: seq<Node>, stack: seq<Node>,
                 sigma: map<Node, int>, preds: map<Node, seq<Node>>, dependency: map<Node, real>,
                 before: map<Node, real>, after: map<Node, real>)
    requires Forward(arcs, s, dist, full, sigma, preds)
    requires Unwinding(arcs, s, dist, nodes, full, stack, dependency, before, after) && stack != []
    ensures Hops(arcs, s, dist) && Sorted(dist, full) && Distinct(full) && NodeSet(full) == dist.Keys && Counts(arcs, s, dist, sigma)
    ensures var n := |stack| - 1;
            && n < |full| && stack[n] == full[n] && stack[..n] == full[..n] && full[n] in preds
            && Accumulated(arcs, s, dist, nodes, full, n + 1, dependency, before, after)
            && Distinct(preds[full[n]]) && NodeSet(preds[full[n]]) == Feeding(arcs, dist, full[n])
  {
    ForwardHops(arcs, s, dist, full, sigma, preds);
    assert full[|stack| - 1] in NodeSet(full);
  }

  lemma Repacked(arcs: set<Arc>, s: Node, dist: map<Node, int>, nodes: set<Node>, full: seq<Node>, stack: seq<Node>,
                 dependency: map<Node, real>, before: map<Node, real>, after: map<Node, real>)
    requires |stack| <= |full| && stack == full[..|stack|]
    requires Accumulated(arcs, s, dist, nodes, full, |stack|, dependency, before, after)
    ensures Unwinding(arcs, s, dist, nodes, full, stack, dependency, before, after)
  {
  }

  /** One round of the loop over the stack. */
  method PopOne(stack0: seq<Node>, predecessors: map<Node, seq<Node>>, sigma: map<Node, int>, dependency0: map<Node, real>,
                centrality0: map<Node, real>, s: Node, ghost nodes: set<Node>, ghost arcs: set<Arc>,
                ghost dist: map<Node, int>, ghost full: seq<Node>, ghost before: map<Node, real>)
    returns (stack: seq<Node>, dependency: map<Node, real>, centrality: map<Node, real>)
    requires Forward(arcs, s, dist, full, sigma, predecessors) && dist.Keys <= nodes && before.Keys == nodes
    requires Unwinding(arcs, s, dist, nodes, full, stack0, dependency0, before, centrality0) && stack0 != []
    ensures Unwinding(arcs, s, dist, nodes, full, stack, dependency, before, centrality) && |stack| < |stack0|
  {
    hide *;
    PopFacts(arcs, s, dist, nodes, full, stack0, sigma, predecessors, dependency0, before, centrality0);
    var node := stack0[|stack0|-1];
    stack := stack0[..|stack0|-1];
    dependency, centrality := Credit(node, predecessors[node], sigma, dependency0, centrality0, s, nodes, arcs, dist,
                                     full, |stack|, before);
    Repacked(arcs, s, dist, nodes, full, stack, dependency, before, centrality);
  }

  /** The entries, and 0 for other nodes. */
  ghost function EntryOf(dependency: map<Node, real>): Node -> real {
    v => if v in dependency then dependency[v] else 0.0
  }

  /** What the loop leaves in the dictionary. */
  ghost predicate Final(arcs: set<Arc>, s: Node, dist: map<Node, int>, nodes: set<Node>, dependency: map<Node, real>) {
    && dependency.Keys == nodes
    && forall v :: v in nodes ==> dependency[v] == if v in dist then DependencyOn(arcs, s, dist, v) else 0.0
  }

  lemma FinalEntries(arcs: set<Arc>, s: Node, dist: map<Node, int>, nodes: set<Node>, full: seq<Node>,
                     dependency: map<Node, real>, before: map<Node, real>, after: map<Node, real>)
    requires Hops(arcs, s, dist) && NodeSet(full) == dist.Keys && dist.Keys <= nodes
    requires Unwinding(arcs, s, dist, nodes, full, [], dependency, before, after)
    ensures Final(arcs, s, dist, nodes, dependency)
  {
    assert full[0..] == full;
    forall v | v in dist ensures dependency[v] == DependencyOn(arcs, s, dist, v) {
      assert GatheredSo(arcs, s, dist, dependency, dist.Keys, s, {}, v);
      AllCollected(arcs, s, dist, dependency, dist.Keys, v);
    }
  }

  /** The entries add up to the distances of the reachable nodes. */
  lemma EntriesSumToDistances(arcs: set<Arc>, s: Node, dist: map<Node, int>, nodes: set<Node>, dependency: map<Node, real>)
    requires Hops(arcs, s, dist) && dist.Keys <= nodes && Final(arcs, s, dist, nodes, dependency)
    ensures RealSum(nodes, EntryOf(dependency)) == RealSum(dist.Keys, v => Hop(dist, v))
  {
    RealRestrict(nodes, dist.Keys, EntryOf(dependency));
    RealSame(dist.Keys, EntryOf(dependency), v => DependencyOn(arcs, s, dist, v));
    DependenciesSumToDistances(arcs, s, dist);
  }

  /** `while stack`: what the source adds to the centrality of every node, and the dependencies it leaves, which add up
      to the distances from the source. */
  method BackwardPass(nodes: set<Node>, s: Node, stack0: seq<Node>, predecessors: map<Node, seq<Node>>,
                      sigma: map<Node, int>, centrality0: map<Node, real>, ghost arcs: set<Arc>, ghost dist: map<Node, int>)
    returns (centrality: map<Node, real>, dependency: map<Node, real>)
    requires Forward(arcs, s, dist, stack0, sigma, predecessors)
    requires dist.Keys <= nodes && centrality0.Keys == nodes
    ensures Credited(arcs, s, dist, centrality0, centrality, dist.Keys)
    ensures Final(arcs, s, dist, nodes, dependency)
    ensures RealSum(nodes, EntryOf(dependency)) == RealSum(dist.Keys, v => Hop(dist, v))
  {
    dependency := map n | n in nodes :: 0.0;
    centrality := centrality0;
    var stack := stack0;
    UnwindStart(arcs, s, dist, nodes, stack, dependency, centrality);
    while stack != []
      invariant Unwinding(arcs, s, dist, nodes, stack0, stack, dependency, centrality0, centrality)
      decreases |stack|
    {
      stack, dependency, centrality := PopOne(stack, predecessors, sigma, dependency, centrality, s, nodes, arcs, dist,
                                              stack0, centrality0);
    }
    UnwindEnd(arcs, s, dist, nodes, stack0, dependency, centrality0, centrality);
    ForwardHops(arcs, s, dist, stack0, sigma, predecessors);
    FinalEntries(arcs, s, dist, nodes, stack0, dependency, centrality0, centrality);
    EntriesSumToDistances(arcs, s, dist, nodes, dependency);
  }
}
