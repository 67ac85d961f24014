/** The structural part of `validate_topology` in netlab/topology.py. */
module Validation {
  import opened Options
  import opened Walks
  import opened Cycles
  import opened Reachability
  import opened Branches
  import opened Layouts
  import opened PathMetrics
  import Adj = Adjacency

  // ---------------------------------------------------------------- the tree of a layout

  /** depth grows along every arc. */
  ghost predicate Deepens(arcs: set<Arc>, depth: map<Node, int>) {
    forall a :: a in arcs ==> a.0 in depth && a.1 in depth && depth[a.0] < depth[a.1]
  }

  lemma {:induction false} WalkDeepens(arcs: set<Arc>, depth: map<Node, int>, u: Node, v: Node, p: seq<Node>)
    requires Deepens(arcs, depth) && Walk(arcs, u, v, p) && u in depth
    ensures v in depth && depth[u] <= depth[v]
    decreases |p|
  {
    if |p| > 1 {
      assert (p[0], p[1]) in arcs;
      assert Walk(arcs, p[1], v, p[1..]);
      WalkDeepens(arcs, depth, p[1], v, p[1..]);
    }
  }

  lemma DeepensIsAcyclic(arcs: set<Arc>, depth: map<Node, int>)
    requires Deepens(arcs, depth)
    ensures !Cyclic(arcs)
  {
    forall u, v | (u, v) in arcs && Reach(arcs, v, u) ensures false {
      var p :| Walk(arcs, v, u, p);
      WalkDeepens(arcs, depth, v, u, p);
    }
  }

  /** The place of a relay in its branches: the same in all of them. */
  ghost function DepthOf(branches: seq<seq<nat>>, v: nat): int {
    if Occurs(branches, v) then
      var i, k :| OccursAt(branches, v, i, k);
      k
    else 0
  }

  lemma DepthIs(branches: seq<seq<nat>>, n: nat, i: int, k: int)
    requires Layout(branches, n) && 0 <= i < |branches| && 0 <= k < |branches[i]|
    ensures DepthOf(branches, branches[i][k]) == k && 1 <= branches[i][k] <= n
  {
    var v := branches[i][k];
    assert OccursAt(branches, v, i, k);
    var j, l :| OccursAt(branches, v, j, l) && DepthOf(branches, v) == l;
    assert OccursAt(branches, v, j, l);
    assert SamePlace(branches, i, k, j, l);
    assert branches[i] in branches && v in branches[i];
  }

  ghost predicate OutOfReach(source: Node, n: nat) {
    forall v :: 1 <= v <= n ==> source != Drone(v)
  }

  ghost function Depths(branches: seq<seq<nat>>, source: Node, n: nat): map<Node, int> {
    (map v: nat {:trigger Drone(v)} | 1 <= v <= n :: Drone(v) := DepthOf(branches, v))[source := -1]
  }

  ghost predicate HasEdgeInto(arcs: set<Arc>, v: Node) {
    exists u :: (u, v) in arcs
  }

  /** The edges of a layout form a tree that grows away from the source: one edge into every relay, none into the
      source, every relay reachable, and no cycle. */
  ghost predicate OutTree(arcs: set<Arc>, source: Node, n: nat) {
    && (forall a :: a in arcs ==> exists v :: 1 <= v <= n && a.1 == Drone(v))
    && (forall v :: 1 <= v <= n ==> HasEdgeInto(arcs, Drone(v)))
    && (forall u, w, v :: (u, v) in arcs && (w, v) in arcs ==> u == w)
    && (forall v :: 1 <= v <= n ==> Reach(arcs, source, Drone(v)))
    && !Cyclic(arcs)
  }

  lemma LayoutIsAcyclic(branches: seq<seq<nat>>, source: Node, n: nat)
    requires Layout(branches, n) && OutOfReach(source, n)
    ensures !Cyclic(EdgeSet(AllEdges(branches, source)))
  {
    var arcs, depth := EdgeSet(AllEdges(branches, source)), Depths(branches, source, n);
    forall a | a in arcs ensures a.0 in depth && a.1 in depth && depth[a.0] < depth[a.1] {
      EdgeHasPlace(branches, source, a);
      var i, k :| EdgeAt(branches, source, a, i, k);
      DepthIs(branches, n, i, k);
      if k > 0 { DepthIs(branches, n, i, k - 1); }
    }
    DeepensIsAcyclic(arcs, depth);
  }

  /** The source reaches every relay along its branch. */
  lemma {:induction false} BranchReached(branches: seq<seq<nat>>, source: Node, i: int, k: int)
    requires 0 <= i < |branches| && 0 <= k < |branches[i]|
    ensures Reach(EdgeSet(AllEdges(branches, source)), source, Drone(branches[i][k]))
    decreases k
  {
    var arcs := EdgeSet(AllEdges(branches, source));
    var before := if k == 0 then source else Drone(branches[i][k-1]);
    assert EdgeAt(branches, source, (before, Drone(branches[i][k])), i, k);
    PlaceHasEdge(branches, source, (before, Drone(branches[i][k])), i, k);
    ReachArc(arcs, before, Drone(branches[i][k]));
    if k > 0 {
      BranchReached(branches, source, i, k - 1);
      ReachTrans(arcs, source, before, Drone(branches[i][k]));
    }
  }

  /** Two edges into the same relay come from the same node. */
  lemma OneWayIn(branches: seq<seq<nat>>, source: Node, n: nat, u: Node, w: Node, v: Node)
    requires Layout(branches, n)
    requires (u, v) in AllEdges(branches, source) && (w, v) in AllEdges(branches, source)
    ensures u == w
  {
    EdgeHasPlace(branches, source, (u, v));
    EdgeHasPlace(branches, source, (w, v));
    var i, k :| EdgeAt(branches, source, (u, v), i, k);
    var j, l :| EdgeAt(branches, source, (w, v), j, l);
    assert EdgeAt(branches, source, (u, v), i, k) && EdgeAt(branches, source, (w, v), j, l);
    assert SamePlace(branches, i, k, j, l);
  }

  lemma RelayHasEdge(branches: seq<seq<nat>>, source: Node, n: nat, v: nat)
    requires Layout(branches, n) && 1 <= v <= n
    ensures Reach(EdgeSet(AllEdges(branches, source)), source, Drone(v))
    ensures exists u :: (u, Drone(v)) in AllEdges(branches, source)
  {
    assert Occurs(branches, v);
    var i, k :| OccursAt(branches, v, i, k);
    assert OccursAt(branches, v, i, k);
    BranchReached(branches, source, i, k);
    var u := if k == 0 then source else Drone(branches[i][k-1]);
    assert EdgeAt(branches, source, (u, Drone(v)), i, k);
    PlaceHasEdge(branches, source, (u, Drone(v)), i, k);
  }

  lemma EdgeEndsAtRelay(branches: seq<seq<nat>>, source: Node, n: nat, a: Arc)
    requires Layout(branches, n) && a in AllEdges(branches, source)
    ensures exists v :: 1 <= v <= n && a.1 == Drone(v)
    ensures a.0 == source || exists v :: 1 <= v <= n && a.0 == Drone(v)
  {
    EdgeHasPlace(branches, source, a);
    var i, k :| EdgeAt(branches, source, a, i, k);
    assert EdgeAt(branches, source, a, i, k);
    hide Layout, AllEdges, DepthOf;
    DepthIs(branches, n, i, k);
    if k > 0 { DepthIs(branches, n, i, k - 1); }
  }

  lemma LayoutIsTree(branches: seq<seq<nat>>, source: Node, n: nat)
    requires Layout(branches, n) && OutOfReach(source, n)
    ensures OutTree(EdgeSet(AllEdges(branches, source)), source, n)
  {
    var arcs := EdgeSet(AllEdges(branches, source));
    LayoutIsAcyclic(branches, source, n);
    forall a | a in arcs ensures exists v :: 1 <= v <= n && a.1 == Drone(v) {
      EdgeEndsAtRelay(branches, source, n, a);
    }
    forall v | 1 <= v <= n ensures Reach(arcs, source, Drone(v)) && HasEdgeInto(arcs, Drone(v)) {
      RelayHasEdge(branches, source, n, v);
      var u :| (u, Drone(v)) in AllEdges(branches, source);
      assert (u, Drone(v)) in arcs;
    }
    forall u, w, v | (u, v) in arcs && (w, v) in arcs ensures u == w {
      OneWayIn(branches, source, n, u, w, v);
    }
  }

  // ---------------------------------------------------------------- repeated edges

  ghost predicate DistinctEdges(edges: seq<Arc>) {
    forall i, j :: 0 <= i < j < |edges| ==> edges[i] != edges[j]
  }

  lemma BranchEdgesDistinct(branch: seq<nat>, source: Node)
    requires DistinctRelays(branch)
    ensures DistinctEdges(EdgesOf(branch, source))
  {
  }

  ghost predicate NoneOf(a: seq<Arc>, b: seq<Arc>) {
    forall i :: 0 <= i < |a| ==> a[i] !in b
  }

  lemma AppendDistinct(a: seq<Arc>, b: seq<Arc>)
    requires DistinctEdges(a) && DistinctEdges(b) && NoneOf(a, b)
    ensures DistinctEdges(a + b)
  {
    forall i, j | 0 <= i < j < |a + b| ensures (a + b)[i] != (a + b)[j] {
      if i < |a| <= j {
        assert a[i] !in b && b[j - |a|] in b;
      }
    }
  }

  lemma PrefixLayoutPlaces(branches: seq<seq<nat>>, n: nat, m: nat, source: Node, e: Arc)
    requires Layout(branches, n) && OwnHeads(branches) && m < |branches|
    requires e in AllEdges(branches[..m], source)
    ensures e !in EdgesOf(branches[m], source)
  {
    EdgeHasPlace(branches[..m], source, e);
    var i, k :| EdgeAt(branches[..m], source, e, i, k);
    assert EdgeAt(branches[..m], source, e, i, k);
    var es := EdgesOf(branches[m], source);
    forall l | 0 <= l < |es| ensures es[l] != e {
      assert SamePlace(branches, i, k, m, l);
      assert branches[i][0] != branches[m][0];
    }
  }

  lemma NextBranchApart(branches: seq<seq<nat>>, n: nat, m: nat, source: Node)
    requires Layout(branches, n) && OwnHeads(branches) && m < |branches|
    ensures NoneOf(AllEdges(branches[..m], source), EdgesOf(branches[m], source))
  {
    var before := AllEdges(branches[..m], source);
    forall i | 0 <= i < |before| ensures before[i] !in EdgesOf(branches[m], source) {
      PrefixLayoutPlaces(branches, n, m, source, before[i]);
    }
  }

  lemma AllEdgesMore(branches: seq<seq<nat>>, m: nat, source: Node)
    requires m < |branches|
    ensures AllEdges(branches[..m+1], source) == AllEdges(branches[..m], source) + EdgesOf(branches[m], source)
  {
    assert branches[..m+1][..m] == branches[..m];
  }

  /** A layout repeats no edge when no two branches begin with the same relay. */
  lemma {:induction false} OwnHeadsNoRepeats(branches: seq<seq<nat>>, n: nat, m: nat, source: Node)
    requires Layout(branches, n) && OwnHeads(branches) && m <= |branches|
    ensures DistinctEdges(AllEdges(branches[..m], source))
    decreases m
  {
    if m > 0 {
      OwnHeadsNoRepeats(branches, n, m - 1, source);
      AllEdgesMore(branches, m - 1, source);
      assert CleanBranch(branches[m-1], n) by { assert branches[m-1] in branches; }
      hide Layout, OwnHeads, DistinctEdges, NoneOf;
      BranchEdgesDistinct(branches[m-1], source);
      NextBranchApart(branches, n, m - 1, source);
      AppendDistinct(AllEdges(branches[..m-1], source), EdgesOf(branches[m-1], source));
    }
  }

  lemma {:induction false} HeadEdgeIn(branches: seq<seq<nat>>, source: Node, i: nat, m: nat)
    requires i < m <= |branches| && branches[i] != []
    ensures (source, Drone(branches[i][0])) in AllEdges(branches[..m], source)
  {
    assert EdgeAt(branches[..m], source, (source, Drone(branches[i][0])), i, 0);
    PlaceHasEdge(branches[..m], source, (source, Drone(branches[i][0])), i, 0);
  }

  lemma RepeatInAppend(a: seq<Arc>, b: seq<Arc>, e: Arc)
    requires e in a && e in b
    ensures !DistinctEdges(a + b)
  {
    var i :| 0 <= i < |a| && a[i] == e;
    var j :| 0 <= j < |b| && b[j] == e;
    assert (a + b)[i] == (a + b)[|a| + j];
  }

  lemma PrefixRepeats(a: seq<Arc>, b: seq<Arc>)
    requires !DistinctEdges(a)
    ensures !DistinctEdges(a + b)
  {
    var i, j :| 0 <= i < j < |a| && a[i] == a[j];
    assert (a + b)[i] == (a + b)[j];
  }

  /** Two branches with the same first relay repeat the edge from the source. */
  lemma {:induction false} SharedHeadRepeats(branches: seq<seq<nat>>, source: Node, i: nat, j: nat)
    requires i < j < |branches| && branches[i] != [] && branches[j] != [] && branches[i][0] == branches[j][0]
    ensures !DistinctEdges(AllEdges(branches, source))
    decreases |branches|
  {
    var n := |branches| - 1;
    if j < n {
      SharedHeadRepeats(branches[..n], source, i, j);
      PrefixRepeats(AllEdges(branches[..n], source), EdgesOf(branches[n], source));
    } else {
      HeadEdgeIn(branches, source, i, n);
      assert EdgesOf(branches[n], source)[0] == (source, Drone(branches[n][0]));
      RepeatInAppend(AllEdges(branches[..n], source), EdgesOf(branches[n], source), (source, Drone(branches[n][0])));
    }
  }

  lemma RepeatsIffSharedHeads(branches: seq<seq<nat>>, n: nat, source: Node)
    requires Layout(branches, n)
    ensures DistinctEdges(AllEdges(branches, source)) <==> OwnHeads(branches)
  {
    if OwnHeads(branches) {
      OwnHeadsNoRepeats(branches, n, |branches|, source);
      assert branches[..|branches|] == branches;
    } else {
      var i, j :| 0 <= i < j < |branches| && branches[i] != [] && branches[j] != [] && branches[i][0] == branches[j][0];
      SharedHeadRepeats(branches, source, i, j);
    }
  }

  // ---------------------------------------------------------------- validate_topology

  datatype Error =
    | InvalidMode
    | NoBranches
    | DuplicateNodeInBranch(branch: int)
    | DuplicateEdges
    | MissingEndpoint(edge: Arc)
    | SelfLoop(edge: Arc)
    | CycleNotAllowed
    | UnreachableSink(sink: Node)
    | FailedNodeInActiveRoute(edge: Arc)

  /** [source] + [f"drone_{i}" for i in range(1, relay_count + 1)] */
  function NodeList(source: Node, n: nat): seq<Node> {
    [source] + seq(n, i requires 0 <= i < n => Drone(i + 1))
  }

  /** An edge between two different known nodes, neither of which has failed. */
  predicate GoodEdge(e: Arc, nodes: seq<Node>, failed: set<Node>) {
    e.0 in nodes && e.1 in nodes && e.0 != e.1 && e.0 !in failed && e.1 !in failed
  }

  /** No repeated edge, only good ones, no cycle unless the mode is manual, and every sink reached. */
  ghost predicate SoundGraph(mode: Mode, nodes: seq<Node>, edges: seq<Arc>, source: Node, sinks: seq<Node>, failed: set<Node>) {
    && DistinctEdges(edges)
    && (forall i :: 0 <= i < |edges| ==> GoodEdge(edges[i], nodes, failed))
    && (mode != Manual ==> !Cyclic(EdgeSet(edges)))
    && (forall i :: 0 <= i < |sinks| ==> Reach(EdgeSet(edges), source, sinks[i]))
  }

  /** What a structurally valid topology meets. */
  ghost predicate Sound(mode: Option<Mode>, n: nat, branches: seq<seq<nat>>, edges: seq<Arc>, source: Node,
                        sinks: seq<Node>, failed: set<Node>) {
    && mode.Some?
    && (mode.value != Manual ==> branches != [])
    && SoundGraph(mode.value, NodeList(source, n), edges, source, sinks, failed)
  }

  /** [edge for edge, count in Counter(edges).items() if count > 1] */
  method HasRepeats(edges: seq<Arc>) returns (repeats: bool)
    ensures repeats <==> !DistinctEdges(edges)
  {
    var seen: set<Arc> := {};
    for i := 0 to |edges|
      invariant seen == EdgeSet(edges[..i])
      invariant forall j, k :: 0 <= j < k < i ==> edges[j] != edges[k]
    {
      assert edges[..i+1] == edges[..i] + [edges[i]];
      if edges[i] in seen {
        var j :| 0 <= j < i && edges[..i][j] == edges[i];
        assert edges[j] == edges[i];
        return true;
      }
      seen := seen + {edges[i]};
    }
    repeats := false;
  }

  method CheckEdges(edges: seq<Arc>, nodes: seq<Node>, failed: set<Node>) returns (errors: seq<Error>)
    ensures errors == [] <==> forall i :: 0 <= i < |edges| ==> GoodEdge(edges[i], nodes, failed)
    ensures forall x :: x in errors ==> x.MissingEndpoint? || x.SelfLoop? || x.FailedNodeInActiveRoute?
  {
    errors := [];
    for i := 0 to |edges|
      invariant errors == [] <==> forall j :: 0 <= j < i ==> GoodEdge(edges[j], nodes, failed)
      invariant forall x :: x in errors ==> x.MissingEndpoint? || x.SelfLoop? || x.FailedNodeInActiveRoute?
    {
      var (src, dst) := edges[i];
      if src !in nodes || dst !in nodes {
        errors := errors + [MissingEndpoint(edges[i])];
      }
      if src == dst {
        errors := errors + [SelfLoop(edges[i])];
      }
      if src in failed || dst in failed {
        errors := errors + [FailedNodeInActiveRoute(edges[i])];
      }
    }
  }

  method CheckSinks(reached: set<Node>, sinks: seq<Node>) returns (errors: seq<Error>)
    ensures errors == [] <==> forall i :: 0 <= i < |sinks| ==> sinks[i] in reached
    ensures forall x :: x in errors ==> x.UnreachableSink? && x.sink !in reached
  {
    errors := [];
    for i := 0 to |sinks|
      invariant errors == [] <==> forall j :: 0 <= j < i ==> sinks[j] in reached
      invariant forall x :: x in errors ==> x.UnreachableSink? && x.sink !in reached
    {
      if sinks[i] !in reached {
        errors := errors + [UnreachableSink(sinks[i])];
      }
    }
  }

  /** The check for repeated relays, which a sanitized list always passes. */
  method CheckBranches(branches: seq<seq<nat>>, n: nat) returns (errors: seq<Error>)
    requires forall b :: b in branches ==> CleanBranch(b, n)
    ensures errors == []
  {
    errors := [];
    for i := 0 to |branches|
      invariant errors == []
    {
      assert branches[i] in branches;
      NumbersSize(branches[i]);
      if |branches[i]| != |Numbers(branches[i])| {
        errors := errors + [DuplicateNodeInBranch(i)];
      }
    }
  }

  lemma {:induction false} NumbersSize(branch: seq<nat>)
    requires DistinctRelays(branch)
    ensures |Numbers(branch)| == |branch|
    decreases |branch|
  {
    if branch == [] {
      assert Numbers(branch) == {};
    } else {
      var rest, last := branch[..|branch|-1], branch[|branch|-1];
      NumbersSize(rest);
      NumbersMore(rest, last);
      assert branch == rest + [last];
      assert last !in Numbers(rest);
    }
  }

  /** The checks on the graph of the chosen edges. */
  method CheckGraph(mode: Mode, nodes: seq<Node>, edges: seq<Arc>, source: Node, sinks: seq<Node>, failed: set<Node>)
    returns (errors: seq<Error>)
    ensures errors == [] <==> SoundGraph(mode, nodes, edges, source, sinks, failed)
  {
    var repeats := HasRepeats(edges);
    errors := if repeats then [DuplicateEdges] else [];
    var more := CheckEdges(edges, nodes, failed);
    errors := errors + more;
    var graph := Adj.Adjacency(nodes, edges, true);
    if mode != Manual {
      var cyclic;
      ghost var order;
      cyclic, order := HasCycle(graph);
      if cyclic {
        errors := errors + [CycleNotAllowed];
      }
    }
    var reached := Reachable(graph, source);
    more := CheckSinks(reached, sinks);
    errors := errors + more;
  }

  /** list(sinks or [the last relay of the first branch]) */
  function ChosenSinks(sinks: seq<Node>, branches: seq<seq<nat>>): seq<Node>
    requires forall b :: b in branches ==> b != []
  {
    if sinks != [] then sinks
    else if branches == [] then []
    else
      assert branches[0] in branches;
      [Drone(branches[0][|branches[0]|-1])]
  }

  /** The branches a description stands for. */
  function Normalized(branches: Option<seq<RawBranch>>, n: nat): seq<seq<nat>> {
    if branches.None? then [] else Sanitized(branches.value, n, true, {})
  }

  /** An item of the manual edges; None stands for one that does not name two ends. */
  type RawEdge = Option<Arc>

  /** The edges that manual items name. */
  function Named(items: seq<RawEdge>): seq<Arc> {
    if items == [] then []
    else Named(items[..|items|-1]) + (if items[|items|-1].Some? then [items[|items|-1].value] else [])
  }

  /** Every edge is named as often as items name it. */
  lemma {:induction false} NamedCounts(items: seq<RawEdge>, e: Arc)
    ensures multiset(Named(items))[e] == multiset(items)[Some(e)]
    decreases |items|
  {
    if items != [] {
      var n := |items| - 1;
      NamedCounts(items[..n], e);
      assert items == items[..n] + [items[n]];
    }
  }

  /** `normalize_manual_edges` */
  method NormalizeManualEdges(items: seq<RawEdge>) returns (edges: seq<Arc>)
    ensures edges == Named(items)
  {
    edges := [];
    for i := 0 to |items|
      invariant edges == Named(items[..i])
    {
      assert items[..i+1][..i] == items[..i];
      if items[i].None? { continue; }
      edges := edges + [items[i].value];
    }
    assert items[..|items|] == items;
  }

  /** The edges a description stands for: in manual mode those of the items, even if no item names an edge, and the
      branches' only when there are no items. */
  function ChosenEdges(mode: Option<Mode>, branches: seq<seq<nat>>, manual: seq<RawEdge>, source: Node): seq<Arc> {
    if (mode == None || mode == Some(Manual)) && manual != [] then Named(manual) else AllEdges(branches, source)
  }

  /** What a description stands for, field by field: the edges that items name exactly when the mode is none of the three
      laid out ones and there are items; the sinks given, or else the last relay of the first branch, if there is one. */
  lemma ChosenAre(mode: Option<Mode>, branches: seq<seq<nat>>, manual: seq<RawEdge>, source: Node, sinks: seq<Node>)
    requires forall b :: b in branches ==> b != []
    ensures mode in {Some(Chain), Some(Parallel), Some(Forest)} || |manual| == 0 ==>
              ChosenEdges(mode, branches, manual, source) == AllEdges(branches, source)
    ensures mode !in {Some(Chain), Some(Parallel), Some(Forest)} && |manual| > 0 ==>
              ChosenEdges(mode, branches, manual, source) == Named(manual)
    ensures |sinks| > 0 || branches == [] ==> ChosenSinks(sinks, branches) == sinks
    ensures sinks == [] && branches != [] ==>
              branches[0] in branches && ChosenSinks(sinks, branches) == [Name(branches[0][|branches[0]|-1])]
  {
    if mode.Some? {
      assert mode.value.Chain? || mode.value.Parallel? || mode.value.Forest? || mode.value.Manual?;
    }
  }

  /** The checks on the branches. */
  method CheckBranchList(mode: Mode, branches: Option<seq<RawBranch>>, n: nat) returns (normalized: seq<seq<nat>>, errors: seq<Error>)
    ensures normalized == Normalized(branches, n) && (forall b :: b in normalized ==> b != [])
    ensures errors == [] <==> (mode != Manual ==> normalized != [])
  {
    normalized := SanitizeBranches(branches, n, true);
    if branches.Some? { SanitizedIsClean(branches.value, n, true, {}); }
    errors := if normalized == [] && mode != Manual then [NoBranches] else [];
    var more := CheckBranches(normalized, n);
    errors := errors + more;
  }

  /** `validate_topology`, the structural errors: an unsupported mode is reported and then treated as manual. The path
      counts at its end are granted a number of rounds for every flow. They never end when the source is among the
      sinks, and otherwise do within one round more than there are edges. */
  method ValidateTopology(mode: Option<Mode>, relayCount: int, branches: Option<seq<RawBranch>>, manual: seq<RawEdge>,
                          source: Node, sinks: seq<Node>, failed: set<Node>, rounds: nat)
    returns (returned: bool, valid: bool, errors: seq<Error>, normalized: seq<seq<nat>>, edges: seq<Arc>,
             chosen: seq<Node>, kConnectivity: int)
    ensures var n := if relayCount < 0 then 0 else relayCount;
            && normalized == Normalized(branches, n) && (forall b :: b in normalized ==> b != [])
            && edges == ChosenEdges(mode, normalized, manual, source)
            && chosen == ChosenSinks(sinks, normalized)
            && (valid <==> Sound(mode, n, normalized, edges, source, chosen, failed))
            && (returned ==> exists counts ::
                  && NodeCounted(NodeList(source, n), Between(edges, NodeList(source, n)), source, NodeSet(chosen), counts)
                  && LeastCount(counts, kConnectivity))
    ensures valid <==> errors == []
    ensures source in chosen ==> !returned
    ensures source !in chosen && rounds > |edges| ==> returned
  {
    var n: nat := if relayCount < 0 then 0 else relayCount;
    var effective := if mode.None? then Manual else mode.value;
    var more;
    normalized, more := CheckBranchList(effective, branches, n);
    errors := (if mode.None? then [InvalidMode] else []) + more;
    if effective == Manual && manual != [] {
      edges := NormalizeManualEdges(manual);
    } else {
      edges := BranchesToEdges(normalized, source);
    }
    chosen := ChosenSinks(sinks, normalized);
    more := CheckGraph(effective, NodeList(source, n), edges, source, chosen, failed);
    errors := errors + more;
    valid := errors == [];
    var edgeDisjoint, nodeDisjoint;
    returned, edgeDisjoint, nodeDisjoint, kConnectivity := PathCounts(NodeList(source, n), edges, source, chosen, rounds);
  }

  // ---------------------------------------------------------------- what validity means

  /** A chain, parallel or forest layout that is valid is acyclic, and every sink is reached by a walk of listed edges
      none of which touches a failed node. */
  lemma ValidIsServed(mode: Mode, n: nat, branches: seq<seq<nat>>, edges: seq<Arc>, source: Node, sinks: seq<Node>,
                      failed: set<Node>, i: nat) returns (p: seq<Node>)
    requires Sound(Some(mode), n, branches, edges, source, sinks, failed) && i < |sinks|
    ensures mode != Manual ==> !Cyclic(EdgeSet(edges))
    ensures Walk(EdgeSet(edges), source, sinks[i], p)
    ensures |p| > 1 ==> forall k :: 0 <= k < |p| ==> p[k] !in failed
  {
    p :| Walk(EdgeSet(edges), source, sinks[i], p);
    if |p| > 1 {
      forall k | 0 <= k < |p| ensures p[k] !in failed {
        var a := if k == 0 then (p[0], p[1]) else (p[k-1], p[k]);
        assert a in EdgeSet(edges);
        var j :| 0 <= j < |edges| && edges[j] == a;
        assert GoodEdge(edges[j], NodeList(source, n), failed);
      }
    }
  }

  /** A generated layout meets every structural demand, but for repeated edges from shared roots. */
  lemma LayoutIsSound(mode: Mode, branches: seq<seq<nat>>, n: nat, source: Node)
    requires Layout(branches, n) && branches != [] && OutOfReach(source, n) && forall b :: b in branches ==> b != []
    ensures Sound(Some(mode), n, branches, AllEdges(branches, source), source, ChosenSinks([], branches), {})
       <==> OwnHeads(branches)
  {
    var edges, sinks := AllEdges(branches, source), ChosenSinks([], branches);
    RepeatsIffSharedHeads(branches, n, source);
    LayoutIsTree(branches, source, n);
    forall i | 0 <= i < |edges| ensures GoodEdge(edges[i], NodeList(source, n), {}) {
      assert edges[i] in edges;
      GoodLayoutEdge(branches, source, n, edges[i]);
    }
    assert branches[0] in branches;
    BranchReached(branches, source, 0, |branches[0]| - 1);
  }

  lemma GoodLayoutEdge(branches: seq<seq<nat>>, source: Node, n: nat, e: Arc)
    requires Layout(branches, n) && OutOfReach(source, n) && e in AllEdges(branches, source)
    ensures GoodEdge(e, NodeList(source, n), {})
  {
    var nodes := NodeList(source, n);
    EdgeEndsAtRelay(branches, source, n, e);
    forall v | 1 <= v <= n ensures Drone(v) in nodes { assert nodes[v] == Drone(v); }
    assert nodes[0] == source;
    EdgeHasPlace(branches, source, e);
    var i, k :| EdgeAt(branches, source, e, i, k);
    assert EdgeAt(branches, source, e, i, k);
    assert branches[i] in branches && CleanBranch(branches[i], n);
    DepthIs(branches, n, i, k);
  }

  /** Generating a topology and validating it with its default sink: the validation returns, and accepts chains and
      parallel branches always, a forest exactly when no root is shared. */
  method GenerateAndValidate(relayCount: int, branchCount: int, mode: Mode, source: Node) returns (returned: bool, valid: bool)
    requires OutOfReach(source, Relays(relayCount))
    ensures returned
    ensures mode != Forest ==> valid
    ensures mode == Forest ==>
              (valid <==> Roots(relayCount, branchCount) == BranchCount(relayCount, branchCount) || Relays(relayCount) == 1)
    ensures mode == Forest ==> (valid <==> branchCount <= 1 || relayCount <= 1 || 3 * branchCount <= relayCount)
  {
    var branches := GenerateBranches(relayCount, branchCount, mode);
    var n := Relays(relayCount);
    forall b | b in branches ensures b != [] { assert CleanBranch(b, n); }
    var errors, normalized, edges, sinks, kConnectivity;
    SanitizedAll(branches, n, {});
    var rounds := |AllEdges(branches, source)| + 1;
    returned, valid, errors, normalized, edges, sinks, kConnectivity :=
      ValidateTopology(Some(mode), n, Some(AllRaw(branches)), [], source, [], {}, rounds);
    LayoutIsSound(mode, branches, n, source);
    DefaultSinkIsRelay(branches, n, source);
  }

  /** The default sink of a layout is not the source. */
  lemma DefaultSinkIsRelay(branches: seq<seq<nat>>, n: nat, source: Node)
    requires Layout(branches, n) && branches != [] && OutOfReach(source, n) && forall b :: b in branches ==> b != []
    ensures source !in ChosenSinks([], branches)
  {
    assert branches[0] in branches;
    DepthIs(branches, n, 0, |branches[0]| - 1);
  }
}
