# NETLAB verification model

A Dafny model of the algorithmic and protocol core of NETLAB, a workbench for UAV relay swarms, with proofs of
what each part is for: the relay-graph analytics, the two routing policies, the packet and branch state machine,
the safety shield in closed loop with the multi-agent environment, and the revision protocol between the
orchestrator, its participants and the ROS agent. `dafny verify dfyconfig.toml` checks the whole project.

## How it is organised

| area | modules |
|---|---|
| shared vocabulary | `Options`, `Arithmetic`, `Walks` (nodes, arcs, walks, reachability), `Sums`, `RealSums`, `Distances`, `Adjacency` |
| flows and disjoint paths | `Flows`, `PathFlows`, `EdgeDisjointPaths`, `NodeDisjointPaths`, `PathMetrics` (the path counts of `topology_metrics`) |
| cut nodes and cut edges | `LowLink`, `ArticulationSearch`, `BridgeSearch`, `TopologyMetrics` (the second implementation) |
| distances and centrality | `Diameter`, `WalkCounts`, `BrandesForward`, `Accumulation`, `Dependencies`, `Transfers`, `DependencyTotals`, `BrandesBackward`, `Betweenness` |
| traversals | `Reachability`, `Cycles`, `SimplePathCount` |
| branch layouts and their validator | `Branches`, `Layouts`, `Validation` |
| routing policies | `Routes`, `LatencyRouting`, `BottleneckRouting` |
| safety shield | `Geometry`, `SafetyShield`, `SwarmLoop` |
| packets | `PacketFlow` (one stream as a value), `PacketRuns` (runs over all streams as values), `PacketRuntime` (the objects) |
| revisions | `Revisions` (the protocol as a value), `RuntimeSync`, `RevisionStore`, `RevisionAgent` |

Every loop of the source is a `method` with the same loop, every object with changing fields is a `class`, and each
is proved against a definition that does not mention how it computes: a cut, a walk, a distance, a count of walks, or,
where results rest on configured numbers, links or answers, against the fields of those inputs themselves.
The depth-first searches pass their dictionaries in and out by value, because the source shares them between
nested calls of a closure.

## Conventions

- A node name is a value that can only be compared. The derived names `x:in` and `x:out` of the split network are
  the constructors `In(x)` and `Out(x)`; a sorted pair of names is the unordered pair `{u, v}`.
- A dictionary of sets is a finite map. Iteration over a set or over dictionary entries takes the elements in an
  arbitrary order, so every result holds for every order.
- Numbers are exact: integers where the source counts, reals where it uses floats. The square root is a parameter
  known only to be a non-negative root of every non-negative number.
- A heap is a bag from which some least (or greatest) entry is taken; ties are broken arbitrarily.
- Link feasibility is an opaque function of the two ends (name, position, flags) in the shield, and an arbitrary
  gate that may differ at every step in the packet runtime.
- Clocks, timeouts, file contents and answers of participants are inputs of the operations that read them.
- Arcs are assumed to run between listed nodes where the source filters them first (netlab/topology.py:460) or
  would fail with a missing key.

## Findings

Places where the code does something other than its documentation, or a reader, would expect. Each is a theorem.

- `_max_flow` never leaves its loop when source and sink are equal: every round finds the sink and adds 10**9 again
  (`Flows.MaxFlowRounds`). `validate_topology` reaches that input when its source is among the sinks, and returns
  exactly when it is not (`Validation.ValidateTopology`).
- In manual mode, items of which none names an edge leave the topology without edges; the branches' edges are used
  only when there are no items at all (`Validation.ValidateTopology`).
- The finite "effectively unlimited" capacity `max(1, len(nodes))` of source and sink in the node-disjoint count
  never limits it: the count is the true maximum (`NodeDisjointPaths.NodeDisjointCount`).
- A list with a repeated node name has diameter `None` even when the graph is connected
  (`Diameter.AllPairsDiameter`).
- Forest layouts are rejected by the validator exactly when two branches share a root, that is with more than one
  branch, more than one relay and fewer than three relays for each branch: the root's edge is then listed twice and
  reported as a duplicate (`Validation.GenerateAndValidate`).
- `DUPLICATE_NODE_IN_BRANCH` can never be raised: sanitized branches have no repeats (`Validation.CheckBranches`).
- A capacity floor at or below -1 makes the bottleneck policy miss routes, because an unseen node counts as -1
  (`BottleneckRouting.LowFloorMissesRoute`); above -1, and so for every floor its manifest admits, it does not.
- A rejected action given in NED is answered with positions that are ENU but still labelled NED
  (`SafetyShield.FallbackMisread`; `SafetyShield.FallbackReadBack` says when the two readings coincide). Applying them
  as they are, as the environment does, is safe.
- The step projection lets a step of up to 1e-12 through whatever the limit is (`Geometry.ToleranceExceedsLimit`).
- `replace_route` drops the packet under way without counting it as dropped (`PacketFlow.ReroutedBalance`), and
  `clear_outage` with an unknown branch clears every branch (`PacketRuntime.Runtime.ClearOutage`).
- Acknowledgements are not monotone: a confirmed revision is no longer committable once a stale one has been read
  (`Revisions.StaleAckTakesBack`). In every state of every run a participant is confirmed exactly when the last entry
  made for it confirms (`Revisions.LastEntryDecides`).
- Acknowledgements are read in two ways: marks prefer `observed_hashes`, drift prefers `applied_hashes`. One that fills
  both differently can confirm a revision and be reported as drift (`Revisions.ConfirmingDrift`).
- `status` can report `in_sync` although ROS and Sionna never answered (`Revisions.InSyncWithoutAcks`); what a
  commit guarantees rests on `all_required_acknowledged` alone.
- `RevisionStore.commit` accepts an answer that observes no hash at all (`RevisionStore.EmptyAnswerPasses`).
- The ROS agent remembers only the last acknowledged revision. It does not retry a revision that the packet runtime
  refused as long as no other revision is requested (`RevisionAgent.RefusedIsNotRetried`), but publishes it again once
  another one was acknowledged in between (`RevisionAgent.RefusedIsRetriedAfterAnother`).
- Messages for one revision are at least half a second apart, messages for different revisions need not be
  (`RevisionAgent.PublicationsAreSpaced`, `RevisionAgent.ApartIffNewsWaits`).

## Model

| member | source | states |
|---|---|---|
| Flows.InitResidual | netlab/topology.py:351-355 | The residual map starts with the given capacities, a missing entry counting as 0, and holds the reverse of every entry it holds |
| Flows.Search | netlab/topology.py:358-365 | The breadth-first search finds a chain of positive residuals from source to sink, or a set of nodes containing the source and not the sink that no positive residual leaves |
| Flows.Augment | netlab/topology.py:368-380 | Augmenting along the parent chain by its least residual keeps every residual non-negative, keeps residual(u,v)+residual(v,u) fixed, conserves the flow at inner nodes and raises the flow's value by exactly the increment, which is positive; with equal ends it changes nothing and the increment is 10**9 |
| Flows.SaturatedCut | netlab/topology.py:366-367 | When no positive residual leaves a side holding the source and not the sink, that side is a cut whose capacity is the total pushed |
| Flows.Round | netlab/topology.py:357-380 | A round without the sink found ends the loop at a maximum flow; a round with it found raises the value, or, with equal ends, leaves everything as it was |
| Flows.WeakDuality | netlab/topology.py:350-381 | No feasible flow is larger than any cut |
| Flows.MaxFlow | netlab/topology.py:350-381 | For different ends: terminates, and returns the value of a feasible flow that is also the capacity of a cut |
| Flows.MaxFlowRounds | netlab/topology.py:350-381 | For any ends: with equal ones the loop is not left in any number of rounds and the total grows by 10**9 in each; with different ones it is left as soon as there are more rounds than some cut has capacity, with a maximum flow |
| Flows.MaxFlowIsLargest | netlab/topology.py:350-381 | Hence no feasible flow has a larger value than the result |
| PathFlows.Decompose | netlab/topology.py:384-399 | A flow of value k carries k simple source-to-sink paths that together use no arc more often than the flow does |
| PathFlows.FamilyAtMostMaxFlow | netlab/topology.py:384-399 | No family of paths that fits the capacities is larger than a cut that equals the maximum flow |
| EdgeDisjointPaths.CountingNetwork | netlab/topology.py:385-387 | The capacity of an arc is the number of times the edge is listed |
| EdgeDisjointPaths.BlocksBoundFlow | netlab/topology.py:384-388 | No set of list entries that cuts the sink off is smaller than the value of a flow |
| EdgeDisjointPaths.MengerForEdges | netlab/topology.py:384-388 | Menger for directed multigraphs: a flow and a cut of the same value k make k the size of a largest edge-disjoint family and of a smallest set of list entries that hits every path |
| EdgeDisjointPaths.EdgeDisjointCount | netlab/topology.py:384-388 | The count is the size of a largest family of edge-disjoint source-to-sink paths and of a smallest set of list entries whose loss cuts the sink off; parallel entries count separately |
| EdgeDisjointPaths.EdgeDisjointRounds | netlab/topology.py:384-388 | Does not return in any number of rounds when the ends are equal, and does within one round more than there are edges when they differ |
| NodeDisjointPaths.SplitNetwork | netlab/topology.py:393-398 | The split network has capacity 1 through every inner node and along every listed edge, and the maximum through source and sink |
| NodeDisjointPaths.BlockersAreMany | netlab/topology.py:391-399 | A separating set of inner nodes and edges is at least as large as any node-disjoint family |
| NodeDisjointPaths.MengerForNodes | netlab/topology.py:391-399 | Menger for nodes: a flow and a cut of the split network make their value the size of a largest family of paths that share only their ends, and of a smallest separating set of inner nodes and edges; the finite capacity of source and sink never matters |
| NodeDisjointPaths.NodeDisjointCount | netlab/topology.py:391-399 | The count is the size of a largest family of node-disjoint simple paths through listed nodes and of a smallest separating set of inner nodes and edges |
| NodeDisjointPaths.NodeDisjointIsEdgeDisjoint | netlab/topology.py:384-399 | A node-disjoint family uses no edge occurrence twice |
| NodeDisjointPaths.NodeAtMostEdge | netlab/topology.py:384-399 | The node-disjoint count never exceeds the edge-disjoint count on the same edges |
| PathMetrics.ValidEdges | netlab/topology.py:459-460 | Keeps the edges between listed nodes, in order |
| PathMetrics.BetweenCounts | netlab/topology.py:460 | Every edge between listed nodes is kept as often as it is listed, and no other |
| PathMetrics.EdgeCounts | netlab/topology.py:471 | Is done, with the edge connectivity of every sink, only when the source is not a sink, and then within one round more per flow than there are edges |
| PathMetrics.NodesDecide | netlab/topology.py:471-476 | The least node-disjoint count is at most the least edge-disjoint one |
| PathMetrics.PathCounts | netlab/topology.py:458-476 | Never done when the source is a sink and otherwise done; the connectivity estimate is then the least node-disjoint count of all sinks |
| Adjacency.Adjacency | netlab/topology.py:120-127 | The graph has exactly the listed edges (and their reverses when undirected), a key for every node and every end, and is closed |
| LowLink.AfterChild | netlab/topology.py:205-209 | Merging a finished child keeps the low-link invariant: low is the least number of an own node or of an open node that a back edge of the subtree, other than the tree edge, leads to |
| LowLink.AfterScan | netlab/topology.py:214-215 | Taking in a numbered neighbour other than the parent keeps the low-link invariant |
| ArticulationSearch.JudgeChild | netlab/topology.py:208-213 | After each child the verdict matches what is known: a marked inner node really separates, under an unmarked one all descendants reach its parent without it, and a root is marked iff it has had two children |
| ArticulationSearch.JudgeEnd | netlab/topology.py:199-215 | When a node is finished it has been marked iff its removal separates two nodes that were connected |
| ArticulationSearch.ArticulationPoints | netlab/topology.py:191-221 | Returns exactly the nodes whose removal separates two other nodes of their component, for every adjacency order |
| TopologyMetrics.ArticulationPoints | netlab/topology_metrics.py:30-42 | The second implementation, on its own adjacency and with roots that have no parent entry, returns exactly the same nodes |
| BridgeSearch.ChildIsBridge | netlab/topology.py:241-242 | A finished child whose low number exceeds the node's number hangs from the node by a bridge |
| BridgeSearch.ChildIsNoBridge | netlab/topology.py:240-242 | A finished child with a smaller or equal low number does not |
| BridgeSearch.BridgeEdges | netlab/topology.py:224-250 | Returns exactly the edges of the simple undirected graph whose removal disconnects their ends, each as an unordered pair |
| TopologyMetrics.Adjacency | netlab/topology_metrics.py:6-11 | The two-pass construction builds the same closed graph as the first implementation's |
| TopologyMetrics.Bridges | netlab/topology_metrics.py:43-54 | Lists exactly the bridges of the simple undirected graph, each once |
| TopologyMetrics.BothBridges | netlab/topology_metrics.py:43-54 | Both implementations report the same edges up to orientation, and equally many |
| TopologyMetrics.Components | netlab/topology_metrics.py:12-22 | Lists the nodes split into the classes of mutual reachability, every node in exactly one class and once in it |
| TopologyMetrics.SameClass | netlab/topology_metrics.py:12-22 | A class of one partition of a graph into mutually reachable nodes is a class of every other |
| TopologyMetrics.BothComponents | netlab/topology_metrics.py:12-22 | Both implementations find the same components |
| TopologyMetrics.ShortestPaths | netlab/topology_metrics.py:23-29 | Labels exactly the reachable nodes, each with its hop distance |
| TopologyMetrics.DiameterHops | netlab/topology_metrics.py:56-58 | The greatest distance between nodes that reach each other, 0 without nodes |
| TopologyMetrics.BothDiameters | netlab/topology_metrics.py:56-58 | Where the first implementation has a diameter, it is the same number |
| Diameter.Farthest | netlab/topology.py:259-271 | Counts the reachable nodes and returns one at the greatest distance from the start, with that distance |
| Diameter.TwoSweeps | netlab/topology.py:273-281 | In a tree, no distance between two nodes exceeds the greatest distance from a node that is farthest from an arbitrary start |
| Diameter.FewEdgesMakeATree | netlab/topology.py:275-279 | When every node is reached and there are n-1 distinct proper edges, every edge is one of the search tree |
| Diameter.ShortcutIsGreatest | netlab/topology.py:276-281 | Hence the two-search shortcut returns the greatest distance over all pairs |
| Diameter.AllSources | netlab/topology.py:283-289 | The all-pairs loop returns the greatest distance over all pairs |
| Diameter.AllPairsDiameter | netlab/topology.py:254-289 | 0 for no nodes; otherwise None iff a name is repeated or the graph is disconnected, and else the greatest shortest-path distance over all pairs, on both branches of the code |
| WalkCounts.CountByLastHop | netlab/topology.py:331-333 | The number of walks of k+1 hops to a node is the sum of the numbers of walks of k hops to its predecessors |
| WalkCounts.CountThrough | netlab/topology.py:337-339 | The walks that visit v after i of i+j hops are as many as the product of the walks to v and the walks on from v |
| BrandesForward.ForwardPass | netlab/topology.py:317-333 | Labels exactly the reachable nodes with their hop distance and every one with its number of shortest paths, lists as predecessors exactly the neighbours one hop nearer, and stacks the nodes by distance |
| Dependencies.ThroughMeansAt | netlab/topology.py:334-341 | A shortest path visits v iff v stands on it at its own distance |
| Dependencies.OnwardStep | netlab/topology.py:337-339 | Shortest continuations from v to t split over the neighbours of v one hop farther out |
| Dependencies.ShareIsFraction | netlab/topology.py:337-339 | The fraction of the shortest paths to t that pass through v is sigma(v) times the onward paths over sigma(t) |
| Dependencies.Recursion | netlab/topology.py:335-339 | The dependency on v, defined as the sum over all targets of the fraction of shortest paths through v, is the sum over the next nodes w of sigma(v)/sigma(w)*(1+dependency(w)) |
| DependencyTotals.HandedBack | netlab/topology.py:337-339 | A node hands back to its predecessors exactly 1 plus its own dependency |
| DependencyTotals.DependenciesSumToDistances | netlab/topology.py:334-339 | The dependencies of one source, as defined by fractions of shortest paths, add up to the sum of the distances to all reachable nodes |
| BrandesBackward.HandBack | netlab/topology.py:336-339 | When a node is popped its entry already is its dependency, and each predecessor has then been credited once |
| BrandesBackward.BackwardPass | netlab/topology.py:334-341 | Adds to every reachable node's centrality, except the source's, exactly its dependency, and leaves the others alone; the dictionary it leaves holds every node's dependency, 0 out of reach, and its entries add up to the distances of the reachable nodes |
| Betweenness.BrandesBetweenness | netlab/topology.py:292-347 | For any list of m distinct sources and n > 2 nodes, every node's result times (n-1)(n-2)m is n times the sum over the sources of the fractions of shortest paths through it; in general that sum times the scale the code computes |
| Betweenness.ScaleInNumbers | netlab/topology.py:343-347 | The scale of m sources out of n > 2 nodes is n over (n-1)(n-2)m |
| Betweenness.CentralityInUnitRange | netlab/topology.py:343-347 | With all nodes as sources and more than two nodes, the scaled centrality lies between 0 and 1 |
| Reachability.Reachable | netlab/topology.py:130-139 | Returns exactly the nodes a walk leads to, the source included |
| Reachability.ConnectedComponents | netlab/topology.py:165-174 | Partitions the nodes into the classes of mutual reachability |
| Reachability.ShortestPath | netlab/topology.py:177-188 | None iff no walk exists; otherwise a walk with the least number of hops |
| Cycles.OrderedIsAcyclic | netlab/topology.py:155-157 | A graph whose nodes all finish before the nodes that lead to them has no cycle |
| Cycles.HasCycle | netlab/topology.py:142-162 | True iff the directed graph has a cycle; when false, the order in which nodes turn black is a reverse topological order of all nodes |
| SimplePathCount.SimplePathsComplete | netlab/topology.py:402-413 | The finite set used to count holds exactly the simple source-to-sink paths |
| SimplePathCount.SimplePathCount | netlab/topology.py:402-413 | Terminates on every finite graph and returns the smaller of the limit and the number of simple paths, each counted once |
| Branches.SanitizeBranches | netlab/topology.py:34-58 | Keeps of every list the relay numbers in range in order of first occurrence, skips lists that end up empty, and without sharing also skips numbers used before |
| Branches.KeptMember | netlab/topology.py:44-55 | A relay is kept iff it is listed, in range and not blocked |
| Branches.KeptInOrder | netlab/topology.py:44-55 | What is kept stands in the order of its first listing, so each relay only once |
| Branches.SanitizedIsClean | netlab/topology.py:49-57 | Every kept branch is non-empty, in range and free of repeats; without sharing no two branches meet |
| Branches.SanitizedAll | netlab/topology.py:34-58 | Sanitizing clean branches with sharing allowed returns them unchanged |
| Branches.BranchesToEdges | netlab/topology.py:92-100 | The edges are, branch by branch, those from the source to the first relay and from each relay to the next |
| Layouts.DealtLayout | netlab/topology.py:67-71 | Dealing the relays 1..n in turn gives non-empty branches that hold every relay once, the k-th relay of branch j being 1+j+k*branches, with sizes that differ by at most one |
| Layouts.RootedLayout | netlab/topology.py:77-87 | Dealing the rest behind the roots holds every relay, a relay recurring only as a root; all branches start with their own relay iff there are as many roots as branches |
| Layouts.RootedInTurn | netlab/topology.py:80-87 | The branches of a forest take turns at the roots, and their further relays are those after the roots, dealt in turn |
| Layouts.BranchCountIs | netlab/topology.py:62-63 | As many branches as wished, but at least one and at most one per relay; as many roots as branches iff there is one branch, one relay, or three relays for every branch |
| Layouts.GenerateBranches | netlab/topology.py:61-89 | In every mode the branches cover 1..relay_count and a relay occurs only once unless it heads several branches; chain and manual give one branch 1..n in order; parallel, and forest with more than one relay, give exactly branch_count branches when 1 <= branch_count <= relay_count, one below that and relay_count above; parallel deals the relays in turn, forest behind min(branches, max(1, relay_count/3)) roots taken in turn; heads are shared only in forest mode, exactly when branch_count > 1, relay_count > 1 and 3*branch_count > relay_count |
| Validation.LayoutIsTree | netlab/topology.py:61-100 | The distinct edges of a generated layout form an out-tree rooted at the source: no cycle, every relay reached, exactly one edge into it, none into the source |
| Validation.RepeatsIffSharedHeads | netlab/topology.py:561-564 | The edge list of a layout repeats an edge iff two branches start with the same relay |
| Validation.CheckBranches | netlab/topology.py:546-548 | The repeated-relay error is never raised on sanitized branches |
| Validation.NormalizeManualEdges | netlab/topology.py:103-117 | Yields the edges that the items name, in order |
| Validation.NamedCounts | netlab/topology.py:103-117 | Every edge is named as often as items name it |
| Validation.ChosenAre | netlab/topology.py:555-559 | The edges are those the manual items name iff the mode is manual or unknown and there are items; the sinks are those given, or else the last relay of the first branch if there is one |
| Validation.ValidateTopology | netlab/topology.py:528-622 | Structurally valid iff the mode is known, a branch exists (outside manual mode), no edge is repeated, dangling, a loop or on a failed node, no cycle in chain, parallel and forest mode, and every sink is reachable; returns iff the source is not among the chosen sinks, and the connectivity estimate is then the least node-disjoint count; also which branches, edges and sinks it works with |
| Validation.ValidIsServed | netlab/topology.py:571-582 | In a structurally valid topology every sink is reached by a walk with no failed node on any of its edges, and chain, parallel and forest layouts have no cycle |
| Validation.LayoutIsSound | netlab/topology.py:561-582 | A generated layout is structurally valid, with default sinks and no failures, iff all its branches start with their own relay |
| Validation.GenerateAndValidate | netlab/topology.py:61-89 | The validation of a generated layout with its default sink returns; chain, parallel and manual layouts are always accepted, a forest exactly when branch_count <= 1, relay_count <= 1 or 3*branch_count <= relay_count |
| Routes.ReverseAt | plugins/controllers/latency_aware_routing.py:49 | Reversing the walked-back route puts each stop at its mirrored place |
| LatencyRouting.Improve | plugins/controllers/latency_aware_routing.py:40-43 | Entering a cheaper label keeps the search invariant and never touches a settled node, zero-weight links included |
| LatencyRouting.NoCheaperChain | plugins/controllers/latency_aware_routing.py:32-43 | No chain of feasible links to an unsettled node is cheaper than the least queued cost |
| LatencyRouting.Search | plugins/controllers/latency_aware_routing.py:29-43 | With lazy deletion and early exit the search labels the destination iff a chain exists, with the least cost of all chains |
| LatencyRouting.RouteTo | plugins/controllers/latency_aware_routing.py:46-49 | The walk along the parents terminates, also over zero-weight links, and gives a simple chain of links whose cost is the label |
| LatencyRouting.LinksOf | plugins/controllers/latency_aware_routing.py:23-28 | Every chain of the graph is run by listed feasible links with the same stops, at the sum of their clamped delays with penalty |
| LatencyRouting.ChargedIsTotal | plugins/controllers/latency_aware_routing.py:27-28 | Where no delay + penalty is negative, links cost the sum of their delays plus one penalty each |
| LatencyRouting.PlanRoute | plugins/controllers/latency_aware_routing.py:19-50 | Empty, with no estimate, iff no listed feasible links lead from source to destination one after another; otherwise a simple path run by such links whose summed max(0, delay + penalty) is the estimate and at most the sum of any others; where no delay + penalty is negative the estimate is the sum of the delays plus the number of links times the penalty, and that is least |
| BottleneckRouting.NoWiderChain | plugins/controllers/maximum_bottleneck_routing.py:39-51 | No chain of usable links to an unsettled node is wider than the greatest queued score |
| BottleneckRouting.Search | plugins/controllers/maximum_bottleneck_routing.py:36-51 | The search labels the destination iff a usable chain exists, with the greatest width of all chains |
| BottleneckRouting.RouteTo | plugins/controllers/maximum_bottleneck_routing.py:54-57 | The walk along the parents terminates and gives a simple chain whose least capacity is the label |
| BottleneckRouting.LinksOf | plugins/controllers/maximum_bottleneck_routing.py:29-35 | Every chain of usable hops is run by listed links with the same stops, and its width is the capacity of the narrowest |
| BottleneckRouting.PlanRoute | plugins/controllers/maximum_bottleneck_routing.py:24-58 | Empty, with bottleneck 0, iff no listed feasible links at or above the floor and above -1 lead from source to destination; otherwise a simple path run by such links, whose least capacity is the reported value (infinite for no link), while any other such links include one with no more |
| BottleneckRouting.RouteMeetsFloor | plugins/controllers/maximum_bottleneck_routing.py:30-35 | Every link of a chain is a listed feasible link at or above the capacity floor, and so is the chain's width |
| BottleneckRouting.FloorMakesUsable | plugins/controllers/maximum_bottleneck_routing.py:48 | With a floor above -1 every allowed link is usable |
| BottleneckRouting.LowFloorMissesRoute | plugins/controllers/maximum_bottleneck_routing.py:48 | For every floor of -1 or less some allowed one-link route is missed |
| Geometry.ClampInside | netlab/safety_shield.py:86-87 | A clamped value lies within the limits, and is unchanged iff it did before |
| Geometry.StepBetween | netlab/safety_shield.py:98-104 | A projected step stays in the box spanned by the current position and the target |
| Geometry.StepLength | netlab/safety_shield.py:98-104 | A projected step is no longer than the limit (or the 1e-12 tolerance) |
| Geometry.StepApproaches | netlab/safety_shield.py:98-104 | A target farther than the limit (and the tolerance) is approached on the straight line by exactly the limit |
| Geometry.VerticalLimit | netlab/safety_shield.py:299-302 | The vertical limit cuts the climb to exactly the limit when it exceeds it, touches nothing else, stays in the box and never lengthens the step |
| Geometry.DistDecides | netlab/safety_shield.py:319 | A distance is at least, or at most, d iff the sum of the squared coordinate differences says so |
| Geometry.ToleranceExceedsLimit | netlab/safety_shield.py:101-102 | For every limit below 1e-12 some target is stepped to although it is farther than the limit |
| SafetyShield.FirstUsableCounts | netlab/safety_shield.py:90-95 | The current position is the first usable one of measured, simulated, position, commanded and desired, and the origin without any |
| SafetyShield.ProjectTarget | netlab/safety_shield.py:269-306 | A target is commanded iff its UAV is active, not failed and the frame convertible; then clipped, stepped and limited; and exactly the stated issues are raised |
| SafetyShield.ProjectTargets | netlab/safety_shield.py:266-306 | The same for all known targets, in any order |
| SafetyShield.CorrectedKeeps | netlab/safety_shield.py:280-296 | A target is not clipped iff it lies inside the bounds |
| SafetyShield.CorrectedIsNearest | netlab/safety_shield.py:280-296 | A target is clipped to the nearest point: per coordinate to center plus or minus half of max(1, side) with a geofence, and to the altitude limits |
| SafetyShield.SteppedKeeps | netlab/safety_shield.py:298-302 | A target is reached in one step iff it is within the motion limit (or the tolerance) and the vertical limit |
| SafetyShield.LimitsPerUpdate | netlab/safety_shield.py:258-263 | The limits of one update are the speeds over the rate, a speed below 0.01 and a rate below 0.1 counting as that |
| SafetyShield.ReachedWithinLimits | netlab/safety_shield.py:298-302 | In the configuration's numbers, a target is reached in one update iff it is within max speed / rate (or 1e-12) and, vertically, within max vertical speed / rate |
| SafetyShield.WarnedIffAltered | netlab/safety_shield.py:266-306 | A warning is raised iff some command differs from its target |
| SafetyShield.TooCloseIs | netlab/safety_shield.py:319-320 | Two positions violate the separation iff they are nearer than minimum_separation_m - 1e-9, by their coordinates |
| SafetyShield.CheckSeparation | netlab/safety_shield.py:315-322 | For every two entities the pair is raised iff their positions are nearer than minimum_separation_m - 1e-9, by their coordinates, and nothing else is raised |
| SafetyShield.ConnectivityPreview | netlab/safety_shield.py:132-202 | One verdict per required edge, false for a missing end, and feasible overall iff every verdict is |
| SafetyShield.CheckPositions | netlab/safety_shield.py:253-333 | No error is raised iff every target can be commanded, all flying UAVs stay apart, every commanded battery is above reserve, and (when required) every hop is feasible at the projected positions |
| SafetyShield.AcceptsIs | netlab/safety_shield.py:205-333 | Field by field, an action passes iff it is well formed, targets only active, unfailed UAVs above the reserve in ENU, NED or ISAAC_STAGE, leaves any two flying UAVs minimum_separation_m - 1e-9 apart and, if required, every hop between placed ends feasible under their flags |
| SafetyShield.ApplySafetyShield | netlab/safety_shield.py:205-374 | Accepted iff the action meets all of that, so never one that leaves two flying UAVs nearer than minimum_separation_m - 1e-9; hands on exactly the projected commands of all targets in ENU when accepted, nothing for a malformed action, and otherwise the present position of every flying UAV, with the read-back of SafetyShield.FallbackReadBack; reported as projected iff some command differs from its target |
| SafetyShield.FallbackReadBack | netlab/safety_shield.py:338-343 | What the shield hands on for a rejected action is the present position of every flying UAV under the frame label of the action: each is read back as itself iff the frame is ENU or ISAAC_STAGE, or NED with every flying UAV on x = y, z = 0 |
| SafetyShield.FallbackMisread | netlab/safety_shield.py:338-343 | A NED action for a UAV with an exhausted battery is rejected, and answered with a position that, read in the frame it is labelled with, is another one |
| SwarmLoop.GuardedIsSafe | netlab/safety_shield.py:75-83 | What the shield computes as safe, by service bounds, separation and hop tests, is safety in the configuration's own numbers |
| SwarmLoop.TickKeepsSafe | netlab/marl.py:175-182 | In the configuration's own numbers, one tick with any algorithm output keeps every flying UAV between the altitude limits and, with a geofence, within half a side of the center, any two minimum_separation_m - 1e-9 apart and every required hop feasible |
| SwarmLoop.RunKeepsSafe | netlab/marl.py:175-182 | Hence every state of every run from a safe start is safe, whatever the algorithm puts out |
| SwarmLoop.RunInNumbers | netlab/marl.py:175-182 | Spelled out for two flying UAVs of any state of such a run: at least minimum_separation_m - 1e-9 apart, altitude between the limits, and with a geofence of sides of at least 1 no farther from the center than half a side in x and in y |
| SwarmLoop.TickLimitsMotion | netlab/safety_shield.py:298-302 | A tick moves every UAV by at most the motion limit (or the 1e-12 tolerance), and vertically by at most the vertical limit |
| SwarmLoop.TickInNumbers | netlab/safety_shield.py:258-262 | For a speed of at least 0.01 and a rate of at least 0.1: a tick moves a UAV by at most max speed / rate (or 1e-12) and vertically by at most max vertical speed / rate |
| SwarmLoop.TickWrites | netlab/marl.py:176-182 | A UAV the shield hands a position on for is commanded, simulated and measured there and otherwise unchanged; every other UAV is as it was |
| SwarmLoop.WishesFollow | netlab/marl.py:150-157 | An agent wishes to go from its measured position, or else its position, by speed times dt in every component of 1 or more, by minus that for -1 or less, proportionally between, and not at all without an action |
| SwarmLoop.NetlabParallelEnv.constructor | netlab/marl.py:103-116 | A reset environment has taken no step and its agents are the active UAVs |
| SwarmLoop.NetlabParallelEnv.Step | netlab/marl.py:143-196 | A step puts the agents' clipped wishes through the shield and applies what it hands on; a safe snapshot stays safe, and the agents are gone after the last step |
| PacketFlow.StepLawful | netlab/packet.py:134-208 | Every step keeps: feasible decisions = completed*(route length-1) + hop index of the undelivered packet, both counted since the route was set; cursor on the route; paused iff the packet is halted by an outage |
| PacketFlow.CursorFollowsGate | netlab/packet.py:156-191 | Field by field: a refused hop halts the packet and the stream with the verdict's reason, an open one advances the cursor by one and delivers at the end of the route; nothing else changes, and the packet keeps its number |
| PacketFlow.ReroutedStartsOver | netlab/packet.py:233-244 | A new route is installed with a fresh queued packet at its start, unpaused, with the completed and dropped counts kept |
| PacketFlow.StepBalance | netlab/packet.py:134-208 | A step takes a new sequence number iff the stream had no packet under way, so numbers = delivered + under way |
| PacketFlow.ReroutedBalance | netlab/packet.py:233-244 | Replacing the route during a packet loses that packet from the balance, and counts it neither as dropped nor as completed |
| PacketFlow.OpenRunDelivers | netlab/packet.py:134-208 | After n steps under an always feasible gate the packets completed on the route are (earlier decisions + n) div (route length-1), for a stream in any state; a stream with nothing on its way delivers n div (route length-1) |
| PacketFlow.StepIsLocal | netlab/packet.py:134-208 | Two streams that show the same cursor, status, pause, reason and counters still do after steps whose gates agree on the route's hops, whatever sequence numbers they drew |
| PacketFlow.EventsAreLocal | netlab/packet.py:210-244 | One stream after two sequences of steps, refills, clearings and new routes that look the same to it, with gates that agree on its route's hops at the time, shows the same whatever sequence numbers it drew |
| PacketRuns.PlayedIsSeen | netlab/packet.py:210-244 | In a run over all streams, each goes through exactly the events meant for it |
| PacketRuns.BranchesDoNotInterfere | netlab/packet.py:210-244 | Branch non-interference: two runs of whole runtimes, with any other branches and any outages, clearings and new routes on them, with gates that agree only on the hops of branch k whenever it is stepped, show the same cursor, status, pause, reason and counters on branch k |
| PacketRuns.OpenBranchDelivers | netlab/packet.py:210-244 | Over a run of a whole runtime, a branch whose hops are open whenever all are stepped delivers (earlier decisions + rounds) div (route length-1) less what it had, whatever happens to other branches and however often outages are cleared |
| PacketRuns.ReroutedBranchDelivers | netlab/packet.py:210-244 | After a new route was given to a branch in the middle of any run, the branch runs on that route and n rounds with its hops open complete n div (new route length-1) packets more |
| PacketRuntime.RuntimesDoNotInterfere | netlab/packet.py:210-244 | The same for two runtime objects, whose streams are where the recorded calls of `step`, `clear_outage` and `replace_route` led them |
| PacketRuntime.OpenRuntimeDelivers | netlab/packet.py:210-244 | The same for a runtime object: a branch open in every recorded round has completed rounds div (route length-1) packets |
| PacketRuntime.ReroutedRuntimeDelivers | netlab/packet.py:210-244 | The same for a runtime object whose recorded calls contain that `replace_route` |
| PacketRuntime.BranchStream.Transmit | netlab/packet.py:149-208 | Field by field: at the end of the route the packet is delivered; a refused hop halts packet and stream with the reason and reports a pause; an open one moves the cursor and reports an advance, or the delivery at the last hop |
| PacketRuntime.BranchStream.Clear | netlab/packet.py:225-230 | Lifts the pause and its reason; a packet halted by an outage becomes a retry with one retry more and no reason, any other is left alone, and so are route and counters |
| PacketRuntime.BranchStream.SetRoute | netlab/packet.py:238-243 | Route, source and destination become those of the new route, the packet is a new queued one at its start, the pause is lifted and the counters stay |
| PacketRuntime.Runtime.constructor | netlab/packet.py:75-83 | A new runtime over untouched streams meets the accounting laws and has an empty history |
| PacketRuntime.NumberingUpdate | netlab/packet.py:127-147 | Giving one stream the next number keeps the numbers of the packets held apart and below the counter |
| PacketRuntime.Runtime.EnsurePackets | netlab/packet.py:127-132 | Gives a new packet to exactly the streams without one and keeps the accounting |
| PacketRuntime.Runtime.StepStream | netlab/packet.py:134-208 | Steps one stream and no other; a number is taken iff it had no packet under way; the accounting is kept |
| PacketRuntime.Runtime.Step | netlab/packet.py:210-220 | Chain mode steps the first stream only, other modes every stream once; the call is recorded, the accounting is kept, no two streams hold packets of the same number, and one event per stepped stream tells its branch and what happened to its packet |
| PacketRuntime.Runtime.ClearOutage | netlab/packet.py:222-231 | Clears the named branch only, and all branches when none or an unknown one is named, with one retry event for each in order |
| PacketRuntime.Runtime.ReplaceRoute | netlab/packet.py:233-244 | Refuses an unknown branch and then a route of fewer than two nodes without any change, events included; otherwise that branch alone has the new route, its ends and a new queued packet with the next number, keeps its completed and dropped counts, and one event tells |
| PacketRuntime.Runtime.DeliveredPackets | netlab/packet.py:246-259 | The delivered total equals the delivery events emitted, and sequence = delivered + under way + abandoned by rerouting |
| PacketRuntime.FromBranches | netlab/packet.py:85-110 | One untouched stream per non-empty branch, in the order of the branches and at most one each, routed from the source along the branch |
| Revisions.StepOk | netlab/revisions.py:132-290 | Every operation keeps: a participant entry of a record is backed by an acknowledgement that was read, and the committed record is confirmed by every required participant |
| Revisions.RunOk | netlab/revisions.py:132-290 | The same in every state of every interleaving of creations, readings, markings, commits and rollbacks |
| Revisions.CommittedIsAcknowledged | netlab/revisions.py:255-279 | In every reachable state, each participant required by the committed record has sent an accepted acknowledgement that names that revision and carries every one of its hashes |
| Revisions.AckDecides | netlab/revisions.py:195-227 | After an acknowledgement is marked, its participant is confirmed iff that acknowledgement accepts, names the revision and carries every hash, whatever was known before |
| Revisions.AckDecidesByFields | netlab/synchronization.py:138-149 | Field by field: the hashes that count are the observed ones, without those the applied ones, and without those the plain ones |
| Revisions.MarkDecides | netlab/revisions.py:210-227 | A mark changes the confirmation of one participant only |
| Revisions.LastEntryDecides | netlab/revisions.py:195-267 | In every state of every run a participant is confirmed iff the last entry made for it confirms |
| Revisions.LastEntriesCommit | netlab/revisions.py:255-279 | Hence a revision can be committed iff the last entry of every required participant confirms it |
| Revisions.StaleAckTakesBack | netlab/revisions.py:195-227 | A run in which a revision is confirmed by its required participant, and, after a stale acknowledgement of any kind was read and marked, can no longer be committed |
| Revisions.InSyncMeansCommitted | netlab/revisions.py:299-337 | When `status` of a named revision says in sync, all required participants are confirmed iff the record is committed |
| Revisions.ConfirmingDrift | netlab/revisions.py:229-253 | An acknowledgement that confirms a record is still reported as drift iff it fills observed and applied hashes and the applied ones do not cover the expected ones |
| Revisions.ConfirmsAndDrifts | netlab/revisions.py:229-253 | Such an acknowledgement, for every record with a hash |
| Revisions.StatusDecides | netlab/revisions.py:299-337 | `status` says drift iff some file names another revision or misses or contradicts a hash, ready to commit iff none does and all confirmed an uncommitted record, and in sync or the record's own state otherwise |
| Revisions.UnnamedInSync | netlab/revisions.py:299-337 | Without a name, `status` says in sync iff the desired revision is the committed one and no acknowledgement file drifts from it |
| Revisions.InSyncWithoutAcks | netlab/revisions.py:218-221 | After an Isaac acknowledgement alone `status` says in sync although ROS and Sionna confirmed nothing |
| RuntimeSync.RevisionManager.CreateRevision | netlab/revisions.py:132-177 | Files a pending record with the committed one as parent and makes it the desired revision |
| RuntimeSync.RevisionManager.MarkParticipant | netlab/revisions.py:195-227 | Refuses an unknown revision; otherwise replaces one participant's entry in one record: acknowledged moves the state on from ROS to Sionna to Isaac to in sync, failed fails state and phase, anything else leaves both; the laws of the store survive marks that go back to what was read |
| RuntimeSync.RevisionManager.AllRequiredAcknowledged | netlab/revisions.py:255-267 | True iff every required participant (all three when none are listed) acknowledged this revision with every expected hash |
| RuntimeSync.RevisionManager.CommitRevision | netlab/revisions.py:269-279 | Commits iff the record exists and is confirmed, and otherwise changes nothing |
| RuntimeSync.RevisionManager.RollbackTo | netlab/revisions.py:281-290 | Creates a new revision with the target's hashes, required of all three participants, and marks it rolled back while the desired file keeps it as a draft; an unknown target changes nothing |
| RuntimeSync.WaitAck | netlab/synchronization.py:123-136 | Polling returns the first answer that names the revision, or the last one read |
| RuntimeSync.LatestFindsIt | netlab/synchronization.py:127-134 | If an acknowledgement for the revision is ever read, one for it is returned |
| RuntimeSync.LatestMayBeForeign | netlab/synchronization.py:130-136 | If none is read, the result is a foreign acknowledgement, or nothing iff nothing was read |
| RuntimeSync.LatestIs | netlab/synchronization.py:123-136 | The wait ends in an acceptance iff the first acknowledgement of the revision among the polls accepts, and what is then marked confirms iff that one carries every hash |
| RuntimeSync.SilenceConfirmsNothing | netlab/synchronization.py:123-136 | Where no poll names the revision and accepts, nothing is accepted and nothing newly confirmed |
| RuntimeSync.RuntimeSynchronizer.ApplyTo | netlab/synchronization.py:138-202 | What is read and filed under a participant was found in its own file, or came from Sionna; it accepts iff the first acknowledgement of the revision in that file does; the participant is then confirmed iff that answer confirms, is left as it was when its file is empty or Sionna sets neither ok nor accepted, and nobody else's confirmation changes |
| RuntimeSync.RuntimeSynchronizer.Apply | netlab/synchronization.py:204-243 | Over the answers themselves: everything newly read came from the file of its sender, or from Sionna; ROS and Isaac are pending iff asked and the first acknowledgement of the revision in their own file is missing or refuses, Sionna iff it does not accept this revision; a confirmation changes only for those asked and only by their own answers, never for the better without an acceptance; committable iff every required participant is then confirmed; pending is the last one asked when it stops early; no other record, desired or committed revision changes |
| RuntimeSync.RuntimeSynchronizer.Reconcile | netlab/synchronization.py:245-257 | Retries the named or else the desired revision, with the outcome and every confirmation decided by its record and the three answers; nothing else changes, and nothing at all when there is none |
| RuntimeSync.RuntimeSynchronizer.ApplyAndCommit | netlab/synchronization.py:204-243 | Applying and then committing succeeds iff committable, and every required participant has then acknowledged that very revision with all its hashes |
| RevisionStore.PassesConfirms | netlab/revisions.py:40-45 | An answer that passes the typed store's commit confirms all hashes iff it observes every key |
| RevisionStore.EmptyAnswerPasses | netlab/revisions.py:43-45 | An accepted answer without any hash passes although it confirms none |
| RevisionStore.Store.CommitRevision | netlab/revisions.py:38-48 | Commits iff every named participant has an accepted answer that contradicts no hash, and otherwise changes nothing |
| RevisionStore.SynchronizationCoordinator.Apply | netlab/synchronization.py:50-78 | The first answer that deviates decides: raised iff it is for another revision, partially applied iff it refuses; without one, completed iff no answer contradicts a hash, and failed otherwise; the current revision is replaced only on completion |
| RevisionStore.SynchronizationCoordinator.ApplyThenInspect | netlab/synchronization.py:50-84 | After an apply with a fresh id, in sync iff it completed |
| RevisionAgent.AckIsEarned | Docker/workspace/ros2/netlab_revision_agent.py:91-144 | A tick changes the acknowledgement only to canonicalise one that names the pending or the just requested revision: accepted iff it was ready with applied or observed hashes, observed becoming the applied ones when there are any |
| RevisionAgent.ConfigFollowsRequest | Docker/workspace/ros2/netlab_revision_agent.py:64-77 | The configuration becomes the candidate of a request for another revision than the pending and the acknowledged one; without a usable candidate such a request fails and changes nothing else |
| RevisionAgent.RunGrounded | Docker/workspace/ros2/netlab_revision_agent.py:133-144 | After any run of ticks a pending revision was requested, an acknowledged one was requested and reported by the packet runtime, and the sequence counts the ticks |
| RevisionAgent.TickPublishes | Docker/workspace/ros2/netlab_revision_agent.py:133-140 | With nothing pending, a tick publishes a usable request iff it names another revision than the last acknowledged one |
| RevisionAgent.QuietIff | Docker/workspace/ros2/netlab_revision_agent.py:133-140 | The same over any number of ticks |
| RevisionAgent.RefusedIsNotRetried | Docker/workspace/ros2/netlab_revision_agent.py:91-138 | A refusal of the pending revision, not ready or without hashes, is passed on as one and ends the attempt; from then on, over any run with usable requests, nothing is published iff no other revision is requested |
| RevisionAgent.RefusedIsRetriedAfterAnother | Docker/workspace/ros2/netlab_revision_agent.py:108-138 | A run in which a revision is refused, another accepted, and the refused one published again on request |
| RevisionAgent.PublicationsAreSpaced | Docker/workspace/ros2/netlab_revision_agent.py:64-89 | Over every run with a clock that does not go back, two messages in a row belong to different revisions or are at least half a second apart |
| RevisionAgent.ApartIffNewsWaits | Docker/workspace/ros2/netlab_revision_agent.py:64-89 | Over every such run, all messages are at least half a second apart iff every usable new request comes at least that long after the last message |
| RevisionAgent.NewRevisionIsPublishedAtOnce | Docker/workspace/ros2/netlab_revision_agent.py:64-89 | A usable new request is published in the tick that reads it, however recent the last message |
| RevisionAgent.Agent.Tick | Docker/workspace/ros2/netlab_revision_agent.py:133-144 | Whatever the ticks have read, the fields are those of the run, what is pending or acknowledged was requested and reported, messages for one revision keep their distance, and every tick counts |

## Left out

- Flows.MaxFlow: is the whole loop, for different ends; for equal ends, where it never ends, see Flows.MaxFlowRounds.
- NodeDisjointPaths.NodeDisjointCount: requires different ends; the source never gets there with equal ones, because the edge-disjoint counts come first.
- Betweenness.BrandesBetweenness: holds for every list of distinct sources; which sources the sampled mode picks by rounding is not modelled, and a sample is not claimed to approximate anything.
- Diameter.AllPairsDiameter: requires edge ends to be listed nodes, as netlab/topology.py:460 provides.
- Validation.ValidateTopology: covers the structural verdict; coordinates, altitude, separation and link feasibility of a plan (netlab/topology.py:584-617), warnings and error texts are not modelled.
- Branches.SanitizeBranches: an entry is an integer or something that `int` rejects; what `int` makes of strings and floats is not modelled.
- SafetyShield.ApplySafetyShield: issue texts, measured values, the preview's metrics and the computation time are not modelled.
- SwarmLoop.NetlabParallelEnv.Step: observations, rewards and the weights are not modelled.
- PacketRuntime.Runtime.Step: an event keeps its kind, branch and number; payloads, severities, time stamps and packet uuids are not modelled.
- RuntimeSync.RevisionManager.MarkParticipant: promises the laws of the store only for marks that acknowledge what was read or record a failure, the two kinds its callers make; any other participant state counts as pending.
- RuntimeSync.RuntimeSynchronizer.ApplyTo: request files, the HTTP call and the candidate copy for Isaac are not modelled; their answers are inputs.
- RevisionAgent.Agent.Tick: the projection to the legacy configuration and the heartbeat's contents are not modelled.
- The depth-first searches update dictionaries of an enclosing scope in place; the model hands them through by value, so aliasing between nested calls is not modelled.
- `heapq` as an array heap: the policies rely only on taking a least entry.
- `_algebraic_connectivity`, `resilience_score`, `redundancy_level` and the remaining aggregates of both metrics functions: eigen-solvers, heuristics and arithmetic on counts.
- Validation.NormalizeManualEdges: an item either names two ends or does not; how it spells them is not modelled.
- `candidate_standby_promotions` and configuration parsing: independent field checks.
- Radio formulas, position planners, traffic, metrics and unit conversion: float heuristics or library code.
- JSON, atomic file writes, SHA-256, clocks, uuids, HTTP servers, the command line, Docker and the Isaac scripts.
- Floating-point rounding: all arithmetic is exact.
