/** `adjacency` of netlab/topology.py. */
module Adjacency {
  import opened Walks

  /** graph.setdefault(n, set()) */
  function SetDefault(graph: Graph, n: Node): Graph {
    if n in graph then graph else graph[n := {}]
  }

  /** graph.setdefault(u, set()).add(v) */
  function Add(graph: Graph, u: Node, v: Node): Graph {
    graph[u := Succ(graph, u) + {v}]
  }

  lemma AddArcs(graph: Graph, u: Node, v: Node)
    ensures Arcs(Add(graph, u, v)) == Arcs(graph) + {(u, v)}
    ensures Arcs(SetDefault(graph, u)) == Arcs(graph)
  {
    var g := Add(graph, u, v);
    forall a: Arc ensures a in Arcs(g) <==> a in Arcs(graph) + {(u, v)} {
      if a.0 in g && a.0 in graph { assert g[a.0] == if a.0 == u then graph[u] + {v} else graph[a.0]; }
    }
    var d := SetDefault(graph, u);
    forall a: Arc ensures a in Arcs(d) <==> a in Arcs(graph) { }
  }

  /** The arcs one more list entry contributes. */
  function EntryArcs(edges: seq<Arc>, directed: bool): set<Arc> {
    if directed then EdgeSet(edges) else Undirected(edges)
  }

  lemma OneMoreEntry(edges: seq<Arc>, e: Arc, directed: bool)
    ensures EntryArcs(edges + [e], directed)
         == EntryArcs(edges, directed) + {e} + (if directed then {} else {(e.1, e.0)})
  {
    forall a | a in EntryArcs(edges, directed) + {e} + (if directed then {} else {(e.1, e.0)})
      ensures a in EntryArcs(edges + [e], directed)
    {
      if !directed && a == (e.1, e.0) {
        assert e in edges + [e];
      } else if !directed && a in EntryArcs(edges, directed) && a !in edges {
        assert (a.1, a.0) in edges + [e];
      }
    }
  }

  /** The ends of the listed edges. */
  function Ends(edges: seq<Arc>): set<Node> {
    (set e | e in edges :: e.0) + (set e | e in edges :: e.1)
  }

  lemma OneMoreEnds(edges: seq<Arc>, e: Arc)
    ensures Ends(edges + [e]) == Ends(edges) + {e.0, e.1}
  {
    forall n | n in Ends(edges) + {e.0, e.1} ensures n in Ends(edges + [e]) {
      if n !in {e.0, e.1} {
        var f :| f in edges && (n == f.0 || n == f.1);
        assert f in edges + [e];
      } else {
        assert e in edges + [e];
      }
    }
  }

  /** The body of the loop over the edges. */
  method Enter(graph0: Graph, src: Node, dst: Node, directed: bool) returns (graph: Graph)
    ensures Arcs(graph) == Arcs(graph0) + {(src, dst)} + (if directed then {} else {(dst, src)})
    ensures graph.Keys == graph0.Keys + {src, dst}
  {
    AddArcs(graph0, src, dst);
    graph := Add(graph0, src, dst);
    AddArcs(graph, dst, dst);
    graph := SetDefault(graph, dst);
    if !directed {
      AddArcs(graph, dst, src);
      graph := Add(graph, dst, src);
    }
  }

  /** Every listed node and every end of an edge becomes a key; the arcs are the listed edges, and
      their reversals when the graph is undirected. */
  method Adjacency(nodes: seq<Node>, edges: seq<Arc>, directed: bool) returns (graph: Graph)
    ensures Arcs(graph) == if directed then EdgeSet(edges) else Undirected(edges)
    ensures graph.Keys == NodeSet(nodes) + Ends(edges)
    ensures Closed(graph)
    ensures !directed ==> Symmetric(Arcs(graph))
  {
    graph := map n | n in nodes :: {};
    assert Arcs(graph) == {};
    for i := 0 to |edges|
      invariant Arcs(graph) == EntryArcs(edges[..i], directed)
      invariant graph.Keys == NodeSet(nodes) + Ends(edges[..i])
    {
      var (src, dst) := edges[i];
      OneMoreEntry(edges[..i], edges[i], directed);
      OneMoreEnds(edges[..i], edges[i]);
      assert edges[..i+1] == edges[..i] + [(src, dst)];
      graph := Enter(graph, src, dst, directed);
    }
    assert edges[..|edges|] == edges;
    forall u, v | u in graph && v in graph[u] ensures v in graph {
      assert (u, v) in Arcs(graph);
    }
  }
}
