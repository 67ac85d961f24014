/** Chains of weighted links, shared by the two routing policies under plugins/controllers. */
module Routes {
  import opened Walks

  type Hop = (Node, Node, real)

  /** A chain of hops from u to v. */
  ghost predicate Chain(hops: set<Hop>, u: Node, v: Node, chain: seq<Hop>)
    decreases |chain|
  {
    if chain == [] then u == v
    else chain[0] in hops && chain[0].0 == u && Chain(hops, chain[0].1, v, chain[1..])
  }

  /** Some chain of feasible links joins u to v. */
  ghost predicate Joined(hops: set<Hop>, u: Node, v: Node) {
    exists chain :: Chain(hops, u, v, chain)
  }

  /** The nodes a chain from u visits. */
  ghost function Stops(u: Node, chain: seq<Hop>): seq<Node>
    decreases |chain|
  {
    if chain == [] then [u] else [u] + Stops(chain[0].1, chain[1..])
  }

  /** u was settled before v. */
  ghost predicate Before(order: seq<Node>, u: Node, v: Node) {
    exists j :: 0 <= j < |order| && order[j] == u && v !in order[..j+1]
  }

  lemma BeforeMore(order: seq<Node>, u: Node, v: Node, node: Node)
    requires Before(order, u, v)
    ensures Before(order + [node], u, v)
  {
    var j :| 0 <= j < |order| && order[j] == u && v !in order[..j+1];
    assert (order + [node])[..j+1] == order[..j+1];
    assert (order + [node])[j] == u;
  }

  ghost function HopsFrom(hops: set<Hop>, node: Node): set<Hop> {
    set h | h in hops && h.0 == node
  }

  /** The dictionary of outgoing feasible links. */
  type Table = map<Node, seq<(Node, real)>>

  ghost predicate Tabled(table: Table, hops: set<Hop>) {
    forall h: Hop :: h in hops <==> h.0 in table && (h.1, h.2) in table[h.0]
  }

  lemma OneMoreLink(table: Table, hops: set<Hop>, h: Hop)
    requires Tabled(table, hops)
    ensures Tabled(table[h.0 := (if h.0 in table then table[h.0] else []) + [(h.1, h.2)]], hops + {h})
  {
    var row := if h.0 in table then table[h.0] else [];
    assert forall x :: x in row + [(h.1, h.2)] <==> x in row || x == (h.1, h.2);
  }

  /** The hops of the row not yet scanned. */
  ghost function Unscanned(node: Node, row: seq<(Node, real)>, i: nat): set<Hop> {
    set k | i <= k < |row| :: (node, row[k].0, row[k].1)
  }

  ghost function Ends(hops: set<Hop>, s: Node): set<Node> {
    {s} + set h | h in hops :: h.1
  }

  function Reverse(route: seq<Node>): seq<Node> {
    if route == [] then [] else [route[|route|-1]] + Reverse(route[..|route|-1])
  }

  lemma {:induction false} ReverseAt(route: seq<Node>, k: nat)
    requires k < |route|
    ensures |Reverse(route)| == |route| && Reverse(route)[k] == route[|route| - 1 - k]
  {
    if k > 0 {
      ReverseAt(route[..|route|-1], k - 1);
    } else if |route| > 1 {
      ReverseAt(route[..|route|-1], 0);
    }
  }

  lemma ReverseDistinct(route: seq<Node>)
    requires Distinct(route)
    ensures Distinct(Reverse(route))
  {
    var r := Reverse(route);
    if route != [] { ReverseAt(route, 0); }
    forall i, j | 0 <= i < j < |r| ensures r[i] != r[j] {
      ReverseAt(route, i);
      ReverseAt(route, j);
    }
  }
}
