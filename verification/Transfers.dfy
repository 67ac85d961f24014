/** Each node w but the source hands 1 + dep(w) back to the nodes that feed it, and dep(v) is all v receives.
    Then the sum of dep is the sum of the levels.
 */
module Transfers {
  import opened Walks
  import opened RealSums

  ghost predicate Row(dep: Node -> real, received: (Node, Node) -> real, children: Node -> set<Node>, v: Node) {
    dep(v) == RealSum(children(v), w => received(v, w))
  }

  ghost predicate Column(dep: Node -> real, received: (Node, Node) -> real, feeding: Node -> set<Node>, w: Node) {
    RealSum(feeding(w), v => received(v, w)) == 1.0 + dep(w)
  }

  /** What v receives from w is x for every unit of sigma(v). */
  ghost predicate Scales(sigma: Node -> real, received: (Node, Node) -> real, v: Node, w: Node, x: real) {
    received(v, w) == x * sigma(v)
  }

  ghost predicate AllScale(sigma: Node -> real, received: (Node, Node) -> real, w: Node, x: real) {
    forall v :: Scales(sigma, received, v, w, x)
  }

  lemma ColumnFrom(sigma: Node -> real, dep: Node -> real, received: (Node, Node) -> real, feeding: Node -> set<Node>,
                   w: Node, x: real)
    requires RealSum(feeding(w), sigma) == sigma(w) && x * sigma(w) == 1.0 + dep(w)
    requires AllScale(sigma, received, w, x)
    ensures Column(dep, received, feeding, w)
  {
    forall v ensures received(v, w) == x * sigma(v) {
      assert Scales(sigma, received, v, w, x);
    }
    RealScale(feeding(w), x, sigma, v => received(v, w));
  }

  ghost predicate Linked(children: Node -> set<Node>, feeding: Node -> set<Node>, v: Node, w: Node) {
    v in feeding(w) <==> w in children(v)
  }

  ghost function Product(a: real, b: real): real {
    a * b
  }

  /** What v receives from w, times the level of w. */
  ghost function Moved(hop: Node -> real, received: (Node, Node) -> real, children: Node -> set<Node>, v: Node, w: Node): real {
    if w in children(v) then Product(hop(w), received(v, w)) else 0.0
  }

  lemma RealScaleOn(s: set<Node>, from: set<Node>, c: real, f: Node -> real, h: Node -> real)
    requires from <= s
    requires forall x :: x in from ==> h(x) == Product(c, f(x))
    requires forall x :: x in s && x !in from ==> h(x) == 0.0
    ensures RealSum(s, h) == Product(c, RealSum(from, f))
  {
    RealRestrict(s, from, h);
    RealScale(from, c, f, h);
  }

  lemma MovedRow(r: set<Node>, hop: Node -> real, dep: Node -> real, received: (Node, Node) -> real,
                 children: Node -> set<Node>, v: Node)
    requires children(v) <= r && Row(dep, received, children, v)
    requires forall w :: w in children(v) ==> hop(w) == hop(v) + 1.0
    ensures RealSum(r, w => Moved(hop, received, children, v, w)) == Product(hop(v) + 1.0, dep(v))
  {
    RealScaleOn(r, children(v), hop(v) + 1.0, w => received(v, w), w => Moved(hop, received, children, v, w));
  }

  lemma MovedColumn(r: set<Node>, hop: Node -> real, received: (Node, Node) -> real,
                    children: Node -> set<Node>, feeding: Node -> set<Node>, w: Node)
    requires feeding(w) <= r
    requires forall v {:trigger Linked(children, feeding, v, w)} :: Linked(children, feeding, v, w)
    ensures RealSum(r, v => Moved(hop, received, children, v, w)) == Product(hop(w), RealSum(feeding(w), v => received(v, w)))
  {
    forall v ensures v in feeding(w) <==> w in children(v) {
      assert Linked(children, feeding, v, w);
    }
    RealScaleOn(r, feeding(w), hop(w), v => received(v, w), v => Moved(hop, received, children, v, w));
  }

  lemma RowParts(hop: real, dep: real)
    ensures Product(hop + 1.0, dep) == Product(hop, dep) + dep
  {
  }

  lemma ColumnParts(hop: real, dep: real)
    ensures Product(hop, 1.0 + dep) == hop + Product(hop, dep)
  {
  }

  lemma RowTotal(r: set<Node>, s: Node, hop: Node -> real, dep: Node -> real, received: (Node, Node) -> real,
                 children: Node -> set<Node>)
    requires forall v :: v in r ==> children(v) <= r && Row(dep, received, children, v)
    requires forall v, w :: v in r && w in children(v) ==> hop(w) == hop(v) + 1.0
    ensures RealSum(r, v => RealSum(r, w => Moved(hop, received, children, v, w)))
         == RealSum(r, v => Product(hop(v), dep(v))) + RealSum(r, v => dep(v))
  {
    var rows := v => RealSum(r, w => Moved(hop, received, children, v, w));
    forall v | v in r ensures rows(v) == Product(hop(v), dep(v)) + dep(v) {
      MovedRow(r, hop, dep, received, children, v);
      RowParts(hop(v), dep(v));
    }
    RealAdd(r, v => Product(hop(v), dep(v)), v => dep(v), rows);
    RealSame(r, rows, v => RealSum(r, w => Moved(hop, received, children, v, w)));
  }

  lemma ColumnTotal(r: set<Node>, s: Node, hop: Node -> real, dep: Node -> real, received: (Node, Node) -> real,
                    children: Node -> set<Node>, feeding: Node -> set<Node>)
    requires hop(s) == 0.0 && forall w :: w in r ==> feeding(w) <= r
    requires forall w :: w in r && w != s ==> Column(dep, received, feeding, w)
    requires forall v, w {:trigger Linked(children, feeding, v, w)} :: Linked(children, feeding, v, w)
    ensures RealSum(r, w => RealSum(r, v => Moved(hop, received, children, v, w)))
         == RealSum(r, w => hop(w)) + RealSum(r, v => Product(hop(v), dep(v)))
  {
    var columns := w => RealSum(r, v => Moved(hop, received, children, v, w));
    forall w | w in r ensures columns(w) == hop(w) + Product(hop(w), dep(w)) {
      MovedColumn(r, hop, received, children, feeding, w);
      ColumnParts(hop(w), dep(w));
    }
    RealAdd(r, w => hop(w), v => Product(hop(v), dep(v)), columns);
    RealSame(r, columns, w => RealSum(r, v => Moved(hop, received, children, v, w)));
  }

  lemma Total(r: set<Node>, s: Node, hop: Node -> real, dep: Node -> real, received: (Node, Node) -> real,
              children: Node -> set<Node>, feeding: Node -> set<Node>)
    requires hop(s) == 0.0
    requires forall v :: v in r ==> children(v) <= r && feeding(v) <= r && Row(dep, received, children, v)
    requires forall v, w :: v in r && w in children(v) ==> hop(w) == hop(v) + 1.0
    requires forall w :: w in r && w != s ==> Column(dep, received, feeding, w)
    requires forall v, w {:trigger Linked(children, feeding, v, w)} :: Linked(children, feeding, v, w)
    ensures RealSum(r, dep) == RealSum(r, hop)
  {
    RowTotal(r, s, hop, dep, received, children);
    ColumnTotal(r, s, hop, dep, received, children, feeding);
    var h := (v, w) => Moved(hop, received, children, v, w);
    RealSwap(r, r, h);
    forall v | v in r ensures RealSum(r, w => h(v, w)) == RealSum(r, w => Moved(hop, received, children, v, w)) {
      RealSame(r, w => h(v, w), w => Moved(hop, received, children, v, w));
    }
    forall w | w in r ensures RealSum(r, v => h(v, w)) == RealSum(r, v => Moved(hop, received, children, v, w)) {
      RealSame(r, v => h(v, w), v => Moved(hop, received, children, v, w));
    }
    RealSame(r, v => RealSum(r, w => h(v, w)), v => RealSum(r, w => Moved(hop, received, children, v, w)));
    RealSame(r, w => RealSum(r, v => h(v, w)), w => RealSum(r, v => Moved(hop, received, children, v, w)));
    RealSame(r, dep, v => dep(v));
    RealSame(r, hop, v => hop(v));
  }
}
