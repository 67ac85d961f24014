/** Finite sums of reals over sets of nodes. */
module RealSums {
  import opened Walks

  ghost function RealSum(s: set<Node>, f: Node -> real): real
    decreases |s|
  {
    if s == {} then 0.0 else
      var x :| x in s;
      f(x) + RealSum(s - {x}, f)
  }

  lemma {:induction false} RealTake(s: set<Node>, f: Node -> real, x: Node)
    requires x in s
    ensures RealSum(s, f) == f(x) + RealSum(s - {x}, f)
    decreases |s|
  {
    var y :| y in s && RealSum(s, f) == f(y) + RealSum(s - {y}, f);
    if y != x {
      RealTake(s - {y}, f, x);
      RealTake(s - {x}, f, y);
      assert s - {y} - {x} == s - {x} - {y};
    }
  }

  lemma {:induction false} RealSame(s: set<Node>, f: Node -> real, g: Node -> real)
    requires forall x :: x in s ==> f(x) == g(x)
    ensures RealSum(s, f) == RealSum(s, g)
    decreases |s|
  {
    if s != {} {
      var x :| x in s;
      RealTake(s, f, x);
      RealTake(s, g, x);
      RealSame(s - {x}, f, g);
    }
  }

  lemma {:induction false} RealAdd(s: set<Node>, f: Node -> real, g: Node -> real, h: Node -> real)
    requires forall x :: x in s ==> h(x) == f(x) + g(x)
    ensures RealSum(s, h) == RealSum(s, f) + RealSum(s, g)
    decreases |s|
  {
    if s != {} {
      var x :| x in s;
      RealTake(s, f, x);
      RealTake(s, g, x);
      RealTake(s, h, x);
      RealAdd(s - {x}, f, g, h);
    }
  }

  lemma Distribute(c: real, a: real, b: real)
    ensures c * (a + b) == c * a + c * b
  {
  }

  ghost predicate Additive(m: real -> real, a: real, b: real) {
    m(a + b) == m(a) + m(b)
  }

  /** An additive map can be taken out of a sum. */
  lemma {:induction false} RealLinear(s: set<Node>, m: real -> real, f: Node -> real, h: Node -> real)
    requires m(0.0) == 0.0 && forall a, b {:trigger Additive(m, a, b)} :: Additive(m, a, b)
    requires forall x :: x in s ==> h(x) == m(f(x))
    ensures RealSum(s, h) == m(RealSum(s, f))
    decreases |s|
  {
    if s != {} {
      hide *;
      var x :| x in s;
      RealTake(s, f, x);
      RealTake(s, h, x);
      RealLinear(s - {x}, m, f, h);
      Add(m, f(x), RealSum(s - {x}, f));
    }
  }

  lemma Add(m: real -> real, a: real, b: real)
    requires forall x, y {:trigger Additive(m, x, y)} :: Additive(m, x, y)
    ensures m(a + b) == m(a) + m(b)
  {
    assert Additive(m, a, b);
  }

  lemma RealScale(s: set<Node>, c: real, f: Node -> real, h: Node -> real)
    requires forall x :: x in s ==> h(x) == c * f(x)
    ensures RealSum(s, h) == c * RealSum(s, f)
  {
    var m := (a: real) => c * a;
    forall a, b ensures Additive(m, a, b) {
      Distribute(c, a, b);
    }
    RealLinear(s, m, f, h);
  }

  lemma {:induction false} RealZero(s: set<Node>, f: Node -> real)
    requires forall x :: x in s ==> f(x) == 0.0
    ensures RealSum(s, f) == 0.0
    decreases |s|
  {
    if s != {} {
      var x :| x in s;
      RealTake(s, f, x);
      RealZero(s - {x}, f);
    }
  }

  /** Summands that vanish outside t can be left out. */
  lemma {:induction false} RealRestrict(s: set<Node>, t: set<Node>, f: Node -> real)
    requires t <= s && forall x :: x in s && x !in t ==> f(x) == 0.0
    ensures RealSum(s, f) == RealSum(t, f)
    decreases |s - t|
  {
    if s == t {
    } else {
      var x :| x in s && x !in t;
      RealTake(s, f, x);
      RealRestrict(s - {x}, t, f);
    }
  }

  /** The order of a double sum does not matter. */
  lemma {:induction false} RealSwap(s: set<Node>, t: set<Node>, h: (Node, Node) -> real)
    ensures RealSum(s, x => RealSum(t, y => h(x, y))) == RealSum(t, y => RealSum(s, x => h(x, y)))
    decreases |s|
  {
    var columns := y => RealSum(s, x => h(x, y));
    RealSame(t, y => RealSum(s, x => h(x, y)), columns);
    if s == {} {
      RealZero(t, columns);
    } else {
      var a :| a in s;
      var rest := s - {a};
      RealTake(s, x => RealSum(t, y => h(x, y)), a);
      RealSwap(rest, t, h);
      forall y | y in t ensures columns(y) == h(a, y) + RealSum(rest, x => h(x, y)) {
        RealTake(s, x => h(x, y), a);
      }
      RealAdd(t, y => h(a, y), y => RealSum(rest, x => h(x, y)), columns);
    }
  }
}
