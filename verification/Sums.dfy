/** Finite sums of integers over sets of nodes. */
module Sums {
  import opened Walks

  ghost function Sum(s: set<Node>, f: Node -> int): int
    decreases |s|
  {
    if s == {} then 0 else
      var x :| x in s;
      f(x) + Sum(s - {x}, f)
  }

  /** Any element can be taken out of a sum. */
  lemma {:induction false} SumTake(s: set<Node>, f: Node -> int, x: Node)
    requires x in s
    ensures Sum(s, f) == f(x) + Sum(s - {x}, f)
    decreases |s|
  {
    var y :| y in s && Sum(s, f) == f(y) + Sum(s - {y}, f);
    if y != x {
      SumTake(s - {y}, f, x);
      SumTake(s - {x}, f, y);
      assert s - {y} - {x} == s - {x} - {y};
    }
  }

  lemma SumPut(s: set<Node>, f: Node -> int, x: Node)
    requires x !in s
    ensures Sum(s + {x}, f) == f(x) + Sum(s, f)
  {
    SumTake(s + {x}, f, x);
    assert s + {x} - {x} == s;
  }

  lemma {:induction false} SumSame(s: set<Node>, f: Node -> int, g: Node -> int)
    requires forall x :: x in s ==> f(x) == g(x)
    ensures Sum(s, f) == Sum(s, g)
    decreases |s|
  {
    if s != {} {
      var x :| x in s;
      SumTake(s, f, x);
      SumTake(s, g, x);
      SumSame(s - {x}, f, g);
    }
  }

  lemma {:induction false} SumAtMost(s: set<Node>, f: Node -> int, g: Node -> int)
    requires forall x :: x in s ==> f(x) <= g(x)
    ensures Sum(s, f) <= Sum(s, g)
    decreases |s|
  {
    if s != {} {
      var x :| x in s;
      SumTake(s, f, x);
      SumTake(s, g, x);
      SumAtMost(s - {x}, f, g);
    }
  }

  lemma {:induction false} SumAdd(s: set<Node>, f: Node -> int, g: Node -> int)
    ensures Sum(s, x => f(x) + g(x)) == Sum(s, f) + Sum(s, g)
    decreases |s|
  {
    if s != {} {
      var x :| x in s;
      SumTake(s, f, x);
      SumTake(s, g, x);
      SumTake(s, y => f(y) + g(y), x);
      SumAdd(s - {x}, f, g);
    }
  }

  /** Two summands that differ only at x. */
  lemma SumChange(s: set<Node>, f: Node -> int, g: Node -> int, x: Node)
    requires forall y :: y in s && y != x ==> f(y) == g(y)
    ensures Sum(s, g) == Sum(s, f) + (if x in s then g(x) - f(x) else 0)
  {
    SumSame(s - {x}, f, g);
    if x in s {
      SumTake(s, f, x);
      SumTake(s, g, x);
    } else {
      assert s - {x} == s;
    }
  }

  lemma {:induction false} SumSplit(s: set<Node>, t: set<Node>, f: Node -> int)
    requires t <= s
    ensures Sum(s, f) == Sum(t, f) + Sum(s - t, f)
    decreases |t|
  {
    if t == {} {
      assert s - t == s;
    } else {
      var x :| x in t;
      SumSplit(s - {x}, t - {x}, f);
      SumTake(s, f, x);
      SumTake(t, f, x);
      assert s - {x} - (t - {x}) == s - t;
    }
  }

  lemma {:induction false} SumZero(s: set<Node>)
    ensures Sum(s, x => 0) == 0
    decreases |s|
  {
    if s != {} {
      var x :| x in s;
      SumTake(s, y => 0, x);
      SumZero(s - {x});
    }
  }

  /** The order of a double sum does not matter. */
  lemma {:induction false} SumSwap(s: set<Node>, t: set<Node>, h: (Node, Node) -> int)
    ensures Sum(s, x => Sum(t, y => h(x, y))) == Sum(t, y => Sum(s, x => h(x, y)))
    decreases |s|
  {
    if s == {} {
      SumZero(t);
      SumSame(t, y => Sum(s, x => h(x, y)), y => 0);
    } else {
      var a :| a in s;
      var rest := s - {a};
      SumTake(s, x => Sum(t, y => h(x, y)), a);
      SumSwap(rest, t, h);
      SumAdd(t, y => h(a, y), y => Sum(rest, x => h(x, y)));
      forall y | y in t ensures Sum(s, x => h(x, y)) == h(a, y) + Sum(rest, x => h(x, y)) {
        SumTake(s, x => h(x, y), a);
      }
      SumSame(t, y => Sum(s, x => h(x, y)),
                 y => (z => h(a, z))(y) + (z => Sum(rest, x => h(x, z)))(y));
    }
  }
}
