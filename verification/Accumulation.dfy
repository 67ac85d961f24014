/** The algebra of Brandes accumulation, over any path counts: sigma(v) ways lead to v, and onward(v, t) ways
    lead on from v to t, each through one child of v.
 */
module Accumulation {
  import opened Walks
  import opened RealSums

  /** The fraction of the ways to t that pass through v. */
  ghost function Fraction(sigma: Node -> real, onward: (Node, Node) -> real, v: Node, t: Node): real {
    if sigma(t) > 0.0 then sigma(v) * onward(v, t) / sigma(t) else 0.0
  }

  /** The sum of the fractions of v over all other nodes. */
  ghost function Dependency(r: set<Node>, sigma: Node -> real, onward: (Node, Node) -> real, v: Node): real {
    RealSum(r - {v}, t => Fraction(sigma, onward, v, t))
  }

  /** What v receives from its child w. */
  ghost function Passed(r: set<Node>, sigma: Node -> real, onward: (Node, Node) -> real, v: Node, w: Node): real {
    if sigma(w) > 0.0 then sigma(v) / sigma(w) * (1.0 + Dependency(r, sigma, onward, w)) else 0.0
  }

  /** The ways on from v to t lead through the children of v. */
  ghost predicate Splits(onward: (Node, Node) -> real, children: Node -> set<Node>, v: Node, t: Node) {
    onward(v, t) == RealSum(children(v), w => onward(w, t))
  }

  ghost predicate Counted(r: set<Node>, sigma: Node -> real, onward: (Node, Node) -> real, children: Node -> set<Node>) {
    && (forall v :: v in r ==> sigma(v) > 0.0 && children(v) <= r - {v} && onward(v, v) == 1.0)
    && (forall v, w :: v in r && w in children(v) ==> onward(w, v) == 0.0)
    && (forall v, t {:trigger Splits(onward, children, v, t)} :: v in r && t in r && v != t ==> Splits(onward, children, v, t))
  }

  ghost function Inverse(sigma: Node -> real, t: Node): real {
    if sigma(t) > 0.0 then 1.0 / sigma(t) else 0.0
  }

  /** The fraction of v in the ways to t, per way to v. */
  ghost function Weight(sigma: Node -> real, onward: (Node, Node) -> real, v: Node, t: Node): real {
    Inverse(sigma, t) * onward(v, t)
  }

  ghost function Gain(r: set<Node>, sigma: Node -> real, onward: (Node, Node) -> real, v: Node): real {
    RealSum(r - {v}, t => Weight(sigma, onward, v, t))
  }

  ghost function Gains(r: set<Node>, sigma: Node -> real, onward: (Node, Node) -> real, w: Node): real {
    Inverse(sigma, w) + Gain(r, sigma, onward, w)
  }

  lemma FractionIsWeight(sigma: Node -> real, onward: (Node, Node) -> real, v: Node, t: Node)
    ensures Fraction(sigma, onward, v, t) == sigma(v) * Weight(sigma, onward, v, t)
  {
    if sigma(t) > 0.0 {
      DivideByInverse(sigma(v), onward(v, t), sigma(t), Inverse(sigma, t));
    }
  }

  lemma DivideByInverse(a: real, b: real, d: real, inverse: real)
    requires d > 0.0 && inverse == 1.0 / d
    ensures a * b / d == a * (inverse * b)
  {
  }

  lemma DependencyIsGain(r: set<Node>, sigma: Node -> real, onward: (Node, Node) -> real, v: Node)
    ensures Dependency(r, sigma, onward, v) == sigma(v) * Gain(r, sigma, onward, v)
  {
    forall t ensures Fraction(sigma, onward, v, t) == sigma(v) * Weight(sigma, onward, v, t) {
      FractionIsWeight(sigma, onward, v, t);
    }
    RealScale(r - {v}, sigma(v), t => Weight(sigma, onward, v, t), t => Fraction(sigma, onward, v, t));
  }

  lemma ScaledStep(c: real, s: set<Node>, x: real, f: Node -> real)
    requires x == RealSum(s, f)
    ensures c * x == RealSum(s, w => c * f(w))
  {
    RealScale(s, c, f, w => c * f(w));
  }

  lemma WeightStep(r: set<Node>, sigma: Node -> real, onward: (Node, Node) -> real, children: Node -> set<Node>,
                   v: Node, t: Node)
    requires Counted(r, sigma, onward, children) && v in r && t in r && t != v
    ensures Weight(sigma, onward, v, t) == RealSum(children(v), w => Weight(sigma, onward, w, t))
  {
    assert Splits(onward, children, v, t);
    var f := w => onward(w, t);
    ScaledStep(Inverse(sigma, t), children(v), onward(v, t), f);
    RealSame(children(v), w => Inverse(sigma, t) * f(w), w => Weight(sigma, onward, w, t));
  }

  /** The weights of a child, itself included and its parent excluded. */
  lemma WeightsOfChild(r: set<Node>, sigma: Node -> real, onward: (Node, Node) -> real, children: Node -> set<Node>,
                       v: Node, w: Node)
    requires Counted(r, sigma, onward, children) && v in r && w in children(v)
    ensures RealSum(r - {v}, t => Weight(sigma, onward, w, t)) == Inverse(sigma, w) + Gain(r, sigma, onward, w)
  {
    RealTake(r - {v}, t => Weight(sigma, onward, w, t), w);
    RealTake(r - {w}, t => Weight(sigma, onward, w, t), v);
    assert Weight(sigma, onward, w, v) == 0.0;
    assert r - {v} - {w} == r - {w} - {v};
  }

  lemma GainStep(r: set<Node>, sigma: Node -> real, onward: (Node, Node) -> real, children: Node -> set<Node>, v: Node)
    requires Counted(r, sigma, onward, children) && v in r
    ensures Gain(r, sigma, onward, v) == RealSum(children(v), w => Gains(r, sigma, onward, w))
  {
    var others := r - {v};
    var h := (t, w) => Weight(sigma, onward, w, t);
    forall t | t in others ensures Weight(sigma, onward, v, t) == RealSum(children(v), w => h(t, w)) {
      WeightStep(r, sigma, onward, children, v, t);
      RealSame(children(v), w => h(t, w), w => Weight(sigma, onward, w, t));
    }
    RealSame(others, t => Weight(sigma, onward, v, t), t => RealSum(children(v), w => h(t, w)));
    RealSwap(others, children(v), h);
    forall w | w in children(v) ensures RealSum(others, t => h(t, w)) == Gains(r, sigma, onward, w) {
      WeightsOfChild(r, sigma, onward, children, v, w);
      RealSame(others, t => h(t, w), t => Weight(sigma, onward, w, t));
    }
    RealSame(children(v), w => RealSum(others, t => h(t, w)), w => Gains(r, sigma, onward, w));
  }

  lemma PassOn(a: real, b: real, gain: real, inverse: real)
    requires b > 0.0 && inverse == 1.0 / b
    ensures a / b * (1.0 + b * gain) == a * (inverse + gain)
  {
    assert a / b == a * inverse;
    assert inverse * b == 1.0;
    assert a * inverse * (1.0 + b * gain) == a * (inverse * 1.0 + inverse * (b * gain));
    assert inverse * (b * gain) == inverse * b * gain;
  }

  ghost predicate PassesGains(r: set<Node>, sigma: Node -> real, onward: (Node, Node) -> real, v: Node, w: Node) {
    Passed(r, sigma, onward, v, w) == sigma(v) * Gains(r, sigma, onward, w)
  }

  lemma PassedIs(r: set<Node>, sigma: Node -> real, onward: (Node, Node) -> real, v: Node, w: Node)
    requires sigma(w) > 0.0
    ensures PassesGains(r, sigma, onward, v, w)
  {
    DependencyIsGain(r, sigma, onward, w);
    PassOn(sigma(v), sigma(w), Gain(r, sigma, onward, w), Inverse(sigma, w));
  }

  lemma PassedAll(r: set<Node>, sigma: Node -> real, onward: (Node, Node) -> real, children: set<Node>, v: Node)
    requires forall w :: w in children ==> PassesGains(r, sigma, onward, v, w)
    ensures RealSum(children, w => Passed(r, sigma, onward, v, w))
         == sigma(v) * RealSum(children, w => Gains(r, sigma, onward, w))
  {
    RealScale(children, sigma(v), w => Gains(r, sigma, onward, w), w => Passed(r, sigma, onward, v, w));
  }

  lemma AllPassGains(r: set<Node>, sigma: Node -> real, onward: (Node, Node) -> real, children: Node -> set<Node>, v: Node)
    requires Counted(r, sigma, onward, children) && v in r
    ensures forall w :: w in children(v) ==> PassesGains(r, sigma, onward, v, w)
  {
    forall w | w in children(v) ensures PassesGains(r, sigma, onward, v, w) {
      PassedIs(r, sigma, onward, v, w);
    }
  }

  /** Brandes' recursion: the dependency on v is what its children pass on to it. */
  lemma Recursion(r: set<Node>, sigma: Node -> real, onward: (Node, Node) -> real, children: Node -> set<Node>, v: Node)
    requires Counted(r, sigma, onward, children) && v in r
    ensures Dependency(r, sigma, onward, v) == RealSum(children(v), w => Passed(r, sigma, onward, v, w))
  {
    hide *;
    DependencyIsGain(r, sigma, onward, v);
    GainStep(r, sigma, onward, children, v);
    AllPassGains(r, sigma, onward, children, v);
    PassedAll(r, sigma, onward, children(v), v);
  }
}
