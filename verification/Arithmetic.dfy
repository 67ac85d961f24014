/** Facts about products and quotients that the solver does not find on its own. */
module Arithmetic {
  lemma OneMore(n: int, factor: int)
    ensures (n + 1) * factor == n * factor + factor
  {
  }

  lemma Monotone(a: int, b: int, factor: nat)
    requires a <= b
    ensures a * factor <= b * factor
  {
  }

  /** Quotient and remainder are unique. */
  lemma DivisionUnique(n: nat, q: nat, r: nat, d: nat)
    requires d > 0 && n == q * d + r && r < d
    ensures n % d == r && n / d == q
  {
    var p := n / d;
    assert n == p * d + n % d;
    if q < p {
      Monotone(q + 1, p, d);
    } else if p < q {
      Monotone(p + 1, q, d);
    }
  }
}
