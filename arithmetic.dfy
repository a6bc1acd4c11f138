/** Facts about multiplication and division of natural numbers used by the other modules. */
module Arithmetic {

  lemma MultiplyMonotone(a: nat, b: nat, d: nat)
    requires a <= b
    ensures a * d <= b * d
  {
  }

  /** A quotient and remainder that rebuild `x` are `x / d` and `x % d`. */
  lemma DivisionIsUnique(x: nat, d: nat, q: nat, r: nat)
    requires 0 <= r < d && x == q * d + r
    ensures x % d == r
  {
    var q', r' := x / d, x % d;
    assert x == q' * d + r';
    if q' < q {
      MultiplyMonotone(q' + 1, q, d);
    } else if q < q' {
      MultiplyMonotone(q + 1, q', d);
    }
  }

  /** `w * p <= m` bounds `p` by the quotient `m / w`. */
  lemma QuotientBound(w: nat, p: nat, m: nat)
    requires w > 0 && w * p <= m
    ensures p <= m / w
  {
    var q := m / w;
    if q < p {
      MultiplyMonotone(q + 1, p, w);
    }
  }
}
