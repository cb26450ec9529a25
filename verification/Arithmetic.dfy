/** Facts about products, quotients and remainders of natural numbers. */
module Arithmetic {

  lemma ProductAtLeast(x: nat, c: nat)
    requires x >= 1
    ensures x * c >= c
  {
    assert x * c == (x - 1) * c + c;
    ProductNonNegative(x - 1, c);
  }

  lemma ProductNonNegative(x: nat, c: nat)
    ensures x * c >= 0
  {
  }

  lemma DifferenceTimes(a: int, b: int, c: int)
    ensures (a - b) * c == a * c - b * c
    ensures (a + b) * c == a * c + b * c
  {
  }

  lemma ProductOrder(a: nat, b: nat, c: nat)
    requires a < b
    ensures a * c + c <= b * c
  {
    DifferenceTimes(b, a, c);
    ProductAtLeast(b - a, c);
  }

  /** Quotient and remainder are unique. */
  lemma DivModUnique(q1: nat, r1: nat, q2: nat, r2: nat, d: nat)
    requires r1 < d && r2 < d && q1 * d + r1 == q2 * d + r2
    ensures q1 == q2 && r1 == r2
  {
    if q1 < q2 {
      ProductOrder(q1, q2, d);
    } else if q2 < q1 {
      ProductOrder(q2, q1, d);
    }
  }

  lemma DivModOf(a: nat, d: nat)
    requires d > 0
    ensures a == (a / d) * d + a % d && a % d < d && a / d >= 0
  {
  }

  lemma DivModIs(a: nat, q: nat, r: nat, d: nat)
    requires r < d && a == q * d + r
    ensures a / d == q && a % d == r
  {
    DivModOf(a, d);
    DivModUnique(a / d, a % d, q, r, d);
  }

  /** Adding a multiple of the divisor. */
  lemma ModOfShift(a: nat, k: nat, d: nat)
    requires d > 0
    ensures (a + k * d) % d == a % d && (a + k * d) / d == a / d + k
  {
    DivModOf(a, d);
    ProductNonNegative(k, d);
    DifferenceTimes(a / d, k, d);
    DivModIs(a + k * d, a / d + k, a % d, d);
  }

  function Pow2(n: nat): (p: nat)
    ensures p >= 1
  {
    if n == 0 then 1 else 2 * Pow2(n - 1)
  }
}
