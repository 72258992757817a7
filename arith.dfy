/**
 * The few facts about multiplication and division that the solver needs to
 * be handed explicitly, shared by the other modules.
 */
module Arith {
  /** Multiplying by a natural number keeps the order. */
  lemma MulMono(a: nat, p: int, q: int)
    requires p <= q
    ensures a * p <= a * q && p * a <= q * a
  {}

  /** Dividing out a positive factor keeps the order. */
  lemma MulCancel(a: nat, q: int, k: int)
    requires a >= 1 && a * q <= a * k
    ensures q <= k
  {
    assert a * (q - k) <= 0;
  }

  lemma Distribute(p: int, q: int, m: int)
    ensures (p + q) * m == p * m + q * m
  {}

  /** The only multiple of h strictly between -h and h is 0. */
  lemma SmallMultiple(k: int, h: int, m: int)
    requires k * h == m && -h < m < h
    ensures k == 0
  {}

  /** Euclidean division is determined by quotient and remainder. */
  lemma DivUnique(n: int, d: int, q: int, r: int)
    requires d >= 1 && n == q * d + r && 0 <= r < d
    ensures n / d == q && n % d == r
  {
    var t := q - n / d;
    assert n == (n / d) * d + n % d;
    assert t * d == n % d - r;
    SmallMultiple(t, d, n % d - r);
  }
}
