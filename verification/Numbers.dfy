/** Bytes and a little arithmetic. */
module Numbers {
  type byte = n: int | 0 <= n < 256

  lemma MultipleBelow(d: nat, a: nat, b: nat)
    requires a < b
    ensures d * a + d <= d * b
  {
    assert d * (a + 1) <= d * b;
  }

  /** Quotient and remainder are determined by what they satisfy. */
  lemma QuotientIs(n: nat, d: nat, q: nat, r: nat)
    requires d > 0 && n == d * q + r && r < d
    ensures n / d == q && n % d == r
  {
    var q2 := n / d;
    assert n == d * q2 + n % d;
    if q2 < q {
      MultipleBelow(d, q2, q);
    } else if q2 > q {
      MultipleBelow(d, q, q2);
    }
  }

  function Pow2(k: nat): (p: nat)
    ensures p > 0
  {
    if k == 0 then 1 else 2 * Pow2(k - 1)
  }
}
