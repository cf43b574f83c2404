/** Facts about products and quotients that proofs elsewhere name instead of rediscovering. */
module Arith {

  lemma MulLe(a: int, b: int, w: int)
    requires a <= b && w >= 0
    ensures a * w <= b * w
  {}

  lemma MulDist(a: int, b: int, w: int)
    ensures (a + b) * w == a * w + b * w
  {}

  lemma MulSwap(a: int, b: int, c: int)
    ensures a * (b * c) == (a * b) * c
    ensures a * (b * c) == (a * c) * b
  {}

  lemma MulCancel(a: int, b: int, w: int)
    requires w > 0 && a * w == b * w
    ensures a == b
  {
    if a < b { MulLe(a + 1, b, w); MulDist(a, 1, w); }
    else if b < a { MulLe(b + 1, a, w); MulDist(b, 1, w); }
  }

  /** Quotient and remainder are determined by the division equation. */
  lemma DivideUnique(x: int, m: int, q: int, r: int)
    requires m > 0 && x == q * m + r && 0 <= r < m
    ensures x / m == q && x % m == r
  {
    var p := x / m;
    assert x == m * p + x % m;
    assert m * p == p * m;
    if p < q {
      MulLe(p + 1, q, m);
      MulDist(p, 1, m);
    } else if q < p {
      MulLe(q + 1, p, m);
      MulDist(q, 1, m);
    }
  }
}
