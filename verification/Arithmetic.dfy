/** Division with variable divisors, which the solver does not do by itself. */
module Arithmetic {
  lemma SmallMultiple(k: int, w: int)
    requires -w < k * w < w
    ensures k == 0
  {
    assert k >= 1 ==> k * w >= w;
    assert k <= -1 ==> k * w <= -w;
  }

  lemma DivMod(q: nat, w: nat, r: nat)
    requires r < w
    ensures (q * w + r) / w == q && (q * w + r) % w == r
  {
    var n := q * w + r;
    assert n == (n / w) * w + n % w;
    assert (n / w - q) * w == r - n % w;
    SmallMultiple(n / w - q, w);
  }
}
