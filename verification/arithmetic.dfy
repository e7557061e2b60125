/** Powers of two and quotients. */
module Arithmetic {
  const TWO32 := 0x1_0000_0000
  const TWO64 := 0x1_0000_0000_0000_0000

  function Pow2(i: nat): (p: nat)
    ensures p > 0
  {
    if i == 0 then 1 else 2 * Pow2(i - 1)
  }

  lemma {:induction false} MulGap(d: int, a: int, b: int)
    requires d > 0 && a < b
    ensures d * a + d <= d * b
    decreases b - a
  {
    if a + 1 < b {
      MulGap(d, a, b - 1);
    }
    assert d * b == d * (b - 1) + d;
  }

  lemma DivUnique(p: int, d: int, q: int, r: int)
    requires d > 0 && 0 <= r < d && p == d * q + r
    ensures p / d == q && p % d == r
  {
    var q', r' := p / d, p % d;
    assert p == d * q' + r';
    if q' > q {
      MulGap(d, q, q');
    } else if q' < q {
      MulGap(d, q', q);
    }
  }
}
