/** Division with a known quotient and remainder. */
module Arithmetic {
  lemma DivModIs(x: int, d: nat, q: int, r: nat)
    requires r < d && x == d * q + r
    ensures x / d == q && x % d == r
  {
    var q', r' := x / d, x % d;
    assert d * (q - q') == r' - r;
    FarMultiple(d, q - q');
  }

  lemma FarMultiple(d: nat, k: int)
    ensures (k >= 1 ==> d * k >= d) && (k <= -1 ==> d * k + d <= 0)
  {
  }

  lemma ModStep(y: int, k: int, d: nat)
    requires d > 0
    ensures (y % d + k) % d == (y + k) % d
  {
    var q, r := y / d, y % d;
    var q', r' := (r + k) / d, (r + k) % d;
    assert y == d * q + r && r + k == d * q' + r';
    assert d * q + d * q' == d * (q + q');
    DivModIs(y + k, d, q + q', r');
  }
}
