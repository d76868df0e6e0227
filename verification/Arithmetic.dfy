/** Division and powers, as far as the linear reasoning of the other modules does not reach. */
module Arithmetic {

  function Pow2(k: nat): (r: nat)
    ensures r >= 1
  {
    if k == 0 then 1 else 2 * Pow2(k - 1)
  }

  lemma {:induction false} MulAtLeast(d: nat, a: nat)
    requires a >= 1
    ensures d * a >= d
  {
    if a > 1 {
      MulAtLeast(d, a - 1);
      assert d * a == d * (a - 1) + d;
    }
  }

  lemma SmallMultiple(d: nat, a: int)
    requires 0 - d < d * a < d
    ensures a == 0
  {
    var b := if a < 0 then -a else a;
    assert d * b == d * a || d * b == -(d * a);
    if b > 0 { MulAtLeast(d, b); }
  }

  lemma DivUnique(x: nat, d: nat, q: nat, r: nat)
    requires d > 0 && x == d * q + r && r < d
    ensures x / d == q
  {
    var q' := x / d;
    var r' := x % d;
    assert x == d * q' + r';
    assert d * (q - q') == d * q - d * q';
    SmallMultiple(d, q - q');
  }
}
