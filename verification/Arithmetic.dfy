/** Saturating sums, powers, remainders and products. */
module Arithmetic {
  function SaturatingAdd(a: nat, b: nat, max: nat): nat {
    if a + b > max then max else a + b
  }

  function Power(base: nat, k: nat): nat {
    if k == 0 then 1 else base * Power(base, k - 1)
  }

  lemma RemainderIs(n: int, q: int, m: nat, r: nat)
    requires n == r + q * m && r < m
    ensures n % m == r
  {
    assert n == (n / m) * m + n % m;
    var d := n / m - q;
    assert d * m == r - n % m;
    MultipleIsFar(d, m);
  }

  lemma MultipleIsFar(d: int, m: nat)
    ensures d >= 1 ==> d * m >= m
    ensures d <= -1 ==> d * m + m <= 0
  {
  }

  lemma MultipleDivides(p: nat, q: nat)
    requires p > 0
    ensures (p * q) % p == 0
  {
    RemainderIs(p * q, q, p, 0);
  }

  lemma ProductGrows(a: nat, b: nat, low: nat)
    ensures a >= low && b >= low ==> a * b >= low * low
  {
    if a >= low && b >= low {
      assert a * b >= low * b && low * b >= low * low;
    }
  }
}
