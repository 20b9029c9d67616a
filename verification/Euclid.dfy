/** Division with remainder by a variable. */
module Euclid {
  lemma NoneBetween(m: nat, d: int)
    requires m > 0
    ensures !(0 < m * d < m)
  {
  }

  lemma ZeroProduct(m: nat, d: int)
    requires m > 0 && m * d == 0
    ensures d == 0
  {
  }

  /** Quotient and remainder are determined by what they add up to. */
  lemma DivModUnique(x: int, m: nat, q: int, r: int)
    requires m > 0 && 0 <= r < m && x == m * q + r
    ensures x % m == r && x / m == q
  {
    var d := x / m - q;
    assert m * d == r - x % m by {
      assert x == m * (x / m) + x % m;
    }
    NoneBetween(m, d);
    NoneBetween(m, -d);
    ZeroProduct(m, d);
  }

  /** The last binary digit splits off a modulus that is even. */
  lemma ModDouble(x: nat, p: nat)
    requires p > 0
    ensures x % (2 * p) == 2 * (x / 2 % p) + x % 2
  {
    var h := x / 2;
    var q, r := h / p, h % p;
    assert h == p * q + r;
    Double(p, q);
    DivModUnique(x, 2 * p, q, 2 * r + x % 2);
  }

  lemma Double(p: int, q: int)
    ensures 2 * p * q == 2 * (p * q)
  {
  }

  lemma AddModulus(i: nat, m: nat)
    requires m > 0
    ensures (i + m) % m == i % m
  {
    var q, r := i / m, i % m;
    assert m * (q + 1) == m * q + m;
    DivModUnique(i + m, m, q + 1, r);
  }
}
