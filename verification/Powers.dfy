/** Powers of two, over the naturals and over the reals. */
module Powers {
  /** `x` shifted left by `n` bits. */
  function Shl(x: int, n: nat): (r: int)
    ensures x >= 0 ==> r >= x
  {
    if n == 0 then x else 2 * Shl(x, n - 1)
  }

  /** `x` shifted right by `n` bits. */
  function Shr(x: nat, n: nat): nat {
    if n == 0 then x else Shr(x, n - 1) / 2
  }

  function Pow2(n: nat): (r: nat)
    ensures r >= 1
  {
    Shl(1, n)
  }

  lemma {:induction false} ShlSum(x: int, y: int, n: nat)
    ensures Shl(x + y, n) == Shl(x, n) + Shl(y, n)
    ensures Shl(x - y, n) == Shl(x, n) - Shl(y, n)
    decreases n
  {
    if n > 0 {
      ShlSum(x, y, n - 1);
    }
  }

  lemma {:induction false} ShlMono(x: int, y: int, n: nat)
    ensures x < y <==> Shl(x, n) < Shl(y, n)
    ensures x == y <==> Shl(x, n) == Shl(y, n)
    decreases n
  {
    if n > 0 {
      ShlMono(x, y, n - 1);
    }
  }

  lemma {:induction false} ShlCompose(x: int, m: nat, n: nat)
    ensures Shl(Shl(x, m), n) == Shl(x, m + n)
    decreases n
  {
    if n > 0 {
      ShlCompose(x, m, n - 1);
    }
  }

  lemma {:induction false} ShlEven(x: int, n: nat)
    requires n > 0
    ensures Shl(x, n) % 2 == 0
  {
  }

  lemma {:induction false} ShlZero(n: nat)
    ensures Shl(0, n) == 0
    decreases n
  {
    if n > 0 {
      ShlZero(n - 1);
    }
  }

  lemma {:induction false} Pow2Mono(a: nat, b: nat)
    requires a <= b
    ensures Pow2(a) <= Pow2(b)
    ensures a < b ==> 2 * Pow2(a) <= Pow2(b)
    decreases b
  {
    if a < b {
      Pow2Mono(a, b - 1);
    }
  }

  lemma DoublePow2(n: nat)
    ensures Pow2(n + 1) == 2 * Pow2(n)
  {
  }

  lemma {:induction false} ShlDouble(x: int, n: nat)
    ensures Shl(2 * x, n) == Shl(x, n + 1)
    decreases n
  {
    if n > 0 {
      ShlDouble(x, n - 1);
    }
  }

  /** A right shift is the quotient: the shifted-back value and the next one bracket the original. */
  lemma {:induction false} ShrRange(x: nat, n: nat)
    ensures Shl(Shr(x, n), n) <= x < Shl(Shr(x, n) + 1, n)
    decreases n
  {
    if n > 0 {
      var y := Shr(x, n - 1);
      ShrRange(x, n - 1);
      ShlDouble(y / 2, n - 1);
      ShlDouble(y / 2 + 1, n - 1);
      ShlMono(y, 2 * (y / 2), n - 1);
      ShlMono(y + 1, 2 * (y / 2) + 2, n - 1);
      hide Shl;
    }
  }

  lemma ShrUnique(x: nat, n: nat, d: nat)
    requires Shl(d, n) <= x < Shl(d + 1, n)
    ensures Shr(x, n) == d
  {
    ShrRange(x, n);
    ShlMono(d, Shr(x, n) + 1, n);
    ShlMono(Shr(x, n), d + 1, n);
  }

  /** The lowest `n` bits of `x`. */
  function Low(x: nat, n: nat): (r: nat)
    ensures r < Pow2(n)
  {
    ShrRange(x, n);
    ShlSum(Shr(x, n), 1, n);
    x - Shl(Shr(x, n), n)
  }

  lemma LowShr(x: nat, n: nat)
    ensures x == Shl(Shr(x, n), n) + Low(x, n)
  {
  }

  /** Taking apart a number put together from a high part and `n` low bits. */
  lemma Join(x: nat, hi: nat, lo: nat, n: nat)
    requires lo < Pow2(n) && x == Shl(hi, n) + lo
    ensures Shr(x, n) == hi && Low(x, n) == lo
  {
    ShlSum(hi, 1, n);
    ShrUnique(x, n, hi);
  }

  lemma LowSmall(x: nat, n: nat)
    requires x < Pow2(n)
    ensures Low(x, n) == x && Shr(x, n) == 0
  {
    ShlZero(n);
    Join(x, 0, x, n);
  }

  /** `x` times two to the power `n`, for a possibly negative `n`. */
  function Scale(x: real, n: int): (r: real)
    decreases if n >= 0 then n else -n
  {
    if n == 0 then x else if n > 0 then Scale(2.0 * x, n - 1) else Scale(x / 2.0, n + 1)
  }

  lemma {:induction false} ScaleStep(x: real, n: int)
    ensures Scale(x, n + 1) == 2.0 * Scale(x, n) == Scale(2.0 * x, n)
    decreases if n >= 0 then n else -n
  {
    if n > 0 {
      ScaleStep(2.0 * x, n - 1);
    } else if n < -1 {
      ScaleStep(x / 2.0, n + 1);
      assert 2.0 * x / 2.0 == x == 2.0 * (x / 2.0);
    } else if n == -1 {
      assert 2.0 * x / 2.0 == x == 2.0 * (x / 2.0);
      assert Scale(x, -1) == x / 2.0;
      assert Scale(2.0 * x, -1) == x;
    } else {
      assert Scale(x, 1) == 2.0 * x;
    }
  }

  lemma {:induction false} ScaleCompose(x: real, a: int, b: int)
    ensures Scale(Scale(x, a), b) == Scale(x, a + b)
    decreases if b >= 0 then b else -b
  {
    if b > 0 {
      ScaleCompose(x, a, b - 1);
      ScaleStep(Scale(x, a), b - 1);
      ScaleStep(x, a + b - 1);
    } else if b < 0 {
      ScaleCompose(x, a, b + 1);
      ScaleStep(Scale(x, a), b);
      ScaleStep(x, a + b);
    }
  }

  lemma {:induction false} ScaleSum(x: real, y: real, n: int)
    ensures Scale(x + y, n) == Scale(x, n) + Scale(y, n)
    ensures Scale(x - y, n) == Scale(x, n) - Scale(y, n)
    decreases if n >= 0 then n else -n
  {
    if n > 0 {
      ScaleSum(2.0 * x, 2.0 * y, n - 1);
      assert 2.0 * (x + y) == 2.0 * x + 2.0 * y;
      assert 2.0 * (x - y) == 2.0 * x - 2.0 * y;
    } else if n < 0 {
      ScaleSum(x / 2.0, y / 2.0, n + 1);
      assert (x + y) / 2.0 == x / 2.0 + y / 2.0;
      assert (x - y) / 2.0 == x / 2.0 - y / 2.0;
    }
  }

  lemma {:induction false} ScaleSign(x: real, n: int)
    ensures x > 0.0 <==> Scale(x, n) > 0.0
    ensures x == 0.0 <==> Scale(x, n) == 0.0
    decreases if n >= 0 then n else -n
  {
    if n > 0 {
      ScaleSign(2.0 * x, n - 1);
    } else if n < 0 {
      ScaleSign(x / 2.0, n + 1);
    }
  }

  /** Scaling preserves order, so it also preserves equality. */
  lemma ScaleMono(x: real, y: real, n: int)
    ensures x < y <==> Scale(x, n) < Scale(y, n)
    ensures x == y <==> Scale(x, n) == Scale(y, n)
  {
    ScaleSum(y, x, n);
    ScaleSign(y - x, n);
  }

  lemma {:induction false} ScaleShl(x: int, n: nat)
    ensures Scale(x as real, n) == Shl(x, n) as real
    decreases n
  {
    if n > 0 {
      ScaleShl(x, n - 1);
      ScaleStep(x as real, n - 1);
    }
  }

  lemma DoubleProduct(u: real, y: real, u': real, p: real, p': real)
    requires u' == 2.0 * u && p' == 2.0 * p
    ensures p == u * y <==> p' == u' * y
  {
    assert (2.0 * u) * y == 2.0 * (u * y);
  }

  lemma {:induction false} ScaleProductLeft(x: real, y: real, p: real, n: int)
    requires p == x * y
    ensures Scale(p, n) == Scale(x, n) * y
    decreases if n >= 0 then n else -n
  {
    var m := if n > 0 then n - 1 else n;
    ScaleStep(x, m);
    ScaleStep(p, m);
    DoubleProduct(Scale(x, m), y, Scale(x, m + 1), Scale(p, m), Scale(p, m + 1));
    if n > 0 {
      ScaleProductLeft(x, y, p, n - 1);
    } else if n < 0 {
      ScaleProductLeft(x, y, p, n + 1);
    }
  }

  lemma ScaleProduct(x: real, y: real, p: real, a: int, b: int)
    requires p == x * y
    ensures Scale(p, a + b) == Scale(x, a) * Scale(y, b)
  {
    ScaleCompose(p, a, b);
    ScaleProductLeft(x, y, p, a);
    var u := Scale(x, a);
    ScaleProductLeft(y, u, Scale(p, a), b);
  }

  /** Two to the power `e`. */
  function R2(e: int): real {
    Scale(1.0, e)
  }

  lemma {:induction false} R2Mono(a: int, b: int)
    requires a <= b
    ensures 0.0 < R2(a) <= R2(b)
    ensures a < b ==> 2.0 * R2(a) <= R2(b)
    decreases b - a
  {
    ScaleSign(1.0, a);
    if a < b {
      R2Mono(a, b - 1);
      ScaleStep(1.0, b - 1);
    }
  }

  /** Position of the leading one bit: the integer part of the base-two logarithm. */
  function Log2Floor(n: nat): (k: nat)
    requires n > 0
    ensures Pow2(k) <= n < Pow2(k + 1)
  {
    if n == 1 then 0 else Log2Floor(n / 2) + 1
  }
}
