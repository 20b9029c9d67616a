/**
 * Machine words as integers in range, with the wrap-around, sign extension, shifts, bitwise
 * operations, high multiplication and truncating division that both the RISC-V interpreter
 * and the x86 code it is translated to are defined by.
 */
module Words {
  import opened Powers

  const W: int := 0x1_0000_0000_0000_0000
  const H: int := 0x1_0000_0000

  type u64 = x: int | 0 <= x < 0x1_0000_0000_0000_0000

  /** `x as u64` of any integer: the representative modulo 2^64. */
  function Wrap(x: int): (r: u64) { x % W }

  /** `x as u32` of any integer. */
  function Wrap32(x: int): (r: u64)
    ensures r < H
  {
    x % H
  }

  /** `x as i64`. */
  function Signed(x: u64): (r: int)
    ensures Wrap(r) == x
    ensures -0x8000_0000_0000_0000 <= r < 0x8000_0000_0000_0000
  {
    if x < 0x8000_0000_0000_0000 then x else x - W
  }

  /** `x as i32`. */
  function Signed32(x: u64): (r: int)
    ensures Wrap32(r) == Wrap32(x)
    ensures -0x8000_0000 <= r < 0x8000_0000
  {
    var v := Wrap32(x);
    if v < 0x8000_0000 then v else v - H
  }

  /** `x as i32 as u64`: the low half, sign-extended. */
  function Sext32(x: u64): (r: u64) { Wrap(Signed32(x)) }

  function Bool(b: bool): (r: u64) { if b then 1 else 0 }

  // ----- shifts -----

  /** A right shift: repeated halving, rounding down. */
  function FloorShift(x: int, n: nat): (r: int)
    ensures x >= 0 ==> 0 <= r <= x
    ensures x < 0 ==> x <= r < 0
    decreases n
  {
    if n == 0 then x else FloorShift(x / 2, n - 1)
  }

  function ShiftLeft(x: u64, n: nat): (r: u64) { Wrap(Shl(x, n)) }

  function ShiftLeft32(x: u64, n: nat): (r: u64)
    ensures r < H
  {
    Wrap32(Shl(Wrap32(x), n))
  }

  function ShiftRight(x: u64, n: nat): (r: u64) { FloorShift(x, n) }

  function ShiftRight32(x: u64, n: nat): (r: u64)
    ensures r < H
  {
    FloorShift(Wrap32(x), n)
  }

  function ShiftArith(x: u64, n: nat): (r: u64) { Wrap(FloorShift(Signed(x), n)) }

  function ShiftArith32(x: u64, n: nat): (r: u64)
    ensures r < H
  {
    Wrap32(FloorShift(Signed32(x), n))
  }

  // ----- bitwise operations -----

  datatype BitOp = BitAnd | BitOr | BitXor

  function Bit(op: BitOp, p: bool, q: bool): (r: int)
    ensures 0 <= r <= 1
  {
    if (match op case BitAnd => p && q case BitOr => p || q case BitXor => p != q) then 1 else 0
  }

  /** The bitwise operation on the digits of `x` and `y` below the power of two `m`. */
  function Bitwise(op: BitOp, x: nat, y: nat, m: nat): (r: nat)
    requires m >= 1
    ensures r < m
    decreases m
  {
    if m == 1 then 0
    else 2 * Bitwise(op, x / 2, y / 2, m / 2) + Bit(op, x % 2 == 1, y % 2 == 1)
  }

  function And(x: u64, y: u64): (r: u64) { Bitwise(BitAnd, x, y, W) }
  function Or(x: u64, y: u64): (r: u64) { Bitwise(BitOr, x, y, W) }
  function Xor(x: u64, y: u64): (r: u64) { Bitwise(BitXor, x, y, W) }
  function Not(x: u64): (r: u64) { W - 1 - x }

  predicate IsPow2(m: nat) {
    m == 1 || (m > 1 && m % 2 == 0 && IsPow2(m / 2))
  }

  lemma Doubled(m: nat)
    requires IsPow2(m)
    ensures IsPow2(2 * m)
  {
    assert 2 * m / 2 == m;
  }

  lemma Pow2Times16(m: nat)
    requires IsPow2(m)
    ensures IsPow2(16 * m)
  {
    hide IsPow2;
    Doubled(m);
    Doubled(2 * m);
    Doubled(4 * m);
    Doubled(8 * m);
  }

  lemma WIsPow2()
    ensures IsPow2(W)
  {
    assert IsPow2(1);
    Pow2Times16(1); Pow2Times16(0x10); Pow2Times16(0x100); Pow2Times16(0x1000);
    Pow2Times16(0x1_0000); Pow2Times16(0x10_0000); Pow2Times16(0x100_0000); Pow2Times16(0x1000_0000);
    Pow2Times16(0x1_0000_0000); Pow2Times16(0x10_0000_0000); Pow2Times16(0x100_0000_0000); Pow2Times16(0x1000_0000_0000);
    Pow2Times16(0x1_0000_0000_0000); Pow2Times16(0x10_0000_0000_0000); Pow2Times16(0x100_0000_0000_0000); Pow2Times16(0x1000_0000_0000_0000);
  }

  /** What happens to a word combined with itself, with zero or with all ones. */
  lemma {:induction false} BitwiseUnit(x: nat, m: nat)
    requires IsPow2(m) && x < m
    ensures Bitwise(BitAnd, x, 0, m) == 0 && Bitwise(BitOr, x, 0, m) == x && Bitwise(BitXor, x, 0, m) == x
    ensures Bitwise(BitAnd, x, m - 1, m) == x && Bitwise(BitOr, x, m - 1, m) == m - 1
    ensures Bitwise(BitXor, x, m - 1, m) == m - 1 - x
    ensures Bitwise(BitAnd, x, x, m) == x && Bitwise(BitOr, x, x, m) == x && Bitwise(BitXor, x, x, m) == 0
  {
    if m > 1 {
      BitwiseUnit(x / 2, m / 2);
      assert (m - 1) / 2 == m / 2 - 1 && (m - 1) % 2 == 1;
    }
  }

  lemma {:induction false} BitwiseCommutes(op: BitOp, x: nat, y: nat, m: nat)
    requires m >= 1
    ensures Bitwise(op, x, y, m) == Bitwise(op, y, x, m)
    decreases m
  {
    if m > 1 {
      BitwiseCommutes(op, x / 2, y / 2, m / 2);
    }
  }

  lemma BitIdentities(x: u64)
    ensures And(x, 0) == 0 && Or(x, 0) == x && Xor(x, 0) == x
    ensures And(0, x) == 0 && Or(0, x) == x && Xor(0, x) == x
    ensures And(x, W - 1) == x && Or(x, W - 1) == W - 1 && Xor(x, W - 1) == Not(x)
    ensures And(W - 1, x) == x
    ensures And(x, x) == x && Or(x, x) == x && Xor(x, x) == 0
  {
    WIsPow2();
    BitwiseUnit(x, W);
    Commutes(x, 0);
    Commutes(x, W - 1);
  }

  /** Masking with all ones but the lowest bit clears that bit. */
  lemma AndEven(x: u64)
    ensures And(x, W - 2) == x - x % 2
  {
    hide Bitwise, IsPow2;
    WIsPow2();
    ClearLow(x, W);
  }

  lemma ClearLow(x: nat, m: nat)
    requires IsPow2(m) && m > 1 && x < m
    ensures Bitwise(BitAnd, x, m - 2, m) == x - x % 2
  {
    BitwiseUnit(x / 2, m / 2);
    assert (m - 2) / 2 == m / 2 - 1 && (m - 2) % 2 == 0;
  }

  lemma Commutes(x: u64, y: u64)
    ensures And(x, y) == And(y, x) && Or(x, y) == Or(y, x) && Xor(x, y) == Xor(y, x)
  {
    BitwiseCommutes(BitAnd, x, y, W);
    BitwiseCommutes(BitOr, x, y, W);
    BitwiseCommutes(BitXor, x, y, W);
  }

  // ----- multiplication and division -----

  /** The high word of a double-width product. */
  function High(p: int): (r: u64) { Wrap(p / W) }

  function Abs(x: int): (r: nat) { if x < 0 then -x else x }

  /** Division rounding toward zero. */
  function TruncDiv(a: int, b: int): (r: int)
    requires b != 0
  {
    var q := Abs(a) / Abs(b);
    if (a < 0) != (b < 0) then -q else q
  }

  function TruncRem(a: int, b: int): (r: int)
    requires b != 0
  {
    a - TruncDiv(a, b) * b
  }
}
