/**
 The rounding the standard asks for (sections 4.3 and 7.4 to 7.6 of IEEE 754-2008),
 stated on exact real numbers and independent of how results are computed.
 */
module FloatRounding {
  import opened Powers
  import opened FloatFormat

  datatype RoundingMode = TiesToEven | TowardZero | TowardNegative | TowardPositive | TiesToAway

  datatype Flags = Flags(inexact: bool, underflow: bool, overflow: bool, divideByZero: bool, invalid: bool) {
    function Or(that: Flags): Flags {
      Flags(inexact || that.inexact, underflow || that.underflow, overflow || that.overflow,
            divideByZero || that.divideByZero, invalid || that.invalid)
    }
  }

  const NoFlags := Flags(false, false, false, false, false)

  /** A result together with the exception flags its computation raises. */
  datatype Outcome = Outcome(bits: nat, flags: Flags)

  /** Rounds the magnitude `y` of a number of the given sign to an integer. */
  function RoundInt(mode: RoundingMode, sign: bool, y: real): int {
    var d := y.Floor;
    var frac := y - d as real;
    if frac == 0.0 then d else
    match mode
    case TiesToEven => if frac < 0.5 || (frac == 0.5 && d % 2 == 0) then d else d + 1
    case TowardZero => d
    case TowardNegative => if sign then d + 1 else d
    case TowardPositive => if sign then d else d + 1
    case TiesToAway => if frac < 0.5 then d else d + 1
  }

  /** The result of an overflow: infinity, or the largest finite number when rounding away from infinity. */
  function OverflowBits(f: Format, mode: RoundingMode, sign: bool): nat
    requires f.Valid()
  {
    if mode == TowardZero || (mode == TowardPositive && sign) || (mode == TowardNegative && !sign)
    then Pack(f, sign, Pow2(f.ew) - 2, Pow2(f.sw) - 1)
    else Infinity(f, sign)
  }

  ghost predicate Binade(x: real, e: int) {
    R2(e) <= x < R2(e + 1)
  }

  function Max(a: int, b: int): int {
    if a < b then b else a
  }

  /** `o` is the correctly rounded result for the magnitude `x`, which lies in the binade of `e`. */
  ghost predicate RoundedIn(f: Format, mode: RoundingMode, sign: bool, x: real, e: int, o: Outcome)
    requires f.Valid()
  {
    // The exponent of the last place of the result, with and without a lower bound on exponents.
    var q, q' := Max(e, f.MinimumExponent()) - f.sw, e - f.sw;
    var rounded := Scale(RoundInt(mode, sign, Scale(x, -q)) as real, q);
    var unbounded := Scale(RoundInt(mode, sign, Scale(x, -q')) as real, q');
    if rounded >= R2(f.MaximumExponent() + 1) then
      o == Outcome(OverflowBits(f, mode, sign), Flags(true, false, true, false, false))
    else
      && IsBits(f, o.bits) && IsFinite(f, o.bits)
      && Sign(f, o.bits) == sign
      && Magnitude(f, o.bits) == rounded
      && o.flags == Flags(rounded != x, rounded != x && unbounded < R2(f.MinimumExponent()), false, false, false)
  }

  /** `o` is the correctly rounded result, with the required flags, for the magnitude `x`. */
  ghost predicate RoundsTo(f: Format, mode: RoundingMode, sign: bool, x: real, o: Outcome)
    requires f.Valid()
  {
    exists e: int :: Binade(x, e) && RoundedIn(f, mode, sign, x, e, o)
  }

  /**
   `o` is the correctly rounded result for the exact value `x`; `zeroSign` is the sign
   that an exact zero must have.
   */
  ghost predicate Delivers(f: Format, mode: RoundingMode, x: real, zeroSign: bool, o: Outcome)
    requires f.Valid()
  {
    if x == 0.0 then o == Outcome(Zero(f, zeroSign), NoFlags)
    else RoundsTo(f, mode, x < 0.0, if x < 0.0 then -x else x, o)
  }

  lemma BinadeUnique(x: real, e: int, e': int)
    requires Binade(x, e) && Binade(x, e')
    ensures e == e'
  {
    if e < e' {
      R2Mono(e + 1, e');
    } else if e' < e {
      R2Mono(e' + 1, e);
    }
  }

  lemma RoundIntBounds(mode: RoundingMode, sign: bool, y: real, lo: int, hi: int)
    requires lo as real <= y <= hi as real
    ensures lo <= RoundInt(mode, sign, y) <= hi
    ensures y == y.Floor as real ==> RoundInt(mode, sign, y) == y.Floor
  {
  }
}

/**
 Round-to-odd: an integer that stands for a real number as far as every
 comparison with an even integer can tell.
 */
module Sticky {
  import opened Powers
  import opened FloatFormat
  import opened FloatRounding

  ghost predicate IsSticky(s: int, x: real) {
    x == s as real || (s % 2 == 1 && (s - 1) as real < x < (s + 1) as real)
  }

  /** What round-to-odd is for: a sticky integer compares with every even integer as the real number does. */
  lemma ComparesLike(s: int, x: real)
    ensures IsSticky(s, x) <==>
            forall k: int :: k % 2 == 0 ==> (s < k <==> x < k as real) && (s == k <==> x == k as real)
  {
    if forall k: int :: k % 2 == 0 ==> (s < k <==> x < k as real) && (s == k <==> x == k as real) {
      var k := if s % 2 == 0 then s else s - 1;
      assert k % 2 == 0 && (k + 2) % 2 == 0;
      assert s < k + 2;
    }
  }

  /** Adding or subtracting an even integer keeps stickiness. */
  lemma EvenShift(s: int, x: real, m: int)
    requires IsSticky(s, x) && m % 2 == 0
    ensures IsSticky(m + s, m as real + x)
    ensures IsSticky(m - s, m as real - x)
    ensures IsSticky(s - m, x - m as real)
  {
  }

  /** The kernel's right shift: the last bit becomes the OR of the bits shifted away. */
  function RightShift(width: nat, s: nat, n: nat): nat
    requires s < Pow2(width)
  {
    var (value, residue) := if n >= width then (0, s) else (Shr(s, n), Low(s, n));
    if residue != 0 && value % 2 == 0 then value + 1 else value
  }

  /** The shift distance test of the source is only there because its shift operator is partial. */
  lemma RightShiftDigits(width: nat, s: nat, n: nat)
    requires s < Pow2(width)
    ensures var r := RightShift(width, s, n);
            if Low(s, n) == 0 then r == Shr(s, n) else r % 2 == 1 && Shr(s, n) <= r <= Shr(s, n) + 1
  {
    if n >= width {
      Pow2Mono(width, n);
      LowSmall(s, n);
    }
  }

  /** Dividing by a power of two carries the comparison with a multiple of it down to the quotient. */
  lemma ScaleDown(x: real, n: nat, k: int)
    ensures k as real < Scale(x, 0 - n) <==> Shl(k, n) as real < x
    ensures k as real == Scale(x, 0 - n) <==> Shl(k, n) as real == x
    ensures k as real > Scale(x, 0 - n) <==> Shl(k, n) as real > x
  {
    var y := Scale(x, 0 - n);
    ScaleCompose(x, 0 - n, n);
    ScaleShl(k, n);
    ScaleMono(k as real, y, n);
    ScaleMono(y, k as real, n);
  }

  /** Shifting is round-to-odd at the coarser scale, so shifts compose without rounding twice. */
  lemma RightShiftSticky(width: nat, s: nat, n: nat, x: real)
    requires s < Pow2(width) && IsSticky(s, x)
    ensures IsSticky(RightShift(width, s, n), Scale(x, 0 - n))
  {
    var d := Shr(s, n);
    RightShiftDigits(width, s, n);
    ShrRange(s, n);
    ScaleDown(x, n, d);
    ScaleDown(x, n, d + 1);
    if n > 0 {
      ShlEven(d, n);
      ShlEven(d + 1, n);
    }
  }
}
