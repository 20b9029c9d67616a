/** Multiplication and fused multiply-add. */
module FloatMul {
  import opened Powers
  import opened FloatFormat
  import opened FloatRounding
  import opened Sticky
  import opened FloatKernel
  import opened FloatArith
  import opened FloatAdd

  function Mul(a: nat, b: nat): nat {
    a * b
  }

  /** Exponent and double-length significand of the product of two finite non-zero numbers. */
  function Product(f: Format, a: nat, b: nat): (int, nat)
    requires f.Valid() && IsFinite(f, a) && !IsZero(f, a) && IsFinite(f, b) && !IsZero(f, b)
  {
    var (ea, sa) := GetNormalizedSignificand(f, a);
    var (eb, sb) := GetNormalizedSignificand(f, b);
    (ea + eb - f.sw, Mul(sa / 4, sb))
  }

  function Multiply(f: Format, mode: RoundingMode, x: nat, y: nat): Outcome
    requires f.Valid() && IsBits(f, x) && IsBits(f, y)
  {
    var (a, b) := if MagnitudeBits(f, x) < MagnitudeBits(f, y) then (y, x) else (x, y);
    var sign := Sign(f, a) != Sign(f, b);
    if IsNan(f, a) then PropagateNan(f, a, b)
    else if IsInfinite(f, a) then
      if IsZero(f, b) then InvalidOperation(f) else Outcome(SetSign(f, a, sign), NoFlags)
    else if IsZero(f, b) then Outcome(SetSign(f, b, sign), NoFlags)
    else
      LargerOperand(f, a, b);
      ProductRange(f, a, b);
      var (e, p) := Product(f, a, b);
      NormalizeAndRound(f, f.dw, mode, sign, e, p)
  }

  /** What the source relies on when it orders the operands by magnitude. */
  lemma LargerOperand(f: Format, a: nat, b: nat)
    requires f.Valid() && IsBits(f, a) && IsBits(f, b) && MagnitudeBits(f, b) <= MagnitudeBits(f, a)
    ensures IsNan(f, b) ==> IsNan(f, a)
    ensures IsFinite(f, a) ==> IsFinite(f, b)
    ensures IsInfinite(f, b) ==> IsInfinite(f, a) || IsNan(f, a)
    ensures IsZero(f, a) ==> IsZero(f, b)
  {
    MagnitudeOrder(f, a, b);
    FieldsPack(f, a);
    FieldsPack(f, b);
  }

  lemma MulRange(a: nat, b: nat, m: nat, n: nat)
    requires Pow2(m) <= a < Pow2(m + 1) && Pow2(n) <= b < Pow2(n + 1)
    ensures Pow2(m + n) <= a * b < Pow2(m + n + 2)
  {
    MulMono(Pow2(m), a, b);
    MulMono(Pow2(n), b, Pow2(m));
    MulMono(a, Pow2(m + 1), b);
    MulMono(b, Pow2(n + 1), Pow2(m + 1));
    Pow2Product(m, n);
    Pow2Product(m + 1, n + 1);
    MulLess(a, Pow2(m + 1), b);
  }

  lemma MulMono(a: nat, b: nat, c: nat)
    requires a <= b
    ensures a * c <= b * c && c * a <= c * b
  {
    var k: nat := b - a;
    assert (a + k) * c == a * c + k * c;
  }

  lemma MulLess(a: nat, b: nat, c: nat)
    requires a < b && c > 0
    ensures a * c < b * c
  {
    MulMono(a + 1, b, c);
    assert (a + 1) * c == a * c + c;
  }

  lemma {:induction false} ShlProduct(a: nat, b: nat, n: nat)
    ensures Shl(a * b, n) == a * Shl(b, n)
  {
    if n > 0 {
      ShlProduct(a, b, n - 1);
      Doubling(a, Shl(b, n - 1));
    }
  }

  lemma Doubling(a: nat, b: nat)
    ensures 2 * (a * b) == a * (2 * b)
  {
  }

  lemma Pow2Product(m: nat, n: nat)
    ensures Pow2(m) * Pow2(n) == Pow2(m + n)
  {
    hide Shl;
    ShlProduct(Pow2(m), 1, n);
    ShlCompose(1, m, n);
  }

  /** The double-length product is exact, even, and fits the double-length holder. */
  lemma ProductExact(f: Format, a: nat, b: nat, x: real)
    requires f.Valid() && IsFinite(f, a) && !IsZero(f, a) && IsFinite(f, b) && !IsZero(f, b)
    requires x == Magnitude(f, a) * Magnitude(f, b)
    ensures var (e, p) := Product(f, a, b);
            && Exactly(f, e, p, x)
            && Pow2(2 * f.sw + 2) <= p < Pow2(2 * f.sw + 4) && p % 4 == 0 && p < Pow2(f.dw)
  {
    hide Magnitude, GetNormalizedSignificand, Exactly, IsFinite, IsZero;
    NormalizedSignificandExact(f, a);
    NormalizedSignificandExact(f, b);
    var (ea, sa) := GetNormalizedSignificand(f, a);
    var (eb, sb) := GetNormalizedSignificand(f, b);
    ProductOfExact(f, ea, sa, eb, sb, Magnitude(f, a), Magnitude(f, b), x);
    QuarterRange(f, sa);
    MulRange(sa / 4, sb, f.sw, f.sw + 2);
    MultipleByFour(sa / 4, sb);
    Pow2Mono(2 * f.sw + 4, f.dw);
  }

  lemma QuarterRange(f: Format, s: nat)
    requires Normalized(f, s) && s % 4 == 0
    ensures Pow2(f.sw) <= s / 4 < Pow2(f.sw + 1)
  {
    DoublePow2(f.sw);
    DoublePow2(f.sw + 1);
    DoublePow2(f.sw + 2);
  }

  lemma MultipleByFour(a: nat, b: nat)
    requires b % 4 == 0
    ensures (a * b) % 4 == 0
  {
    var k := b / 4;
    assert b == 4 * k;
    assert a * (4 * k) == 4 * (a * k);
  }

  lemma ProductOfExact(f: Format, ea: int, sa: nat, eb: int, sb: nat, A: real, B: real, p: real)
    requires Exactly(f, ea, sa, A) && Exactly(f, eb, sb, B) && sa % 4 == 0 && p == A * B
    ensures Exactly(f, ea + eb - f.sw, (sa / 4) * sb, p)
  {
    var m, n := f.sw + 2 - ea, f.sw + 2 - eb;
    var q := sa / 4;
    assert sa == 4 * q;
    ScaleProduct(A, B, p, m - 2, n);
    ScaleStep(A, m - 2);
    ScaleStep(A, m - 1);
    assert Scale(A, m - 2) == q as real;
    CastProduct(q, sb);
  }

  lemma CastProduct(a: nat, b: nat)
    ensures (a * b) as real == a as real * b as real
  {
  }

  lemma SetSignFields(f: Format, x: nat, sign: bool)
    requires f.Valid() && IsBits(f, x)
    ensures var r := SetSign(f, x, sign);
            && IsBits(f, r) && Sign(f, r) == sign
            && BiasedExponent(f, r) == BiasedExponent(f, x)
            && TrailingSignificand(f, r) == TrailingSignificand(f, x)
    ensures IsZero(f, x) ==> SetSign(f, x, sign) == Zero(f, sign)
    ensures IsInfinite(f, x) ==> SetSign(f, x, sign) == Infinity(f, sign)
  {
    FieldsPack(f, x);
    PackFields(f, sign, BiasedExponent(f, x), TrailingSignificand(f, x));
  }

  lemma SignedProduct(a: real, b: real, p: real, s: bool, t: bool)
    requires a > 0.0 && b > 0.0 && p == a * b
    ensures p > 0.0
    ensures (if s then -a else a) * (if t then -b else b) == if s != t then -p else p
  {
  }

  /** The product of two non-zero operands, ordered by magnitude, rounded once. */
  lemma ProductRounds(f: Format, mode: RoundingMode, sign: bool, a: nat, b: nat, x: real)
    requires f.Valid() && IsFinite(f, a) && !IsZero(f, a) && IsFinite(f, b) && !IsZero(f, b)
    requires x == Magnitude(f, a) * Magnitude(f, b)
    ensures var (e, p) := Product(f, a, b);
            0 < p < Pow2(f.dw) && RoundsTo(f, mode, sign, x, NormalizeAndRound(f, f.dw, mode, sign, e, p))
  {
    hide Magnitude, NormalizeAndRound, RoundsTo, Exactly, Product;
    ProductExact(f, a, b, x);
    var (e, p) := Product(f, a, b);
    ExactDenotes(f, e, p, x);
    NormalizeAndRoundCorrect(f, f.dw, mode, sign, e, p, x);
  }

  lemma SignedValues(f: Format, x: nat, y: nat, p: real)
    requires f.Valid() && p == Magnitude(f, x) * Magnitude(f, y) && IsFinite(f, x) && IsFinite(f, y)
    ensures Value(f, x) * Value(f, y) == if Sign(f, x) != Sign(f, y) then -p else p
    ensures p >= 0.0 && (p == 0.0 <==> IsZero(f, x) || IsZero(f, y))
  {
    hide Magnitude, IsFinite, IsZero;
    MagnitudeSign(f, x);
    MagnitudeSign(f, y);
    var u, v := Magnitude(f, x), Magnitude(f, y);
    if u > 0.0 && v > 0.0 {
      SignedProduct(u, v, p, Sign(f, x), Sign(f, y));
    } else {
      assert u == 0.0 || v == 0.0;
    }
  }

  /** Multiplication returns the exact product rounded once, for all finite operands. */
  lemma MultiplyCorrect(f: Format, mode: RoundingMode, x: nat, y: nat)
    requires f.Valid() && IsBits(f, x) && IsBits(f, y) && IsFinite(f, x) && IsFinite(f, y)
    ensures Delivers(f, mode, Value(f, x) * Value(f, y), Sign(f, x) != Sign(f, y), Multiply(f, mode, x, y))
  {
    hide Magnitude, NormalizeAndRound, RoundsTo, Product, Value;
    var (a, b) := if MagnitudeBits(f, x) < MagnitudeBits(f, y) then (y, x) else (x, y);
    var sign := Sign(f, a) != Sign(f, b);
    LargerOperand(f, a, b);
    var P := Magnitude(f, a) * Magnitude(f, b);
    SignedValues(f, x, y, P);
    if IsZero(f, b) {
      SetSignFields(f, b, sign);
    } else {
      ProductRounds(f, mode, sign, a, b, P);
    }
  }

  // ---- fused multiply-add

  /** Brings a product and an addend to a common exponent, shifting the one with the smaller exponent. */
  function AlignProduct(f: Format, pe: int, p: nat, ce: int, c: nat): (int, nat, nat)
    requires p < Pow2(f.dw) && c < Pow2(f.dw)
  {
    if ce < pe then (pe, p, RightShift(f.dw, c, pe - ce))
    else if ce > pe then (ce, RightShift(f.dw, p, ce - pe), c)
    else (pe, p, c)
  }

  /** Adds or subtracts aligned significands and rounds; `sign` is the sign of the product. */
  function CombineProduct(f: Format, mode: RoundingMode, sign: bool, signC: bool, e: int, p: nat, c: nat): Outcome
    requires f.Valid() && 0 < p + c < Pow2(f.dw)
  {
    if signC == sign then NormalizeAndRound(f, f.dw, mode, sign, e, p + c)
    else if p == c then CancellationZero(f, mode)
    else if p < c then NormalizeAndRound(f, f.dw, mode, !sign, e, c - p)
    else NormalizeAndRound(f, f.dw, mode, sign, e, p - c)
  }

  function FusedMultiplyAdd(f: Format, mode: RoundingMode, x: nat, y: nat, c: nat): Outcome
    requires f.Valid() && IsBits(f, x) && IsBits(f, y) && IsBits(f, c)
  {
    var (a, b) := if MagnitudeBits(f, x) < MagnitudeBits(f, y) then (y, x) else (x, y);
    var sign := Sign(f, a) != Sign(f, b);
    if IsNan(f, a) then
      var first := PropagateNan(f, a, b);
      var second := PropagateNan(f, first.bits, c);
      Outcome(second.bits, first.flags.Or(second.flags))
    else if IsInfinite(f, a) then
      if IsZero(f, b) then InvalidOperation(f)
      else if IsNan(f, c) then PropagateNan(f, c, c)
      else if IsInfinite(f, c) && Sign(f, c) != sign then InvalidOperation(f)
      else Outcome(Infinity(f, sign), NoFlags)
    else if IsNan(f, c) then PropagateNan(f, c, c)
    else if IsInfinite(f, c) then Outcome(c, NoFlags)
    else if IsZero(f, b) then
      if IsZero(f, c) then CancellationZero(f, mode) else Outcome(c, NoFlags)
    else
      LargerOperand(f, a, b);
      ProductRange(f, a, b);
      var (pe, p) := Product(f, a, b);
      if IsZero(f, c) then NormalizeAndRound(f, f.dw, mode, sign, pe, p)
      else
        AddendRange(f, c);
        var (ce, sc) := GetNormalizedSignificand(f, c);
        var (e, p', c') := AlignProduct(f, pe, p, ce - f.sw, Shl(sc, f.sw));
        AlignedRange(f, pe, p, ce - f.sw, Shl(sc, f.sw));
        CombineProduct(f, mode, sign, Sign(f, c), e, p', c')
  }

  lemma ProductRange(f: Format, a: nat, b: nat)
    requires f.Valid() && IsFinite(f, a) && !IsZero(f, a) && IsFinite(f, b) && !IsZero(f, b)
    ensures Pow2(2 * f.sw + 2) <= Product(f, a, b).1 < Pow2(2 * f.sw + 4) <= Pow2(f.dw)
  {
    ProductExact(f, a, b, Magnitude(f, a) * Magnitude(f, b));
    Pow2Mono(2 * f.sw + 4, f.dw);
  }

  lemma AddendRange(f: Format, c: nat)
    requires f.Valid() && IsFinite(f, c) && !IsZero(f, c)
    ensures Pow2(2 * f.sw + 2) <= Shl(GetNormalizedSignificand(f, c).1, f.sw) < Pow2(2 * f.sw + 3) <= Pow2(f.dw)
  {
    hide GetNormalizedSignificand, Shl;
    NormalizedSignificandExact(f, c);
    var s := GetNormalizedSignificand(f, c).1;
    ShlCompose(1, f.sw + 2, f.sw);
    ShlCompose(1, f.sw + 3, f.sw);
    ShlMono(s, Pow2(f.sw + 2), f.sw);
    ShlMono(s, Pow2(f.sw + 3), f.sw);
    Pow2Mono(2 * f.sw + 3, f.dw);
  }

  lemma AlignedRange(f: Format, pe: int, p: nat, ce: int, c: nat)
    requires f.Valid()
    requires 0 < p < Pow2(2 * f.sw + 4) <= Pow2(f.dw) && 0 < c < Pow2(2 * f.sw + 3) <= Pow2(f.dw)
    ensures var (e, p', c') := AlignProduct(f, pe, p, ce, c);
            0 < p' + c' < Pow2(f.dw)
  {
    hide RightShift;
    if ce < pe {
      ShiftBelow(f.dw, c, pe - ce, 2 * f.sw + 3);
    } else if ce > pe {
      ShiftBelow(f.dw, p, ce - pe, 2 * f.sw + 4);
    }
    DoublePow2(2 * f.sw + 3);
    DoublePow2(2 * f.sw + 4);
    Pow2Mono(2 * f.sw + 5, f.dw);
  }

  /** Shifting right keeps a bound that is a power of two. */
  lemma ShiftBelow(width: nat, t: nat, n: nat, k: nat)
    requires t < Pow2(width) && t < Pow2(k) && k > 0
    ensures RightShift(width, t, n) < Pow2(k)
  {
    Pow2Mono(k, n + k);
    RightShiftBound(width, t, n, k);
  }
}
