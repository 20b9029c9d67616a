/** Fused multiply-add rounds once. */
module FloatFma {
  import opened Powers
  import opened FloatFormat
  import opened FloatRounding
  import opened Sticky
  import opened FloatKernel
  import opened FloatArith
  import opened FloatAdd
  import opened FloatMul

  /** `t` is exact, or sticky and smaller than the exact even `u` by enough to survive normalization. */
  ghost predicate Apart(f: Format, e: int, t: nat, x: real, u: nat, y: real) {
    && Denotes(f, e, t, x) && Exactly(f, e, u, y) && u % 2 == 0
    && (Exactly(f, e, t, x) || t + Pow2(f.sw + 2) <= u)
  }

  lemma ApartSum(f: Format, e: int, t: nat, x: real, u: nat, y: real)
    requires Apart(f, e, t, x, u, y)
    ensures Denotes(f, e, u + t, y + x)
    ensures Exactly(f, e, u + t, y + x) || u + t >= Pow2(f.sw + 2)
  {
    hide Denotes;
    SumDenotes(f, e, u, t, y, x);
    ScaleSum(y, x, f.sw + 2 - e);
  }

  lemma ApartDifference(f: Format, e: int, t: nat, x: real, u: nat, y: real)
    requires Apart(f, e, t, x, u, y)
    ensures t == u ==> x == y
    ensures t < u ==> x < y && Denotes(f, e, u - t, y - x)
                      && (Exactly(f, e, u - t, y - x) || u - t >= Pow2(f.sw + 2))
    ensures t > u ==> x > y && Denotes(f, e, t - u, x - y) && Exactly(f, e, t - u, x - y)
  {
    hide Exactly, Denotes;
    SumDenotes(f, e, u, t, y, x);
    if t < u {
      PositiveDenotes(f, e, u - t, y - x);
    } else {
      ExactSign(f, e, t - u, x - y);
    }
  }

  /** Adding or subtracting aligned significands and rounding gives the exact result rounded once. */
  lemma CombineCorrect(f: Format, mode: RoundingMode, sign: bool, signC: bool, e: int,
                       p: nat, P: real, c: nat, C: real, X: real)
    requires f.Valid() && 0 < p && 0 < c && p + c < Pow2(f.dw)
    requires Apart(f, e, p, P, c, C) || Apart(f, e, c, C, p, P)
    requires X == (if sign then -P else P) + (if signC then -C else C)
    requires P > 0.0 && C > 0.0
    ensures Delivers(f, mode, X, mode == TowardNegative, CombineProduct(f, mode, sign, signC, e, p, c))
  {
    hide NormalizeAndRound, RoundsTo, Apart, Exactly, Denotes;
    if Apart(f, e, p, P, c, C) {
      ApartSum(f, e, p, P, c, C);
      ApartDifference(f, e, p, P, c, C);
    } else {
      ApartSum(f, e, c, C, p, P);
      ApartDifference(f, e, c, C, p, P);
    }
    if sign == signC {
      NormalizeAndRoundCorrect(f, f.dw, mode, sign, e, p + c, P + C);
    } else if p < c {
      NormalizeAndRoundCorrect(f, f.dw, mode, !sign, e, c - p, C - P);
    } else if p > c {
      NormalizeAndRoundCorrect(f, f.dw, mode, sign, e, p - c, P - C);
    }
  }

  /** Shifting out only zero bits keeps a significand exact. */
  lemma ShiftExact(f: Format, width: nat, e: int, u: nat, z: nat, n: nat, x: real)
    requires n <= z && Shl(u, z) < Pow2(width) && Exactly(f, e, Shl(u, z), x)
    ensures Exactly(f, e + n, RightShift(width, Shl(u, z), n), x)
    ensures RightShift(width, Shl(u, z), n) == Shl(u, z - n)
  {
    ShlCompose(u, z - n, n);
    Join(Shl(u, z), Shl(u, z - n), 0, n);
    RightShiftDigits(width, Shl(u, z), n);
    ScaleCompose(x, f.sw + 2 - e, 0 - n);
    ScaleShl(Shl(u, z - n), n);
    ScaleCompose(Shl(u, z - n) as real, n, 0 - n);
  }

  /** Aligning the smaller of two significands, one a multiple of `Pow2(z)` below `Pow2(k)`. */
  lemma AlignApart(f: Format, e: int, t: nat, x: real, n: nat, z: nat, k: nat, e': int, u: nat, y: real)
    requires f.Valid() && e' == e + n && n > 0
    requires Exactly(f, e, t, x) && t == Shl(Shr(t, z), z) && 0 < t < Pow2(k) && t < Pow2(f.dw)
    requires Exactly(f, e', u, y) && u % 2 == 0
    requires z + 1 + f.sw <= k <= z + 2 * f.sw + 2 && u >= Pow2(2 * f.sw + 2)
    ensures Apart(f, e', RightShift(f.dw, t, n), x, u, y)
    ensures RightShift(f.dw, t, n) > 0
  {
    hide RightShift, Exactly, Denotes;
    ExactDenotes(f, e, t, x);
    ShiftDenotes(f, f.dw, e, t, n, x);
    var t' := RightShift(f.dw, t, n);
    if n <= z {
      ShiftExact(f, f.dw, e, Shr(t, z), z, n, x);
    } else {
      var m := k - z - 1;
      Pow2Mono(k, n + m);
      RightShiftBound(f.dw, t, n, m);
      Pow2Mono(m, 2 * f.sw + 1);
      Pow2Mono(f.sw + 2, 2 * f.sw + 1);
      DoublePow2(2 * f.sw + 1);
    }
    ShiftPositive(f.dw, t, n);
  }

  lemma ShiftPositive(width: nat, t: nat, n: nat)
    requires 0 < t < Pow2(width)
    ensures RightShift(width, t, n) > 0
  {
    RightShiftDigits(width, t, n);
    ShlZero(n);
    LowShr(t, n);
  }

  lemma MultipleOfFourShape(p: nat)
    requires p % 4 == 0
    ensures p == Shl(Shr(p, 2), 2)
  {
    var q := p / 4;
    assert Shl(q, 1) == 2 * q && Shl(q, 2) == 2 * Shl(q, 1);
    Join(p, q, 0, 2);
  }

  lemma AddendShape(s: nat, sw: nat)
    requires s % 4 == 0
    ensures var c := Shl(s, sw); c == Shl(Shr(c, sw + 2), sw + 2)
  {
    MultipleOfFourShape(s);
    var q := Shr(s, 2);
    ShlCompose(q, 2, sw);
    Join(Shl(q, sw + 2), q, 0, sw + 2);
  }

  /** The alignment of product and addend, in either direction, keeps both meanings. */
  lemma AlignCorrect(f: Format, pe: int, p: nat, P: real, ce: int, c: nat, C: real)
    requires f.Valid()
    requires Pow2(2 * f.sw + 2) <= p < Pow2(2 * f.sw + 4) <= Pow2(f.dw) && p % 4 == 0
    requires Pow2(2 * f.sw + 2) <= c < Pow2(2 * f.sw + 3) <= Pow2(f.dw)
    requires c == Shl(Shr(c, f.sw + 2), f.sw + 2) && c % 2 == 0
    requires Exactly(f, pe, p, P) && Exactly(f, ce, c, C)
    ensures var (e, p', c') := AlignProduct(f, pe, p, ce, c);
            && 0 < p' && 0 < c' && p' + c' < Pow2(f.dw)
            && (Apart(f, e, p', P, c', C) || Apart(f, e, c', C, p', P))
  {
    hide RightShift, Exactly, Denotes, Apart;
    AlignedRange(f, pe, p, ce, c);
    MultipleOfFour(p);
    if ce < pe {
      AlignApart(f, ce, c, C, pe - ce, f.sw + 2, 2 * f.sw + 3, pe, p, P);
    } else if ce > pe {
      MultipleOfFourShape(p);
      AlignApart(f, pe, p, P, ce - pe, 2, 2 * f.sw + 4, ce, c, C);
    } else {
      BothExact(f, pe, p, P, c, C);
    }
  }

  lemma BothExact(f: Format, e: int, t: nat, x: real, u: nat, y: real)
    requires Exactly(f, e, t, x) && Exactly(f, e, u, y) && u % 2 == 0
    ensures Apart(f, e, t, x, u, y)
  {
    ExactDenotes(f, e, t, x);
  }

  /** The addend at double length: exact, in range, with its low bits clear. */
  lemma AddendExact(f: Format, c: nat)
    requires f.Valid() && IsFinite(f, c) && !IsZero(f, c)
    ensures var (ce, sc) := GetNormalizedSignificand(f, c);
            var t := Shl(sc, f.sw);
            && Exactly(f, ce - f.sw, t, Magnitude(f, c)) && t % 2 == 0
            && t == Shl(Shr(t, f.sw + 2), f.sw + 2)
  {
    hide GetNormalizedSignificand, Magnitude, Exactly;
    var (ce, sc) := GetNormalizedSignificand(f, c);
    NormalizedSignificandExact(f, c);
    AddendShape(sc, f.sw);
    LeftShiftExact(f, ce, sc, f.sw, Magnitude(f, c));
    ShlEven(sc, f.sw);
  }

  /** The main case: a non-zero product and a non-zero addend. */
  lemma FmaNonzero(f: Format, mode: RoundingMode, sign: bool, a: nat, b: nat, c: nat, P: real, X: real)
    requires f.Valid() && IsFinite(f, a) && !IsZero(f, a) && IsFinite(f, b) && !IsZero(f, b)
    requires IsFinite(f, c) && !IsZero(f, c)
    requires P == Magnitude(f, a) * Magnitude(f, b) && P > 0.0
    requires X == (if sign then -P else P) + Value(f, c)
    ensures var (pe, p) := Product(f, a, b);
            var (ce, sc) := GetNormalizedSignificand(f, c);
            && p < Pow2(f.dw) && Shl(sc, f.sw) < Pow2(f.dw)
            && var (e, p', c') := AlignProduct(f, pe, p, ce - f.sw, Shl(sc, f.sw));
               && 0 < p' + c' < Pow2(f.dw)
               && Delivers(f, mode, X, mode == TowardNegative, CombineProduct(f, mode, sign, Sign(f, c), e, p', c'))
  {
    hide Product, GetNormalizedSignificand, Magnitude, Exactly, Apart, AlignProduct, CombineProduct, Delivers, Shl, IsZero;
    ProductExact(f, a, b, P);
    ProductRange(f, a, b);
    AddendRange(f, c);
    AddendExact(f, c);
    MagnitudeSign(f, c);
    var (pe, p) := Product(f, a, b);
    var (ce, sc) := GetNormalizedSignificand(f, c);
    AlignCorrect(f, pe, p, P, ce - f.sw, Shl(sc, f.sw), Magnitude(f, c));
    var (e, p', c') := AlignProduct(f, pe, p, ce - f.sw, Shl(sc, f.sw));
    CombineCorrect(f, mode, sign, Sign(f, c), e, p', P, c', Magnitude(f, c), X);
  }

  /**
   Fused multiply-add returns the exact `x * y + c` rounded once, for all finite operands
   whose product is not zero.
   */
  lemma FusedMultiplyAddCorrect(f: Format, mode: RoundingMode, x: nat, y: nat, c: nat)
    requires f.Valid() && IsBits(f, x) && IsBits(f, y) && IsBits(f, c)
    requires IsFinite(f, x) && IsFinite(f, y) && IsFinite(f, c) && !IsZero(f, x) && !IsZero(f, y)
    ensures Delivers(f, mode, Value(f, x) * Value(f, y) + Value(f, c), mode == TowardNegative,
                     FusedMultiplyAdd(f, mode, x, y, c))
  {
    hide Product, GetNormalizedSignificand, Magnitude, AlignProduct, CombineProduct, NormalizeAndRound, RoundsTo, Shl;
    var (a, b) := if MagnitudeBits(f, x) < MagnitudeBits(f, y) then (y, x) else (x, y);
    var sign := Sign(f, a) != Sign(f, b);
    var P := Magnitude(f, a) * Magnitude(f, b);
    SignedValues(f, x, y, P);
    if IsZero(f, c) {
      ProductRounds(f, mode, sign, a, b, P);
      MagnitudeSign(f, c);
    } else {
      FmaNonzero(f, mode, sign, a, b, c, P, (if sign then -P else P) + Value(f, c));
    }
  }

  /** With a zero product the addend is returned unchanged, unless it is zero too. */
  lemma FusedMultiplyAddZeroProduct(f: Format, mode: RoundingMode, x: nat, y: nat, c: nat)
    requires f.Valid() && IsBits(f, x) && IsBits(f, y) && IsBits(f, c)
    requires IsFinite(f, x) && IsFinite(f, y) && IsFinite(f, c) && !IsZero(f, c)
    requires IsZero(f, x) || IsZero(f, y)
    ensures Delivers(f, mode, Value(f, x) * Value(f, y) + Value(f, c), false, FusedMultiplyAdd(f, mode, x, y, c))
  {
    hide Magnitude, RoundsTo;
    var (a, b) := if MagnitudeBits(f, x) < MagnitudeBits(f, y) then (y, x) else (x, y);
    LargerOperand(f, a, b);
    SignedValues(f, x, y, Magnitude(f, x) * Magnitude(f, y));
    MagnitudeSign(f, c);
    ExactRounds(f, mode, c);
  }

  /**
   With a zero product and a zero addend the sign is the one section 6.3 of IEEE 754-2008
   requires exactly when the two zeros differ in sign, or their common sign is the one
   cancellation has in the rounding mode.
   */
  lemma FusedMultiplyAddZeros(f: Format, mode: RoundingMode, x: nat, y: nat, c: nat)
    requires f.Valid() && IsBits(f, x) && IsBits(f, y) && IsBits(f, c)
    requires IsFinite(f, x) && IsFinite(f, y) && IsZero(f, c)
    requires IsZero(f, x) || IsZero(f, y)
    ensures var sign := Sign(f, x) != Sign(f, y);
            Delivers(f, mode, Value(f, x) * Value(f, y) + Value(f, c), ZeroSumSign(mode, sign, Sign(f, c)),
                     FusedMultiplyAdd(f, mode, x, y, c))
            <==> sign != Sign(f, c) || sign == (mode == TowardNegative)
  {
    hide Magnitude, RoundsTo;
    var (a, b) := if MagnitudeBits(f, x) < MagnitudeBits(f, y) then (y, x) else (x, y);
    LargerOperand(f, a, b);
    SignedValues(f, x, y, Magnitude(f, x) * Magnitude(f, y));
    MagnitudeSign(f, c);
    ZerosDiffer(f);
  }

  lemma ZerosDiffer(f: Format)
    requires f.Valid()
    ensures Zero(f, false) != Zero(f, true)
  {
    PackFields(f, false, 0, 0);
    PackFields(f, true, 0, 0);
  }

  /** The smallest failing case: rounding down, (+0) * (+0) + (+0) comes out as -0. */
  lemma FusedMultiplyAddWrongZero(f: Format)
    requires f.Valid()
    ensures IsBits(f, Zero(f, false))
    ensures FusedMultiplyAdd(f, TowardNegative, Zero(f, false), Zero(f, false), Zero(f, false)).bits
            == Zero(f, true) != Zero(f, false)
  {
    PackFields(f, false, 0, 0);
    Pow2Mono(1, f.ew);
    ZerosDiffer(f);
  }
}
