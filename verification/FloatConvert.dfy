/** Conversions from integers and between formats. */
module FloatConvert {
  import opened Powers
  import opened FloatFormat
  import opened FloatRounding
  import opened Sticky
  import opened FloatKernel
  import opened FloatArith
  import opened FloatAdd
  import opened FloatSpec

  function ConvertFromInt(f: Format, width: nat, mode: RoundingMode, sign: bool, value: nat): Outcome
    requires f.Valid() && value < Pow2(width)
  {
    if value == 0 then Outcome(Zero(f, false), NoFlags)
    else NormalizeAndRound(f, width, mode, sign, f.sw + 2, value)
  }

  function ConvertFromUint(f: Format, width: nat, mode: RoundingMode, value: nat): Outcome
    requires f.Valid() && value < Pow2(width)
  {
    ConvertFromInt(f, width, mode, false, value)
  }

  /** `value` holds a two's complement number of `width` bits. */
  function ConvertFromSint(f: Format, width: nat, mode: RoundingMode, value: nat): Outcome
    requires f.Valid() && width > 0 && value < Pow2(width)
  {
    if value >= Pow2(width - 1) then ConvertFromInt(f, width, mode, true, Pow2(width) - value)
    else ConvertFromInt(f, width, mode, false, value)
  }

  function SignedValue(width: nat, value: nat): int
    requires width > 0
  {
    if value >= Pow2(width - 1) then value - Pow2(width) else value
  }

  lemma ConvertFromIntCorrect(f: Format, width: nat, mode: RoundingMode, sign: bool, value: nat)
    requires f.Valid() && value < Pow2(width) && (value == 0 ==> !sign)
    ensures Delivers(f, mode, if sign then -(value as real) else value as real, false, ConvertFromInt(f, width, mode, sign, value))
  {
    if value > 0 {
      hide NormalizeAndRound, RoundsTo, Pow2;
      IntegerExact(f, value);
      NormalizeAndRoundCorrect(f, width, mode, sign, f.sw + 2, value, value as real);
    }
  }

  lemma IntegerExact(f: Format, value: nat)
    ensures Exactly(f, f.sw + 2, value, value as real) && Denotes(f, f.sw + 2, value, value as real)
  {
  }

  /** Every integer converts to the nearest number in the rounding direction, zero to plus zero. */
  lemma ConvertFromUintCorrect(f: Format, width: nat, mode: RoundingMode, value: nat)
    requires f.Valid() && value < Pow2(width)
    ensures Delivers(f, mode, value as real, false, ConvertFromUint(f, width, mode, value))
  {
    ConvertFromIntCorrect(f, width, mode, false, value);
  }

  lemma ConvertFromSintCorrect(f: Format, width: nat, mode: RoundingMode, value: nat)
    requires f.Valid() && width > 0 && value < Pow2(width)
    ensures Delivers(f, mode, SignedValue(width, value) as real, false, ConvertFromSint(f, width, mode, value))
  {
    hide Delivers, ConvertFromInt;
    DoublePow2(width - 1);
    if value >= Pow2(width - 1) {
      ConvertFromIntCorrect(f, width, mode, true, Pow2(width) - value);
    } else {
      ConvertFromIntCorrect(f, width, mode, false, value);
    }
  }

  // ---- between formats

  function ConvertFormat(fa: Format, fb: Format, mode: RoundingMode, a: nat): Outcome
    requires fa.Valid() && fb.Valid()
  {
    if IsNan(fa, a) then
      Outcome(QuietNan(fb), if IsSignaling(fa, a) then NoFlags.(invalid := true) else NoFlags)
    else if IsInfinite(fa, a) then Outcome(Infinity(fb, Sign(fa, a)), NoFlags)
    else if IsZero(fa, a) then Outcome(Zero(fb, Sign(fa, a)), NoFlags)
    else
      var (e, s) := GetNormalizedSignificand(fa, a);
      NormalizedSignificandExact(fa, a);
      Pow2Mono(fa.sw + 3, fa.HolderWidth());
      NormalizeAndRound(fb, fa.HolderWidth(), mode, Sign(fa, a), e - fa.sw + fb.sw, s)
  }

  /** The value is rounded once into the other format, keeping its sign. */
  lemma ConvertFormatCorrect(fa: Format, fb: Format, mode: RoundingMode, a: nat)
    requires fa.Valid() && fb.Valid() && IsBits(fa, a) && IsFinite(fa, a)
    ensures Delivers(fb, mode, Value(fa, a), Sign(fa, a), ConvertFormat(fa, fb, mode, a))
  {
    MagnitudeSign(fa, a);
    if !IsZero(fa, a) {
      ConvertRounds(fa, fb, mode, a);
    }
  }

  lemma ConvertRounds(fa: Format, fb: Format, mode: RoundingMode, a: nat)
    requires fa.Valid() && fb.Valid() && IsFinite(fa, a) && !IsZero(fa, a)
    ensures RoundsTo(fb, mode, Sign(fa, a), Magnitude(fa, a), ConvertFormat(fa, fb, mode, a))
  {
    hide NormalizeAndRound, RoundsTo, GetNormalizedSignificand, Magnitude;
    var (e, s) := GetNormalizedSignificand(fa, a);
    NormalizedSignificandExact(fa, a);
    Pow2Mono(fa.sw + 3, fa.HolderWidth());
    NormalizeAndRoundCorrect(fb, fa.HolderWidth(), mode, Sign(fa, a), e - fa.sw + fb.sw, s, Magnitude(fa, a));
  }

  /** `fb` has at least the range and the precision of `fa`. */
  predicate Wider(fa: Format, fb: Format) { fb.ew >= fa.ew && fb.sw >= fa.sw }

  lemma WiderRange(fa: Format, fb: Format)
    requires fa.Valid() && fb.Valid() && Wider(fa, fb)
    ensures fb.MinimumExponent() <= fa.MinimumExponent() && fa.MaximumExponent() <= fb.MaximumExponent()
  {
    ExponentOrder(fa);
    ExponentOrder(fb);
    Pow2Mono(fa.ew - 1, fb.ew - 1);
  }

  /** A magnitude with few enough digits, in range, is its own rounding. */
  lemma ExactlyRepresentable(f: Format, mode: RoundingMode, sign: bool, x: real, e: int, m: nat, q: int, o: Outcome)
    requires f.Valid() && Binade(x, e) && e <= f.MaximumExponent()
    requires x == Scale(m as real, q) && q >= LastPlace(f, e)
    requires RoundsTo(f, mode, sign, x, o)
    ensures o.flags == NoFlags && IsBits(f, o.bits) && IsFinite(f, o.bits) && Sign(f, o.bits) == sign && Magnitude(f, o.bits) == x
  {
    hide Magnitude, IsBits, IsFinite, Sign, Scale, Binade;
    var e' :| Binade(x, e') && RoundedIn(f, mode, sign, x, e', o);
    BinadeUnique(x, e, e');
    var p := LastPlace(f, e);
    var n: nat := q - p;
    ScaleCompose(m as real, q, 0 - p);
    ScaleShl(m, n);
    RoundIntBounds(mode, sign, Scale(x, 0 - p), Shl(m, n), Shl(m, n));
    ScaleCompose(x, 0 - p, p);
    ScaleZero(x);
    BelowMaximum(f, x, e);
  }

  lemma ScaleZero(x: real)
    ensures Scale(x, 0) == x
  {
  }

  lemma BelowMaximum(f: Format, x: real, e: int)
    requires f.Valid() && Binade(x, e) && e <= f.MaximumExponent()
    ensures x < R2(f.MaximumExponent() + 1)
  {
    R2Mono(e + 1, f.MaximumExponent() + 1);
  }

  /** The digits of a finite number reach no lower than the last place of any wider format. */
  lemma DigitsFit(fa: Format, fb: Format, a: nat) returns (e: int, m: nat, q: int)
    requires fa.Valid() && fb.Valid() && Wider(fa, fb) && IsBits(fa, a) && IsFinite(fa, a) && !IsZero(fa, a)
    ensures Binade(Magnitude(fa, a), e) && e <= fb.MaximumExponent()
    ensures Magnitude(fa, a) == Scale(m as real, q) && q >= LastPlace(fb, e)
  {
    var s: nat;
    e, s := GetNormalizedSignificand(fa, a).0, GetNormalizedSignificand(fa, a).1;
    NormalizedSignificandExact(fa, a);
    NormalizedBinade(fa, e, s, Magnitude(fa, a));
    ExponentAtMost(fa, a);
    WiderRange(fa, fb);
    m, q := MagnitudeShape(fa, a);
    hide Magnitude, GetNormalizedSignificand, Scale;
    if q < e - fa.sw {
      ScaleMono(m as real, Pow2(fa.sw + 1) as real, q);
      PowerAt(fa.sw + 1, q + fa.sw + 1);
      R2Mono(q + fa.sw + 1, e);
    }
  }

  lemma ExponentAtMost(f: Format, a: nat)
    requires f.Valid() && IsBits(f, a) && IsFinite(f, a) && !IsZero(f, a)
    ensures GetNormalizedSignificand(f, a).0 <= f.MaximumExponent()
  {
    hide Shl, Shr, Low;
    ExponentOrder(f);
    FieldsPack(f, a);
    if BiasedExponent(f, a) == 0 {
      TrailingLog(f, a);
    }
  }

  /** Conversion to a wider format is exact. */
  lemma WidenExact(fa: Format, fb: Format, mode: RoundingMode, a: nat)
    requires fa.Valid() && fb.Valid() && Wider(fa, fb) && IsBits(fa, a) && IsFinite(fa, a) && !IsZero(fa, a)
    ensures var o := ConvertFormat(fa, fb, mode, a);
      && o.flags == NoFlags && IsBits(fb, o.bits) && IsFinite(fb, o.bits)
      && Sign(fb, o.bits) == Sign(fa, a) && Magnitude(fb, o.bits) == Magnitude(fa, a)
  {
    hide ConvertFormat, RoundsTo, Magnitude, IsBits, IsFinite, Sign, IsZero;
    ConvertRounds(fa, fb, mode, a);
    var e, m, q := DigitsFit(fa, fb, a);
    ExactlyRepresentable(fb, mode, Sign(fa, a), Magnitude(fa, a), e, m, q, ConvertFormat(fa, fb, mode, a));
  }

  /** Widening and narrowing back, in any rounding modes, returns the very same number. */
  lemma WidenThenNarrow(fa: Format, fb: Format, mode: RoundingMode, mode': RoundingMode, a: nat)
    requires fa.Valid() && fb.Valid() && Wider(fa, fb) && IsBits(fa, a) && IsFinite(fa, a) && !IsZero(fa, a)
    ensures ConvertFormat(fb, fa, mode', ConvertFormat(fa, fb, mode, a).bits) == Outcome(a, NoFlags)
  {
    hide ConvertFormat, RoundsTo, Magnitude, IsBits, IsFinite, Sign, IsZero;
    var b := ConvertFormat(fa, fb, mode, a).bits;
    WidenExact(fa, fb, mode, a);
    MagnitudeSign(fa, a);
    MagnitudeSign(fb, b);
    ConvertRounds(fb, fa, mode', b);
    ExactRounds(fa, mode', a);
    RoundingUnique(fa, mode', Sign(fa, a), Magnitude(fa, a), ConvertFormat(fb, fa, mode', b), Outcome(a, NoFlags));
  }

  /** FCVT.D.S is exact and raises nothing, and FCVT.S.D takes it back, in any rounding modes. */
  lemma SingleThroughDouble(mode: RoundingMode, mode': RoundingMode, a: nat)
    requires IsBits(F32, a) && IsFinite(F32, a) && !IsZero(F32, a)
    ensures var o := ConvertFormat(F32, F64, mode, a);
      && o.flags == NoFlags && IsBits(F64, o.bits) && IsFinite(F64, o.bits)
      && Sign(F64, o.bits) == Sign(F32, a) && Magnitude(F64, o.bits) == Magnitude(F32, a)
      && ConvertFormat(F64, F32, mode', o.bits) == Outcome(a, NoFlags)
  {
    hide ConvertFormat, Magnitude, IsBits, IsFinite, Sign, IsZero;
    WidenExact(F32, F64, mode, a);
    WidenThenNarrow(F32, F64, mode, mode', a);
  }
}
