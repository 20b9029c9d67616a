/** Conversion to integers, and exactly when it delivers what the standard asks for. */
module FloatToInt {
  import opened Powers
  import opened FloatFormat
  import opened FloatRounding
  import opened Sticky
  import opened FloatKernel
  import opened FloatArith

  /** Sign, magnitude and flags, as the conversion kernel returns them. */
  datatype IntOutcome = IntOutcome(sign: bool, magnitude: nat, flags: Flags)

  const Inexact := NoFlags.(inexact := true)
  const Invalid := NoFlags.(invalid := true)

  /** Converts to an integer type of `width` bits whose bounds are `-negativeMax` and `positiveMax`. */
  function ConvertToInt(f: Format, width: nat, mode: RoundingMode, positiveMax: nat, negativeMax: nat, a: nat): IntOutcome
    requires f.Valid()
  {
    var sign := Sign(f, a);
    var max := if sign then negativeMax else positiveMax;
    if IsNan(f, a) then IntOutcome(false, positiveMax, Invalid)
    else if IsInfinite(f, a) then IntOutcome(sign, max, Invalid)
    else if IsZero(f, a) then IntOutcome(false, 0, NoFlags)
    else
      var (exponent, significand) := GetNormalizedSignificand(f, a);
      if exponent < f.sw then ConvertFraction(f, mode, sign, max, exponent, significand, a)
      else ConvertInteger(f, width, sign, max, exponent, significand)
  }

  /** Some bits of the significand lie behind the binary point. */
  function ConvertFraction(f: Format, mode: RoundingMode, sign: bool, max: nat, exponent: int, significand: nat, ghost a: nat): IntOutcome
    requires f.Valid() && exponent < f.sw && IsFinite(f, a) && !IsZero(f, a)
    requires (exponent, significand) == GetNormalizedSignificand(f, a)
  {
    NormalizedSignificandExact(f, a);
    Pow2Mono(f.sw + 3, f.HolderWidth());
    var (inexact, rounded) := RoundSignificand(mode, sign, RightShift(f.HolderWidth(), significand, f.sw - exponent));
    if rounded == 0 then IntOutcome(false, 0, Inexact)
    else if rounded > max then IntOutcome(sign, max, Invalid)
    else IntOutcome(sign, rounded, if inexact then Inexact else NoFlags)
  }

  /** The number is an integer; the shift may lose its upper bits. */
  function ConvertInteger(f: Format, width: nat, sign: bool, max: nat, exponent: int, significand: nat): IntOutcome
    requires exponent >= f.sw
  {
    var remaining := width - f.sw + 1;
    if remaining < 0 || exponent - f.sw > remaining then IntOutcome(sign, max, Invalid)
    else
      var result := Low(Shl(Low(significand / 4, width), exponent - f.sw), width);
      if result > max then IntOutcome(sign, max, Invalid) else IntOutcome(sign, result, NoFlags)
  }

  // ---- what the standard asks for

  /** The integer and flags of section 5.8 of IEEE 754-2008, out-of-range results saturated. */
  function Required(f: Format, mode: RoundingMode, positiveMax: nat, negativeMax: nat, a: nat): (int, Flags)
    requires f.Valid()
  {
    var sign := Sign(f, a);
    var saturated: int := if sign then 0 - negativeMax else positiveMax;
    if IsNan(f, a) then (positiveMax, Invalid)
    else if IsInfinite(f, a) then (saturated, Invalid)
    else
      var n := RoundInt(mode, sign, Magnitude(f, a));
      if n > (if sign then negativeMax else positiveMax) then (saturated, Invalid)
      else (if sign then -n else n, if n as real == Magnitude(f, a) then NoFlags else Inexact)
  }

  /** The signed integer that sign and magnitude stand for. */
  function Meaning(o: IntOutcome): (int, Flags) {
    (if o.sign then -(o.magnitude as int) else o.magnitude, o.flags)
  }

  /** The bits of an integer above the word are lost, and what is left looks like a result in range. */
  predicate LooksInRange(f: Format, width: nat, positiveMax: nat, negativeMax: nat, a: nat)
    requires f.Valid()
  {
    IsFinite(f, a) && !IsZero(f, a) &&
    var (exponent, significand) := GetNormalizedSignificand(f, a);
    && exponent >= f.sw && width <= exponent <= width + 1
    && Low(Shl(significand / 4, exponent - f.sw), width) <= if Sign(f, a) then negativeMax else positiveMax
  }

  // ---- numbers with a fraction

  lemma FractionRounds(f: Format, mode: RoundingMode, sign: bool, exponent: int, s: nat, x: real)
    requires f.Valid() && exponent < f.sw && s < Pow2(f.HolderWidth()) && Exactly(f, exponent, s, x)
    ensures var (inexact, rounded) := RoundSignificand(mode, sign, RightShift(f.HolderWidth(), s, f.sw - exponent));
      rounded == RoundInt(mode, sign, x) && (inexact <==> rounded as real != x)
  {
    hide RightShift, RoundSignificand, RoundInt, Scale;
    var n: nat := f.sw - exponent;
    var y := Scale(x, f.sw + 2 - exponent);
    RightShiftSticky(f.HolderWidth(), s, n, y);
    ScaleCompose(x, f.sw + 2 - exponent, 0 - n);
    TimesFour(x);
    RoundSignificandCorrect(mode, sign, RightShift(f.HolderWidth(), s, n), 4.0 * x);
  }

  lemma TimesFour(x: real)
    ensures Scale(x, 2) == 4.0 * x && 4.0 * x / 4.0 == x
  {
    ScaleStep(x, 0);
    ScaleStep(x, 1);
  }

  // ---- integers

  lemma IntegerValue(f: Format, exponent: int, s: nat, x: real)
    requires f.Valid() && exponent >= f.sw && Exactly(f, exponent, s, x) && s % 4 == 0 && Normalized(f, s)
    ensures x == Shl(s / 4, exponent - f.sw) as real
    ensures Pow2(exponent) <= Shl(s / 4, exponent - f.sw) < Pow2(exponent + 1)
  {
    hide Scale;
    var n: nat := exponent - f.sw;
    ExactlyIff(f, exponent, s, x);
    ScaleQuarter(s / 4, n);
    ScaleShl(s / 4, n);
    DoublePow2(f.sw);
    DoublePow2(f.sw + 1);
    DoublePow2(f.sw + 2);
    ShlCompose(1, f.sw, n);
    ShlCompose(1, f.sw + 1, n);
    ShlMono(Pow2(f.sw), s / 4, n);
    ShlMono(s / 4, Pow2(f.sw + 1), n);
  }

  /** Casting to the word before the shift loses no more than the shift does. */
  lemma LowOfShifted(t: nat, n: nat, width: nat)
    ensures Low(Shl(Low(t, width), n), width) == Low(Shl(t, n), width)
  {
    hide Shl, Shr, Low;
    var q, r := Shr(t, width), Low(t, width);
    LowShr(t, width);
    ShlSum(Shl(q, width), r, n);
    ShlCompose(q, width, n);
    ShlCompose(q, n, width);
    LowPlusMultiple(Shl(r, n), Shl(q, n), width);
  }

  lemma LowPlusMultiple(x: nat, q: nat, width: nat)
    ensures Low(Shl(q, width) + x, width) == Low(x, width)
  {
    hide Shl, Shr, Low;
    var d, r := Shr(x, width), Low(x, width);
    LowShr(x, width);
    ShlSum(q, d, width);
    Join(Shl(q, width) + x, q + d, r, width);
  }

  lemma IntegerRounds(mode: RoundingMode, sign: bool, n: nat)
    ensures RoundInt(mode, sign, n as real) == n
  {
  }

  /** What the integer branch delivers, for the integer `n` of the given exponent. */
  lemma IntegerBranch(f: Format, width: nat, sign: bool, max: nat, exponent: int, s: nat)
    requires exponent >= f.sw && max < Pow2(width)
    requires Pow2(exponent) <= Shl(s / 4, exponent - f.sw) < Pow2(exponent + 1)
    ensures var n, o := Shl(s / 4, exponent - f.sw), ConvertInteger(f, width, sign, max, exponent, s);
      if width <= exponent <= width + 1 && Low(n, width) <= max
      then n > max && o == IntOutcome(sign, Low(n, width), NoFlags)
      else o == if n > max then IntOutcome(sign, max, Invalid) else IntOutcome(sign, n, NoFlags)
  {
    hide Shl, Low;
    var n := Shl(s / 4, exponent - f.sw);
    LowOfShifted(s / 4, exponent - f.sw, width);
    if exponent < width {
      Pow2Mono(exponent + 1, width);
      LowSmall(n, width);
    } else {
      Pow2Mono(width, exponent);
    }
  }

  /**
   Value and flags are the correctly rounded and saturated ones exactly when the upper bits of an
   integer of one or two bits too many are not lost in a way that looks like a result in range.
   */
  lemma ConvertToIntCorrect(f: Format, width: nat, mode: RoundingMode, positiveMax: nat, negativeMax: nat, a: nat)
    requires f.Valid() && IsBits(f, a) && positiveMax < Pow2(width) && negativeMax < Pow2(width)
    ensures Meaning(ConvertToInt(f, width, mode, positiveMax, negativeMax, a)) == Required(f, mode, positiveMax, negativeMax, a)
      <==> !LooksInRange(f, width, positiveMax, negativeMax, a)
  {
    hide Shl, Low, Shr, RightShift, RoundSignificand, RoundInt, Magnitude, GetNormalizedSignificand, Normalized, Exactly;
    if IsFinite(f, a) {
      if IsZero(f, a) {
        MagnitudeSign(f, a);
        IntegerRounds(mode, Sign(f, a), 0);
      } else {
        FiniteCorrect(f, width, mode, positiveMax, negativeMax, a);
      }
    }
  }

  lemma FiniteCorrect(f: Format, width: nat, mode: RoundingMode, positiveMax: nat, negativeMax: nat, a: nat)
    requires f.Valid() && IsFinite(f, a) && !IsZero(f, a) && positiveMax < Pow2(width) && negativeMax < Pow2(width)
    ensures Meaning(ConvertToInt(f, width, mode, positiveMax, negativeMax, a)) == Required(f, mode, positiveMax, negativeMax, a)
      <==> !LooksInRange(f, width, positiveMax, negativeMax, a)
  {
    hide Shl, Low, RightShift, RoundSignificand, RoundInt, Magnitude, GetNormalizedSignificand, ConvertInteger;
    var (exponent, s) := GetNormalizedSignificand(f, a);
    var sign, x := Sign(f, a), Magnitude(f, a);
    NormalizedSignificandExact(f, a);
    MagnitudeSign(f, a);
    if exponent < f.sw {
      Pow2Mono(f.sw + 3, f.HolderWidth());
      FractionRounds(f, mode, sign, exponent, s, x);
    } else {
      IntegerValue(f, exponent, s, x);
      IntegerRounds(mode, sign, Shl(s / 4, exponent - f.sw));
      IntegerBranch(f, width, sign, if sign then negativeMax else positiveMax, exponent, s);
    }
  }

  // ---- the two public conversions

  /** Bits of the word and flags. */
  datatype WordOutcome = WordOutcome(bits: nat, flags: Flags)

  function ConvertToUint(f: Format, width: nat, mode: RoundingMode, a: nat): WordOutcome
    requires f.Valid()
  {
    var o := ConvertToInt(f, width, mode, Pow2(width) - 1, 0, a);
    WordOutcome(o.magnitude, o.flags)
  }

  function ConvertToSint(f: Format, width: nat, mode: RoundingMode, a: nat): WordOutcome
    requires f.Valid() && width > 0
  {
    var max := Pow2(width - 1) - 1;
    var o := ConvertToInt(f, width, mode, max, Pow2(width) - 1 - max, a);
    WordOutcome(if o.sign then Low(Pow2(width) - 1 - Low(o.magnitude, width) + 1, width) else o.magnitude, o.flags)
  }

  /** An integer as a word in two's complement. */
  function Complement(width: nat, v: int): int { if v < 0 then Pow2(width) + v else v }

  /** For every number, width and mode: the unsigned conversion is right exactly if no integer of
      one or two bits too many looks in range once truncated. */
  lemma ConvertToUintCorrect(f: Format, width: nat, mode: RoundingMode, a: nat)
    requires f.Valid() && IsBits(f, a)
    ensures var (v, flags) := Required(f, mode, Pow2(width) - 1, 0, a);
      (ConvertToUint(f, width, mode, a).bits == v && ConvertToUint(f, width, mode, a).flags == flags)
      <==> !LooksInRange(f, width, Pow2(width) - 1, 0, a)
  {
    var max := Pow2(width) - 1;
    ConvertToIntCorrect(f, width, mode, max, 0, a);
    ConvertToIntBounds(f, width, mode, max, 0, a);
    if LooksInRange(f, width, max, 0, a) {
      TruncatedFlags(f, width, mode, max, 0, a);
    }
    hide ConvertToInt, Required, LooksInRange, Pow2;
  }

  /** The same for the signed conversion, whose result is in two's complement. */
  lemma ConvertToSintCorrect(f: Format, width: nat, mode: RoundingMode, a: nat)
    requires f.Valid() && IsBits(f, a) && width > 0
    ensures var (v, flags) := Required(f, mode, Pow2(width - 1) - 1, Pow2(width - 1), a);
      (ConvertToSint(f, width, mode, a).bits == Complement(width, v) && ConvertToSint(f, width, mode, a).flags == flags)
      <==> !LooksInRange(f, width, Pow2(width - 1) - 1, Pow2(width - 1), a)
  {
    hide ConvertToInt, Required, LooksInRange, Pow2, Low;
    var min := Pow2(width - 1);
    Halved(width);
    ConvertToIntCorrect(f, width, mode, min - 1, min, a);
    ConvertToIntBounds(f, width, mode, min - 1, min, a);
    if LooksInRange(f, width, min - 1, min, a) {
      TruncatedFlags(f, width, mode, min - 1, min, a);
    }
    Negated(width, ConvertToInt(f, width, mode, min - 1, min, a).magnitude);
  }

  lemma Halved(width: nat)
    requires width > 0
    ensures Pow2(width) == 2 * Pow2(width - 1)
  {
    DoublePow2(width - 1);
  }

  /** Complementing the bits and adding one negates a word. */
  lemma Negated(width: nat, m: nat)
    requires m < Pow2(width)
    ensures Low(Pow2(width) - 1 - Low(m, width) + 1, width) == if m == 0 then 0 else Pow2(width) - m
  {
    LowSmall(m, width);
    LowZero(width);
    if m > 0 {
      LowSmall(Pow2(width) - m, width);
    }
    hide Low;
  }

  lemma ConvertToIntBounds(f: Format, width: nat, mode: RoundingMode, positiveMax: nat, negativeMax: nat, a: nat)
    requires f.Valid()
    ensures var o := ConvertToInt(f, width, mode, positiveMax, negativeMax, a);
      o.magnitude <= (if o.sign then negativeMax else positiveMax)
  {
    hide Shl, Low, Shr, RightShift, RoundSignificand, GetNormalizedSignificand;
  }

  /** Where the result is wrong, a flag is missing. */
  lemma TruncatedFlags(f: Format, width: nat, mode: RoundingMode, positiveMax: nat, negativeMax: nat, a: nat)
    requires f.Valid() && positiveMax < Pow2(width) && negativeMax < Pow2(width)
    requires LooksInRange(f, width, positiveMax, negativeMax, a)
    ensures ConvertToInt(f, width, mode, positiveMax, negativeMax, a).flags == NoFlags
    ensures Required(f, mode, positiveMax, negativeMax, a).1 == Invalid
  {
    hide Shl, Low, RightShift, RoundSignificand, RoundInt, Magnitude, GetNormalizedSignificand, ConvertInteger;
    var (exponent, s) := GetNormalizedSignificand(f, a);
    NormalizedSignificandExact(f, a);
    IntegerValue(f, exponent, s, Magnitude(f, a));
    IntegerRounds(mode, Sign(f, a), Shl(s / 4, exponent - f.sw));
    IntegerBranch(f, width, Sign(f, a), if Sign(f, a) then negativeMax else positiveMax, exponent, s);
  }

  /** A word much narrower than the significand never truncates: the conversion is always right. */
  lemma NarrowAlwaysCorrect(f: Format, width: nat, mode: RoundingMode, positiveMax: nat, negativeMax: nat, a: nat)
    requires f.Valid() && IsBits(f, a) && positiveMax < Pow2(width) && negativeMax < Pow2(width) && width + 1 < f.sw
    ensures Meaning(ConvertToInt(f, width, mode, positiveMax, negativeMax, a)) == Required(f, mode, positiveMax, negativeMax, a)
  {
    ConvertToIntCorrect(f, width, mode, positiveMax, negativeMax, a);
    hide ConvertToInt, Required, GetNormalizedSignificand;
  }

  // ---- the failing inputs exist

  /** The number `2^width` becomes zero without a flag, instead of the largest word with INVALID. */
  lemma PowerBecomesZero(f: Format, width: nat, mode: RoundingMode)
    requires f.Valid() && f.sw <= width <= f.MaximumExponent()
    ensures var a := Pack(f, false, width + f.ExponentBias(), 0);
      && IsBits(f, a) && Value(f, a) == Pow2(width) as real
      && ConvertToUint(f, width, mode, a) == WordOutcome(0, NoFlags)
      && Required(f, mode, Pow2(width) - 1, 0, a) == (Pow2(width) - 1, Invalid)
  {
    hide Scale, Shl, Shr, Low;
    ExponentOrder(f);
    var b: nat := width + f.ExponentBias();
    var a := Pack(f, false, b, 0);
    PackFields(f, false, b, 0);
    hide Pack;
    ScaleShl(Pow2(f.sw), width - f.sw);
    ShlCompose(1, f.sw, width - f.sw);
    assert Magnitude(f, a) == Pow2(width) as real;
    IntegerRounds(mode, false, Pow2(width));
    DoublePow2(width);
    assert GetNormalizedSignificand(f, a) == (width as int, Pow2(f.sw) * 4);
    IntegerBranch(f, width, false, Pow2(width) - 1, width, Pow2(f.sw) * 4);
    LowZero(width);
  }

  lemma LowZero(width: nat)
    ensures Low(Pow2(width), width) == 0
  {
    ShlSum(1, 0, width);
    Join(Pow2(width), 1, 0, width);
  }

  /** Binary32 0x4f800000 to a 32-bit unsigned word. */
  lemma Binary32Witness(mode: RoundingMode)
    ensures ConvertToUint(F32, 32, mode, 0x4f80_0000) == WordOutcome(0, NoFlags)
    ensures Required(F32, mode, 0xffff_ffff, 0, 0x4f80_0000) == (0xffff_ffff, Invalid)
  {
    hide ConvertToUint, Required, Pack, Pow2;
    PowersOfEight();
    Binary32Pattern();
    PowerBecomesZero(F32, 32, mode);
  }

  lemma Binary32Pattern()
    ensures Pack(F32, false, 159, 0) == 0x4f80_0000 && F32.ExponentBias() == 127 && F32.MaximumExponent() == 127
  {
    PowersOfEight();
    LowSmall(159, 8);
    LowSmall(0, 23);
    ShlZero(31);
    Shl8(159, 15);
    Shl8(159, 7);
    ShlOf7(159);
    hide Shl, Low;
  }

  lemma Shl8(x: int, n: nat)
    ensures Shl(x, n + 8) == 256 * Shl(x, n)
  {
    assert Shl(x, n + 2) == 4 * Shl(x, n);
    assert Shl(x, n + 4) == 4 * Shl(x, n + 2);
    assert Shl(x, n + 6) == 4 * Shl(x, n + 4);
  }

  lemma ShlOf7(x: int)
    ensures Shl(x, 7) == 128 * x
  {
    assert Shl(x, 1) == 2 * x;
    assert Shl(x, 3) == 4 * Shl(x, 1);
    assert Shl(x, 5) == 4 * Shl(x, 3);
  }

  lemma PowersOfEight()
    ensures Pow2(7) == 128 && Pow2(8) == 256 && Pow2(32) == 0x1_0000_0000
  {
    ShlOf7(1);
    Shl8(1, 0);
    Shl8(1, 8);
    Shl8(1, 16);
    Shl8(1, 24);
  }
}
