/** Addition and subtraction. */
module FloatAdd {
  import opened Powers
  import opened FloatFormat
  import opened FloatRounding
  import opened Sticky
  import opened FloatKernel
  import opened FloatArith

  function PropagateNan(f: Format, a: nat, b: nat): Outcome
    requires f.Valid()
  {
    Outcome(QuietNan(f), Flags(false, false, false, false, IsSignaling(f, a) || IsSignaling(f, b)))
  }

  function InvalidOperation(f: Format): Outcome
    requires f.Valid()
  {
    Outcome(QuietNan(f), Flags(false, false, false, false, true))
  }

  function CancellationZero(f: Format, mode: RoundingMode): Outcome {
    Outcome(Zero(f, mode == TowardNegative), NoFlags)
  }

  function Negate(f: Format, x: nat): nat {
    SetSign(f, x, !Sign(f, x))
  }

  /** Adds the magnitude of `b` to that of `a`, which is at least as large; the result takes the sign of `a`. */
  function AddMagnitude(f: Format, mode: RoundingMode, a: nat, b: nat): Outcome
    requires f.Valid() && IsBits(f, a) && IsBits(f, b)
    requires !IsNan(f, a) && MagnitudeBits(f, b) <= MagnitudeBits(f, a)
  {
    if IsInfinite(f, a) then Outcome(a, NoFlags)
    else if BiasedExponent(f, a) == 0 then
      // Both are subnormal: a carry out of the trailing significand is the biased exponent 1.
      Outcome(SetSign(f, TrailingSignificand(f, a) + TrailingSignificand(f, b), Sign(f, a)), NoFlags)
    else
      Aligned(f, a, b);
      var (ea, sa) := GetSignificand(f, a);
      var (eb, sb) := GetSignificand(f, b);
      ShiftByZero(f.HolderWidth(), sb);
      var sum := sa + if ea != eb then RightShift(f.HolderWidth(), sb, ea - eb) else sb;
      RoundCarry(f, mode, Sign(f, a), ea, sum)
  }

  /** Takes the carry of a sum back into the significand before rounding. */
  function RoundCarry(f: Format, mode: RoundingMode, sign: bool, e: int, sum: nat): Outcome
    requires f.Valid() && sum < Pow2(f.sw + 4)
  {
    CarryWidths(f, sum);
    var carry := Shr(sum, f.sw + 3) % 2 != 0;
    Round(f, mode, sign, if carry then e + 1 else e, if carry then RightShift(f.HolderWidth(), sum, 1) else sum)
  }

  /** Subtracts the magnitude of `b` from that of `a`, which is at least as large. */
  function SubtractMagnitude(f: Format, mode: RoundingMode, a: nat, b: nat): Outcome
    requires f.Valid() && IsBits(f, a) && IsBits(f, b)
    requires !IsNan(f, a) && MagnitudeBits(f, b) <= MagnitudeBits(f, a)
  {
    if IsInfinite(f, a) then (if IsInfinite(f, b) then InvalidOperation(f) else Outcome(a, NoFlags))
    else
      Aligned(f, a, b);
      var (ea, sa) := GetSignificand(f, a);
      var (eb, sb) := GetSignificand(f, b);
      if ea == eb then
        if sa == sb then CancellationZero(f, mode)
        else NormalizeAndRound(f, f.HolderWidth(), mode, Sign(f, a), ea, sa - sb)
      else
        // One more bit of precision, which massive cancellation may need.
        var sb' := RightShift(f.HolderWidth(), sb * 2, ea - eb);
        NormalizeAndRound(f, f.HolderWidth(), mode, Sign(f, a), ea - 1, sa * 2 - sb')
  }

  function Add(f: Format, mode: RoundingMode, x: nat, y: nat): Outcome
    requires f.Valid() && IsBits(f, x) && IsBits(f, y)
  {
    var (a, b) := if MagnitudeBits(f, x) < MagnitudeBits(f, y) then (y, x) else (x, y);
    if IsNan(f, a) then PropagateNan(f, a, b)
    else if Sign(f, a) == Sign(f, b) then AddMagnitude(f, mode, a, b)
    else
      NegateFields(f, b);
      SubtractMagnitude(f, mode, a, Negate(f, b))
  }

  function Subtract(f: Format, mode: RoundingMode, x: nat, y: nat): Outcome
    requires f.Valid() && IsBits(f, x) && IsBits(f, y)
  {
    NegateFields(f, y);
    Add(f, mode, x, Negate(f, y))
  }

  lemma NegateFields(f: Format, x: nat)
    requires f.Valid() && IsBits(f, x)
    ensures var n := Negate(f, x);
            && IsBits(f, n) && Sign(f, n) != Sign(f, x) && MagnitudeBits(f, n) == MagnitudeBits(f, x)
            && BiasedExponent(f, n) == BiasedExponent(f, x)
            && TrailingSignificand(f, n) == TrailingSignificand(f, x)
            && Magnitude(f, n) == Magnitude(f, x) && Value(f, n) == -Value(f, x)
  {
    FieldsPack(f, x);
    PackFields(f, !Sign(f, x), BiasedExponent(f, x), TrailingSignificand(f, x));
  }

  /** Comparing everything but the sign bit orders exponents first, then significands. */
  lemma MagnitudeOrder(f: Format, a: nat, b: nat)
    requires f.Valid() && IsBits(f, a) && IsBits(f, b) && MagnitudeBits(f, b) <= MagnitudeBits(f, a)
    ensures BiasedExponent(f, b) <= BiasedExponent(f, a)
    ensures BiasedExponent(f, b) == BiasedExponent(f, a) ==> TrailingSignificand(f, b) <= TrailingSignificand(f, a)
  {
    FieldsPack(f, a);
    FieldsPack(f, b);
    ShlMono(BiasedExponent(f, a) + 1, BiasedExponent(f, b), f.sw);
    ShlMono(BiasedExponent(f, a) + 1, BiasedExponent(f, b) + 1, f.sw);
    ShlSum(BiasedExponent(f, a), 1, f.sw);
  }

  lemma AlignedOrder(f: Format, a: nat, b: nat)
    requires f.Valid() && IsBits(f, a) && IsBits(f, b) && IsFinite(f, a)
    requires MagnitudeBits(f, b) <= MagnitudeBits(f, a)
    ensures IsFinite(f, b)
    ensures var (ea, sa) := GetSignificand(f, a); var (eb, sb) := GetSignificand(f, b);
            && ea >= eb && (ea == eb ==> sa >= sb) && (ea > eb ==> Normalized(f, sa))
            && sa < Pow2(f.sw + 3) && sb < Pow2(f.sw + 3)
  {
    FieldsPack(f, a);
    FieldsPack(f, b);
    MagnitudeOrder(f, a, b);
    SignificandExact(f, a);
    SignificandExact(f, b);
  }

  lemma AlignedWidths(f: Format, sa: nat, sb: nat, n: nat)
    requires f.Valid() && sa < Pow2(f.sw + 3) && sb < Pow2(f.sw + 3)
    ensures Pow2(f.sw + 4) <= Pow2(f.HolderWidth())
    ensures sb < Pow2(f.HolderWidth()) && sb * 2 < Pow2(f.HolderWidth())
    ensures n > 0 ==> RightShift(f.HolderWidth(), sb * 2, n) < Pow2(f.sw + 3)
    ensures sa + RightShift(f.HolderWidth(), sb, n) < Pow2(f.sw + 4)
  {
    hide RightShift;
    Pow2Mono(f.sw + 4, f.HolderWidth());
    Pow2Mono(f.sw + 3, n + f.sw + 3);
    RightShiftBound(f.HolderWidth(), sb, n, f.sw + 3);
    if n > 0 {
      Pow2Mono(f.sw + 4, n + f.sw + 3);
      RightShiftBound(f.HolderWidth(), sb * 2, n, f.sw + 3);
    }
  }

  /** The alignment shift is non-negative and no intermediate sum or difference leaves its holder. */
  lemma Aligned(f: Format, a: nat, b: nat)
    requires f.Valid() && IsBits(f, a) && IsBits(f, b) && IsFinite(f, a)
    requires MagnitudeBits(f, b) <= MagnitudeBits(f, a)
    ensures IsFinite(f, b)
    ensures var h := f.HolderWidth();
            var (ea, sa) := GetSignificand(f, a); var (eb, sb) := GetSignificand(f, b);
            && ea >= eb && sb < Pow2(h) && sb * 2 < Pow2(h)
            && (ea == eb ==> sa >= sb && sa - sb < Pow2(h))
            && (ea > eb ==> Normalized(f, sa) && 0 < sa * 2 - RightShift(h, sb * 2, ea - eb) < Pow2(h))
            && var sum := sa + RightShift(h, sb, ea - eb);
               sum < Pow2(f.sw + 4)
  {
    hide RightShift, GetSignificand;
    var (ea, sa) := GetSignificand(f, a);
    var (eb, sb) := GetSignificand(f, b);
    AlignedOrder(f, a, b);
    AlignedWidths(f, sa, sb, ea - eb);
    if ea > eb {
      assert 2 * sa >= Pow2(f.sw + 3);
    }
  }

  lemma CarryWidths(f: Format, sum: nat)
    requires f.Valid() && sum < Pow2(f.sw + 4)
    ensures sum < Pow2(f.HolderWidth()) && RightShift(f.HolderWidth(), sum, 1) < Pow2(f.HolderWidth())
  {
    hide RightShift;
    Pow2Mono(f.sw + 4, f.HolderWidth());
    RightShiftBound(f.HolderWidth(), sum, 1, f.sw + 3);
  }

  lemma ShiftByZero(width: nat, t: nat)
    requires t < Pow2(width)
    ensures RightShift(width, t, 0) == t
  {
    RightShiftDigits(width, t, 0);
  }

  // ---- correctness

  /** A representable number is its own rounding and raises nothing. */
  lemma ExactRounds(f: Format, mode: RoundingMode, r: nat)
    requires f.Valid() && IsBits(f, r) && IsFinite(f, r) && !IsZero(f, r)
    ensures RoundsTo(f, mode, Sign(f, r), Magnitude(f, r), Outcome(r, NoFlags))
  {
    hide Shr, Low, Log2Floor;
    var x := Magnitude(f, r);
    var (e, s) := GetNormalizedSignificand(f, r);
    NormalizedSignificandExact(f, r);
    NormalizedBinade(f, e, s, x);
    var q := Max(e, f.MinimumExponent()) - f.sw;
    var m := if BiasedExponent(f, r) == 0 then TrailingSignificand(f, r)
             else Pow2(f.sw) + TrailingSignificand(f, r);
    ExponentOrder(f);
    FieldsPack(f, r);
    if BiasedExponent(f, r) == 0 {
      TrailingLog(f, r);
    }
    assert x == Scale(m as real, q);
    ScaleCompose(m as real, q, -q);
    RoundIntBounds(mode, Sign(f, r), m as real, m, m);
    R2Mono(e + 1, f.MaximumExponent() + 1);
  }

  /** An aligned sum stands for the sum of the magnitudes. */
  lemma SumDenotes(f: Format, e: int, sa: nat, sb: nat, x: real, y: real)
    requires Exactly(f, e, sa, x) && sa % 2 == 0 && Denotes(f, e, sb, y)
    ensures Denotes(f, e, sa + sb, x + y)
    ensures sa >= sb ==> Denotes(f, e, sa - sb, x - y)
    ensures sb >= sa ==> Denotes(f, e, sb - sa, y - x)
    ensures Exactly(f, e, sb, y) && sa >= sb ==> Exactly(f, e, sa - sb, x - y)
    ensures Exactly(f, e, sb, y) && sb >= sa ==> Exactly(f, e, sb - sa, y - x)
  {
    var n := f.sw + 2 - e;
    ScaleSum(x, y, n);
    ScaleSum(y, x, n);
    EvenShift(sb, Scale(y, n), sa);
  }

  /** The aligned sum of a normalized significand and a smaller one, rounded. */
  lemma AddAligned(f: Format, mode: RoundingMode, sign: bool, ea: int, sa: nat, eb: int, sb: nat, A: real, B: real)
    requires f.Valid() && ea >= eb && Normalized(f, sa) && sa % 4 == 0
    requires Exactly(f, ea, sa, A) && Exactly(f, eb, sb, B) && sb < Pow2(f.HolderWidth())
    requires sa + RightShift(f.HolderWidth(), sb, ea - eb) < Pow2(f.sw + 4)
    ensures var sum := sa + RightShift(f.HolderWidth(), sb, ea - eb);
            RoundsTo(f, mode, sign, A + B, RoundCarry(f, mode, sign, ea, sum))
  {
    hide RightShift, RoundCarry, RoundsTo, Denotes, Exactly;
    var sb' := RightShift(f.HolderWidth(), sb, ea - eb);
    ExactDenotes(f, eb, sb, B);
    ShiftDenotes(f, f.HolderWidth(), eb, sb, ea - eb, B);
    MultipleOfFour(sa);
    SumDenotes(f, ea, sa, sb', A, B);
    RoundSum(f, mode, sign, ea, sa + sb', A + B);
  }

  lemma AddMagnitudeNormal(f: Format, mode: RoundingMode, a: nat, b: nat)
    requires f.Valid() && IsBits(f, a) && IsBits(f, b) && IsFinite(f, a)
    requires MagnitudeBits(f, b) <= MagnitudeBits(f, a) && BiasedExponent(f, a) > 0
    ensures RoundsTo(f, mode, Sign(f, a), Magnitude(f, a) + Magnitude(f, b), AddMagnitude(f, mode, a, b))
  {
    hide RightShift, RoundCarry, RoundsTo, Magnitude, GetSignificand, Exactly;
    Aligned(f, a, b);
    SignificandExact(f, a);
    SignificandExact(f, b);
    var (ea, sa) := GetSignificand(f, a);
    var (eb, sb) := GetSignificand(f, b);
    ShiftByZero(f.HolderWidth(), sb);
    AddAligned(f, mode, Sign(f, a), ea, sa, eb, sb, Magnitude(f, a), Magnitude(f, b));
  }

  lemma RoundSum(f: Format, mode: RoundingMode, sign: bool, e: int, sum: nat, x: real)
    requires f.Valid() && Pow2(f.sw + 2) <= sum < Pow2(f.sw + 4) && Denotes(f, e, sum, x)
    ensures RoundsTo(f, mode, sign, x, RoundCarry(f, mode, sign, e, sum))
  {
    hide Round, RoundsTo, RightShift, Denotes;
    CarryWidths(f, sum);
    var p := Pow2(f.sw + 3);
    if sum < p {
      LowSmall(sum, f.sw + 3);
      RoundCorrect(f, mode, sign, e, sum, x);
    } else {
      Join(sum, 1, sum - p, f.sw + 3);
      ShiftDenotes(f, f.HolderWidth(), e, sum, 1, x);
      RightShiftRange(f.HolderWidth(), sum, 1, f.sw + 2);
      RoundCorrect(f, mode, sign, e + 1, RightShift(f.HolderWidth(), sum, 1), x);
    }
  }

  /** Two subnormals add exactly, carrying into the least normal binade. */
  lemma AddMagnitudeSubnormal(f: Format, mode: RoundingMode, a: nat, b: nat)
    requires f.Valid() && IsBits(f, a) && IsBits(f, b)
    requires MagnitudeBits(f, b) <= MagnitudeBits(f, a) && BiasedExponent(f, a) == 0
    ensures var r := AddMagnitude(f, mode, a, b).bits;
            && IsBits(f, r) && IsFinite(f, r) && Sign(f, r) == Sign(f, a)
            && Magnitude(f, r) == Magnitude(f, a) + Magnitude(f, b)
            && (IsZero(f, r) ==> r == Zero(f, Sign(f, a)))
  {
    hide Scale, IsBits, MagnitudeBits, Log2Floor;
    MagnitudeOrder(f, a, b);
    var ta, tb := TrailingSignificand(f, a), TrailingSignificand(f, b);
    var t, p := ta + tb, Pow2(f.sw);
    ScaleSum(ta as real, tb as real, f.MinimumExponent() - f.sw);
    ExponentOrder(f);
    if t < p {
      LowSmall(t, f.sw);
      LowSmall(0, f.ew);
      PackFields(f, Sign(f, a), 0, t);
    } else {
      Join(t, 1, t - p, f.sw);
      LowSmall(1, f.ew);
      PackFields(f, Sign(f, a), 1, t - p);
    }
  }

  lemma SubtractMagnitudeCorrect(f: Format, mode: RoundingMode, a: nat, b: nat)
    requires f.Valid() && IsBits(f, a) && IsBits(f, b) && IsFinite(f, a)
    requires MagnitudeBits(f, b) <= MagnitudeBits(f, a)
    ensures var x := Magnitude(f, a) - Magnitude(f, b);
            var o := SubtractMagnitude(f, mode, a, b);
            && x >= 0.0
            && (x == 0.0 ==> o == CancellationZero(f, mode))
            && (x > 0.0 ==> RoundsTo(f, mode, Sign(f, a), x, o))
  {
    hide RightShift, NormalizeAndRound, RoundsTo, Magnitude, Exactly, GetSignificand;
    AlignedOrder(f, a, b);
    Aligned(f, a, b);
    SignificandExact(f, a);
    SignificandExact(f, b);
    var (ea, sa) := GetSignificand(f, a);
    var (eb, sb) := GetSignificand(f, b);
    var A, B := Magnitude(f, a), Magnitude(f, b);
    if ea == eb {
      SubtractExact(f, mode, Sign(f, a), ea, sa, sb, A, B);
    } else {
      SubtractAligned(f, mode, Sign(f, a), ea, sa, eb, sb, A, B);
    }
  }

  lemma SubtractExact(f: Format, mode: RoundingMode, sign: bool, e: int, sa: nat, sb: nat, A: real, B: real)
    requires f.Valid() && sa >= sb && sa % 4 == 0 && sa - sb < Pow2(f.HolderWidth())
    requires Exactly(f, e, sa, A) && Exactly(f, e, sb, B)
    ensures A - B >= 0.0 && (A == B <==> sa == sb)
    ensures sa > sb ==>
              RoundsTo(f, mode, sign, A - B, NormalizeAndRound(f, f.HolderWidth(), mode, sign, e, sa - sb))
  {
    hide NormalizeAndRound, RoundsTo, Exactly, Denotes;
    ExactDenotes(f, e, sb, B);
    MultipleOfFour(sa);
    SumDenotes(f, e, sa, sb, A, B);
    ExactDenotes(f, e, sa - sb, A - B);
    ExactSign(f, e, sa - sb, A - B);
    if sa > sb {
      NormalizeAndRoundCorrect(f, f.HolderWidth(), mode, sign, e, sa - sb, A - B);
    }
  }

  lemma ExactSign(f: Format, e: int, t: nat, x: real)
    requires Exactly(f, e, t, x)
    ensures x >= 0.0 && (x == 0.0 <==> t == 0)
  {
    ScaleSign(x, f.sw + 2 - e);
  }

  lemma MultipleOfFour(n: nat)
    requires n % 4 == 0
    ensures n % 2 == 0
  {
    var m := n / 4 * 2;
    assert n == 2 * m;
  }

  lemma ExactDenotes(f: Format, e: int, t: nat, x: real)
    requires Exactly(f, e, t, x)
    ensures Denotes(f, e, t, x)
  {
  }

  /** Shifting a doubled significand back by one loses nothing. */
  lemma ShiftBackExact(f: Format, width: nat, e: int, t: nat, x: real)
    requires t * 2 < Pow2(width) && Exactly(f, e - 1, t * 2, x)
    ensures Exactly(f, e, RightShift(width, t * 2, 1), x)
  {
    RightShiftDigits(width, t * 2, 1);
    Join(t * 2, t, 0, 1);
    ScaleStep(x, f.sw + 2 - e);
  }

  lemma DoubleExact(f: Format, e: int, t: nat, x: real)
    requires Exactly(f, e, t, x)
    ensures Exactly(f, e - 1, t * 2, x)
  {
    ScaleStep(x, f.sw + 2 - e);
  }

  /** Subtraction with a shifted subtrahend: either the shift was exact, or little cancels. */
  lemma SubtractAligned(f: Format, mode: RoundingMode, sign: bool, ea: int, sa: nat, eb: int, sb: nat, A: real, B: real)
    requires f.Valid() && ea > eb && Normalized(f, sa)
    requires Exactly(f, ea, sa, A) && Exactly(f, eb, sb, B) && sb % 4 == 0
    requires sb * 2 < Pow2(f.HolderWidth()) && sb < Pow2(f.sw + 3)
    requires 0 < sa * 2 - RightShift(f.HolderWidth(), sb * 2, ea - eb) < Pow2(f.HolderWidth())
    ensures A - B > 0.0
    ensures RoundsTo(f, mode, sign, A - B,
                     NormalizeAndRound(f, f.HolderWidth(), mode, sign, ea - 1,
                                       sa * 2 - RightShift(f.HolderWidth(), sb * 2, ea - eb)))
  {
    hide NormalizeAndRound, RoundsTo, RightShift, Denotes;
    var h, n := f.HolderWidth(), ea - eb;
    var sb' := RightShift(h, sb * 2, n);
    DoubleExact(f, ea, sa, A);
    DoubleExact(f, eb, sb, B);
    ExactDenotes(f, eb - 1, sb * 2, B);
    ShiftDenotes(f, h, eb - 1, sb * 2, n, B);
    SumDenotes(f, ea - 1, sa * 2, sb', A, B);
    if n == 1 {
      ShiftBackExact(f, h, eb, sb, B);
    } else {
      Pow2Mono(f.sw + 4, n + f.sw + 2);
      RightShiftBound(h, sb * 2, n, f.sw + 2);
    }
    PositiveDenotes(f, ea - 1, sa * 2 - sb', A - B);
    NormalizeAndRoundCorrect(f, h, mode, sign, ea - 1, sa * 2 - sb', A - B);
  }

  lemma PositiveDenotes(f: Format, e: int, t: nat, x: real)
    requires Denotes(f, e, t, x) && t > 0
    ensures x > 0.0
  {
    ScaleSign(x, f.sw + 2 - e);
  }

  /** The sign an exact zero sum must have (section 6.3 of IEEE 754-2008). */
  function ZeroSumSign(mode: RoundingMode, s: bool, t: bool): bool {
    if s == t then s else mode == TowardNegative
  }

  /** Addition returns the exact sum rounded once, for all finite operands. */
  lemma AddCorrect(f: Format, mode: RoundingMode, x: nat, y: nat)
    requires f.Valid() && IsBits(f, x) && IsBits(f, y) && IsFinite(f, x) && IsFinite(f, y)
    ensures Delivers(f, mode, Value(f, x) + Value(f, y), ZeroSumSign(mode, Sign(f, x), Sign(f, y)), Add(f, mode, x, y))
  {
    hide SubtractMagnitude, RoundsTo, Round, Magnitude;
    var (a, b) := if MagnitudeBits(f, x) < MagnitudeBits(f, y) then (y, x) else (x, y);
    MagnitudeSign(f, a);
    MagnitudeSign(f, b);
    if Sign(f, a) == Sign(f, b) {
      if BiasedExponent(f, a) > 0 {
        AddMagnitudeNormal(f, mode, a, b);
        assert !IsZero(f, a);
      } else {
        AddMagnitudeSubnormal(f, mode, a, b);
        var r := AddMagnitude(f, mode, a, b).bits;
        MagnitudeSign(f, r);
        if !IsZero(f, r) {
          ExactRounds(f, mode, r);
        }
      }
    } else {
      NegateFields(f, b);
      SubtractMagnitudeCorrect(f, mode, a, Negate(f, b));
    }
  }

  /** Subtraction returns the exact difference rounded once, for all finite operands. */
  lemma SubtractCorrect(f: Format, mode: RoundingMode, x: nat, y: nat)
    requires f.Valid() && IsBits(f, x) && IsBits(f, y) && IsFinite(f, x) && IsFinite(f, y)
    ensures Delivers(f, mode, Value(f, x) - Value(f, y), ZeroSumSign(mode, Sign(f, x), !Sign(f, y)),
                     Subtract(f, mode, x, y))
  {
    NegateFields(f, y);
    AddCorrect(f, mode, x, Negate(f, y));
  }
}
