/**
 The rounding kernel. A significand is a fixed-point number with `sw + 2` fraction
 bits, the last two of which exist only for rounding; `(exponent, significand)` stands
 for `significand * 2^(exponent - sw - 2)`.
 */
module FloatKernel {
  import opened Powers
  import opened FloatFormat
  import opened FloatRounding
  import opened Sticky

  /** Rounds off the last two bits; also says whether they were non-zero. */
  function RoundSignificand(mode: RoundingMode, sign: bool, s: nat): (bool, nat) {
    if s % 4 == 0 then (false, s / 4) else
    var bumped := match mode
      case TiesToEven => s + (s / 4) % 2 + 1
      case TowardZero => s
      case TowardNegative => if sign then s + 3 else s
      case TowardPositive => if sign then s else s + 3
      case TiesToAway => s + 2;
    (true, bumped / 4)
  }

  lemma LargestFinite(f: Format, sign: bool)
    requires f.Valid()
    ensures Infinity(f, sign) == Pack(f, sign, Pow2(f.ew) - 2, Pow2(f.sw) - 1) + 1
  {
    var b := Pow2(f.ew) - 2;
    Pow2Mono(3, f.ew);
    LowSmall(b, f.ew);
    LowSmall(b + 1, f.ew);
    LowSmall(Pow2(f.sw) - 1, f.sw);
    LowSmall(0, f.sw);
    ShlSum(b, 1, f.sw);
  }

  function RoundOverflow(f: Format, mode: RoundingMode, sign: bool): Outcome
    requires f.Valid()
  {
    var infinity := Infinity(f, sign);
    var away := (sign && mode == TowardPositive) || (!sign && mode == TowardNegative) || mode == TowardZero;
    LargestFinite(f, sign);
    // One below infinity is the largest finite number.
    Outcome(if away then infinity - 1 else infinity, Flags(true, false, true, false, false))
  }

  /** Rounds a normalized significand to the format, raising the flags this requires. */
  function Round(f: Format, mode: RoundingMode, sign: bool, exponent: int, significand: nat): Outcome
    requires f.Valid() && significand < Pow2(f.HolderWidth())
  {
    if exponent > f.MaximumExponent() then RoundOverflow(f, mode, sign) else
    var subnormal := exponent < f.MinimumExponent();
    var shifted := if subnormal then RightShift(f.HolderWidth(), significand, f.MinimumExponent() - exponent)
                   else significand;
    var (inexact, rounded) := RoundSignificand(mode, sign, shifted);
    var carry := inexact && rounded == Pow2(f.sw + 1);
    var exponent' := if carry then exponent + 1 else exponent;
    var rounded' := if carry then rounded / 2 else rounded;
    if exponent' < f.MinimumExponent() then
      if rounded' == Pow2(f.sw) then
        var underflow := RoundSignificand(mode, sign, significand).1 != Pow2(f.sw + 1);
        Outcome(Pack(f, sign, 1, 0), Flags(inexact, underflow, false, false, false))
      else
        Outcome(Pack(f, sign, 0, rounded'), Flags(inexact, inexact, false, false, false))
    else if exponent' > f.MaximumExponent() then
      Outcome(RoundOverflow(f, mode, sign).bits,
              RoundOverflow(f, mode, sign).flags.Or(Flags(inexact, false, false, false, false)))
    else
      Outcome(Pack(f, sign, exponent' + f.ExponentBias(), rounded'), Flags(inexact, false, false, false, false))
  }

  /** Moves the leading one of a significand held in `width` bits to its normalized place. */
  function Normalize(f: Format, width: nat, exponent: int, t: nat): (int, nat)
    requires f.Valid() && 0 < t < Pow2(width)
  {
    var shift := Log2Floor(t) - 2 - f.sw;
    (exponent + shift, if shift <= 0 then Shl(t, -shift) else RightShift(width, t, shift))
  }

  /** `t` at `exponent` stands for the magnitude `x`, exactly or as a sticky approximation. */
  ghost predicate Denotes(f: Format, exponent: int, t: nat, x: real) {
    IsSticky(t, Scale(x, f.sw + 2 - exponent))
  }

  predicate Normalized(f: Format, s: nat) {
    Pow2(f.sw + 2) <= s < Pow2(f.sw + 3)
  }

  // ---- rounding off the last two bits

  lemma RoundSignificandCorrect(mode: RoundingMode, sign: bool, s: nat, x: real)
    requires IsSticky(s, x)
    ensures RoundSignificand(mode, sign, s).1 == RoundInt(mode, sign, x / 4.0)
    ensures RoundSignificand(mode, sign, s).0 <==> RoundInt(mode, sign, x / 4.0) as real != x / 4.0
  {
    var d, r, y := s / 4, s % 4, x / 4.0;
    assert r == 0 ==> y == d as real;
    assert r == 1 ==> d as real < y < d as real + 0.5;
    assert r == 2 ==> y == d as real + 0.5;
    assert r == 3 ==> d as real + 0.5 < y < d as real + 1.0;
    assert y.Floor == d;
  }

  /** The same, with the scale of the rounded integer made explicit. */
  lemma RoundedAtScale(f: Format, mode: RoundingMode, sign: bool, exponent: int, s: nat, x: real)
    requires Denotes(f, exponent, s, x)
    ensures RoundSignificand(mode, sign, s).1 == RoundInt(mode, sign, Scale(x, f.sw - exponent))
    ensures RoundSignificand(mode, sign, s).0 <==>
            Scale(RoundSignificand(mode, sign, s).1 as real, exponent - f.sw) != x
  {
    var y := Scale(x, f.sw - exponent);
    ScaleStep(x, f.sw - exponent);
    ScaleStep(x, f.sw - exponent + 1);
    assert Scale(x, f.sw + 2 - exponent) / 4.0 == y;
    RoundSignificandCorrect(mode, sign, s, Scale(x, f.sw + 2 - exponent));
    ScaleCompose(x, f.sw - exponent, exponent - f.sw);
    ScaleMono(RoundInt(mode, sign, y) as real, y, exponent - f.sw);
  }

  // ---- where a normalized significand lies

  lemma NormalizedBinade(f: Format, exponent: int, s: nat, x: real)
    requires Normalized(f, s) && Denotes(f, exponent, s, x)
    ensures Binade(x, exponent)
  {
    var n := f.sw + 2;
    var y := Scale(x, n - exponent);
    ShlEven(1, n);
    ShlEven(1, n + 1);
    assert Pow2(n) as real <= y < Pow2(n + 1) as real;
    ScaleCompose(x, n - exponent, exponent - n);
    PowerAt(n, exponent);
    PowerAt(n + 1, exponent + 1);
    ScaleMono(y, Pow2(n) as real, exponent - n);
    ScaleMono(y, Pow2(n + 1) as real, exponent - n);
  }

  lemma PowerAt(n: nat, e: int)
    ensures Scale(Pow2(n) as real, e - n) == R2(e)
  {
    ScaleShl(1, n);
    ScaleCompose(1.0, n, e - n);
  }

  lemma ShiftDenotes(f: Format, width: nat, exponent: int, t: nat, n: nat, x: real)
    requires t < Pow2(width) && Denotes(f, exponent, t, x)
    ensures Denotes(f, exponent + n, RightShift(width, t, n), x)
  {
    RightShiftSticky(width, t, n, Scale(x, f.sw + 2 - exponent));
    ScaleCompose(x, f.sw + 2 - exponent, 0 - n);
  }

  // ---- the kernel is correct

  /** Where the rounded integer lies when the real number lies in a binade at or above the last place. */
  lemma RoundIntInBinade(f: Format, mode: RoundingMode, sign: bool, x: real, e: int)
    requires Binade(x, e)
    ensures var m := RoundInt(mode, sign, Scale(x, f.sw - e));
            && Pow2(f.sw) <= m <= Pow2(f.sw + 1)
            && R2(e) <= Scale(m as real, e - f.sw) <= R2(e + 1)
            && (m == Pow2(f.sw + 1) <==> Scale(m as real, e - f.sw) == R2(e + 1))
            && Scale(x, f.sw - e) < Pow2(f.sw + 1) as real
  {
    var y := Scale(x, f.sw - e);
    PowerAt(f.sw, e);
    PowerAt(f.sw + 1, e + 1);
    var lo, hi := Pow2(f.sw) as real, Pow2(f.sw + 1) as real;
    ScaleCompose(lo, e - f.sw, f.sw - e);
    ScaleCompose(hi, e - f.sw, f.sw - e);
    ScaleMono(x, R2(e), f.sw - e);
    ScaleMono(x, R2(e + 1), f.sw - e);
    RoundIntBounds(mode, sign, y, Pow2(f.sw), Pow2(f.sw + 1));
    var m := RoundInt(mode, sign, y) as real;
    ScaleMono(m, lo, e - f.sw);
    ScaleMono(m, hi, e - f.sw);
  }

  lemma OverflowAgrees(f: Format, mode: RoundingMode, sign: bool)
    requires f.Valid()
    ensures RoundOverflow(f, mode, sign).bits == OverflowBits(f, mode, sign)
  {
    LargestFinite(f, sign);
  }

  lemma RoundHuge(f: Format, mode: RoundingMode, sign: bool, e: int, s: nat, x: real)
    requires f.Valid() && Normalized(f, s) && Denotes(f, e, s, x) && s < Pow2(f.HolderWidth())
    requires e > f.MaximumExponent()
    ensures RoundedIn(f, mode, sign, x, e, Round(f, mode, sign, e, s))
  {
    NormalizedBinade(f, e, s, x);
    ExponentOrder(f);
    RoundIntInBinade(f, mode, sign, x, e);
    R2Mono(f.MaximumExponent() + 1, e);
    OverflowAgrees(f, mode, sign);
  }

  lemma ExponentOrder(f: Format)
    requires f.Valid()
    ensures f.MinimumExponent() < f.MaximumExponent() == f.ExponentBias()
    ensures f.MinimumExponent() + f.ExponentBias() == 1
    ensures f.MaximumExponent() + f.ExponentBias() == Pow2(f.ew) - 2
    ensures 1 < Pow2(f.ew) - 1 == f.InfinityBiasedExponent()
  {
    Pow2Mono(2, f.ew - 1);
  }

  /** A normal pattern stands for its significand, hidden bit included, at its exponent. */
  lemma NormalPattern(f: Format, sign: bool, e: int, m: nat)
    requires f.Valid() && f.MinimumExponent() <= e <= f.MaximumExponent()
    requires Pow2(f.sw) <= m < Pow2(f.sw + 1)
    ensures var r := Pack(f, sign, e + f.ExponentBias(), m);
            && IsBits(f, r) && IsFinite(f, r) && Sign(f, r) == sign
            && BiasedExponent(f, r) == e + f.ExponentBias()
            && Magnitude(f, r) == Scale(m as real, e - f.sw)
  {
    ExponentOrder(f);
    var t := m - Pow2(f.sw);
    Join(m, 1, t, f.sw);
    LowSmall(t, f.sw);
    PackFields(f, sign, e + f.ExponentBias(), t);
  }

  lemma SubnormalPattern(f: Format, sign: bool, m: nat)
    requires f.Valid() && m < Pow2(f.sw)
    ensures var r := Pack(f, sign, 0, m);
            && IsBits(f, r) && IsFinite(f, r) && Sign(f, r) == sign
            && Magnitude(f, r) == Scale(m as real, f.MinimumExponent() - f.sw)
  {
    ExponentOrder(f);
    PackFields(f, sign, 0, m);
  }

  /** What the kernel computes in the normal range, as a function of the rounded significand. */
  lemma NormalOutcome(f: Format, mode: RoundingMode, sign: bool, e: int, s: nat)
    requires f.Valid() && s < Pow2(f.HolderWidth())
    requires f.MinimumExponent() <= e <= f.MaximumExponent()
    ensures var (inexact, m) := RoundSignificand(mode, sign, s);
            var flags := Flags(inexact, false, false, false, false);
            Round(f, mode, sign, e, s) ==
            if inexact && m == Pow2(f.sw + 1) then
              if e == f.MaximumExponent() then RoundOverflow(f, mode, sign)
              else Outcome(Pack(f, sign, e + 1 + f.ExponentBias(), Pow2(f.sw)), flags)
            else Outcome(Pack(f, sign, e + f.ExponentBias(), m), flags)
  {
    assert Pow2(f.sw + 1) / 2 == Pow2(f.sw);
  }

  /** In the normal range there is one last place, and nothing underflows. */
  lemma NormalRoundedIn(f: Format, mode: RoundingMode, sign: bool, x: real, e: int, o: Outcome)
    requires f.Valid() && Binade(x, e) && f.MinimumExponent() <= e
    ensures var rounded := Scale(RoundInt(mode, sign, Scale(x, f.sw - e)) as real, e - f.sw);
            RoundedIn(f, mode, sign, x, e, o) <==>
            if rounded >= R2(f.MaximumExponent() + 1) then
              o == Outcome(OverflowBits(f, mode, sign), Flags(true, false, true, false, false))
            else
              && IsBits(f, o.bits) && IsFinite(f, o.bits) && Sign(f, o.bits) == sign && Magnitude(f, o.bits) == rounded
              && o.flags == Flags(rounded != x, false, false, false, false)
  {
    hide Scale, RoundInt, Magnitude, IsBits, IsFinite, Sign, OverflowBits;
    RoundIntInBinade(f, mode, sign, x, e);
    R2Mono(f.MinimumExponent(), e);
  }

  lemma RoundNormal(f: Format, mode: RoundingMode, sign: bool, e: int, s: nat, x: real)
    requires f.Valid() && Normalized(f, s) && Denotes(f, e, s, x) && s < Pow2(f.HolderWidth())
    requires f.MinimumExponent() <= e <= f.MaximumExponent()
    ensures RoundedIn(f, mode, sign, x, e, Round(f, mode, sign, e, s))
  {
    hide Scale, RoundInt, RoundedIn, Round, RoundSignificand, Magnitude, Pack, IsBits, IsFinite, Sign, OverflowBits, Denotes, Binade, Pow2;
    var m := RoundSignificand(mode, sign, s).1;
    var o := Round(f, mode, sign, e, s);
    NormalizedBinade(f, e, s, x);
    RoundIntInBinade(f, mode, sign, x, e);
    RoundedAtScale(f, mode, sign, e, s, x);
    NormalOutcome(f, mode, sign, e, s);
    NormalRoundedIn(f, mode, sign, x, e, o);
    R2Mono(e + 1, f.MaximumExponent() + 1);
    if m == Pow2(f.sw + 1) {
      BinadeBelow(x, e);
      if e == f.MaximumExponent() {
        OverflowAgrees(f, mode, sign);
      } else {
        Pow2Mono(f.sw, f.sw + 1);
        NormalPattern(f, sign, e + 1, Pow2(f.sw));
        PowerAt(f.sw, e + 1);
        R2Mono(e + 1, f.MaximumExponent());
        R2Mono(f.MaximumExponent(), f.MaximumExponent() + 1);
      }
    } else {
      NormalPattern(f, sign, e, m);
    }
  }

  lemma BinadeBelow(x: real, e: int)
    requires Binade(x, e)
    ensures x < R2(e + 1)
  {
  }

  /** Rounding to one more bit reaches the next power of two only if rounding does. */
  lemma HalfPrecision(mode: RoundingMode, sign: bool, y: real, n: int)
    requires y < n as real
    requires RoundInt(mode, sign, 2.0 * y) == 2 * n
    ensures RoundInt(mode, sign, y) == n
  {
    assert (2.0 * y).Floor == 2 * n - 1;
    assert y.Floor == n - 1;
  }

  /** What the kernel computes below the normal range. */
  lemma SubnormalOutcome(f: Format, mode: RoundingMode, sign: bool, e: int, s: nat)
    requires f.Valid() && s < Pow2(f.HolderWidth()) && e < f.MinimumExponent()
    requires RoundSignificand(mode, sign, RightShift(f.HolderWidth(), s, f.MinimumExponent() - e)).1 <= Pow2(f.sw)
    ensures var (inexact, m) :=
              RoundSignificand(mode, sign, RightShift(f.HolderWidth(), s, f.MinimumExponent() - e));
            Round(f, mode, sign, e, s) ==
            if m == Pow2(f.sw) then
              Outcome(Pack(f, sign, 1, 0),
                      Flags(inexact, RoundSignificand(mode, sign, s).1 != Pow2(f.sw + 1), false, false, false))
            else Outcome(Pack(f, sign, 0, m), Flags(inexact, inexact, false, false, false))
  {
    ExponentOrder(f);
  }

  /** When rounding below the normal range is inexact, when the result is tiny. */
  lemma SubnormalTiny(f: Format, mode: RoundingMode, sign: bool, e: int, x: real)
    requires f.Valid() && Binade(x, e) && e < f.MinimumExponent()
    ensures var lo := f.MinimumExponent();
            var m := RoundInt(mode, sign, Scale(x, f.sw - lo));
            var m' := RoundInt(mode, sign, Scale(x, f.sw - e));
            && (m == Pow2(f.sw) ==> (Scale(m' as real, e - f.sw) < R2(lo) <==> m' != Pow2(f.sw + 1)))
            && (m < Pow2(f.sw) ==> Scale(m' as real, e - f.sw) < R2(lo))
  {
    var lo := f.MinimumExponent();
    RoundIntInBinade(f, mode, sign, x, e);
    SubnormalBound(f, mode, sign, e, x);
    R2Mono(e + 1, lo);
    var m, m' := RoundInt(mode, sign, Scale(x, f.sw - lo)), RoundInt(mode, sign, Scale(x, f.sw - e));
    if m < Pow2(f.sw) && e == lo - 1 && m' == Pow2(f.sw + 1) {
      ScaleStep(x, f.sw - lo);
      HalfPrecision(mode, sign, Scale(x, f.sw - lo), Pow2(f.sw));
    }
  }

  /** The definition of a correct result, unfolded below the normal range. */
  lemma SubnormalRoundedIn(f: Format, mode: RoundingMode, sign: bool, x: real, e: int, o: Outcome,
                           rounded: real, unbounded: real)
    requires f.Valid() && e < f.MinimumExponent()
    requires rounded == Scale(RoundInt(mode, sign, Scale(x, f.sw - f.MinimumExponent())) as real,
                              f.MinimumExponent() - f.sw)
    requires unbounded == Scale(RoundInt(mode, sign, Scale(x, f.sw - e)) as real, e - f.sw)
    requires rounded < R2(f.MaximumExponent() + 1)
    requires IsBits(f, o.bits) && IsFinite(f, o.bits) && Sign(f, o.bits) == sign
    requires Magnitude(f, o.bits) == rounded
    requires o.flags == Flags(rounded != x, rounded != x && unbounded < R2(f.MinimumExponent()), false, false, false)
    ensures RoundedIn(f, mode, sign, x, e, o)
  {
  }

  lemma RoundSubnormal(f: Format, mode: RoundingMode, sign: bool, e: int, s: nat, x: real)
    requires f.Valid() && Normalized(f, s) && Denotes(f, e, s, x) && s < Pow2(f.HolderWidth())
    requires e < f.MinimumExponent()
    ensures RoundedIn(f, mode, sign, x, e, Round(f, mode, sign, e, s))
  {
    var lo := f.MinimumExponent();
    var shifted := RightShift(f.HolderWidth(), s, lo - e);
    NormalizedBinade(f, e, s, x);
    ShiftDenotes(f, f.HolderWidth(), e, s, lo - e, x);
    RoundedAtScale(f, mode, sign, lo, shifted, x);
    RoundedAtScale(f, mode, sign, e, s, x);
    SubnormalBound(f, mode, sign, e, x);
    SubnormalTiny(f, mode, sign, e, x);
    SubnormalOutcome(f, mode, sign, e, s);
    var m, m' := RoundSignificand(mode, sign, shifted).1, RoundSignificand(mode, sign, s).1;
    var o := Round(f, mode, sign, e, s);
    LeastNormal(f, sign, m);
    R2Mono(e + 1, lo);
    if m != Pow2(f.sw) {
      SubnormalPattern(f, sign, m);
    }
    SubnormalRoundedIn(f, mode, sign, x, e, o, Scale(m as real, lo - f.sw), Scale(m' as real, e - f.sw));
  }

  lemma LeastNormal(f: Format, sign: bool, m: nat)
    requires f.Valid() && m <= Pow2(f.sw)
    ensures Scale(m as real, f.MinimumExponent() - f.sw) <= R2(f.MinimumExponent()) < R2(f.MaximumExponent() + 1)
    ensures m == Pow2(f.sw) ==> Scale(m as real, f.MinimumExponent() - f.sw) == R2(f.MinimumExponent())
    ensures var r := Pack(f, sign, 1, 0);
            IsBits(f, r) && IsFinite(f, r) && Sign(f, r) == sign && Magnitude(f, r) == R2(f.MinimumExponent())
  {
    var lo := f.MinimumExponent();
    PowerAt(f.sw, lo);
    ExponentOrder(f);
    R2Mono(lo, f.MaximumExponent() + 1);
    ScaleMono(m as real, Pow2(f.sw) as real, lo - f.sw);
    PackFields(f, sign, 1, 0);
  }

  /** Below the normal range the rounded significand stays within the trailing bits, up to the least normal. */
  lemma SubnormalBound(f: Format, mode: RoundingMode, sign: bool, e: int, x: real)
    requires f.Valid() && Binade(x, e) && e < f.MinimumExponent()
    ensures var m := RoundInt(mode, sign, Scale(x, f.sw - f.MinimumExponent()));
            && 0 <= m <= Pow2(f.sw)
            && Scale(x, f.sw - f.MinimumExponent()) < Pow2(f.sw) as real
            && (m == Pow2(f.sw) ==> e == f.MinimumExponent() - 1)
  {
    var lo := f.MinimumExponent();
    var y := Scale(x, f.sw - lo);
    R2Mono(e, e);
    ScaleSign(x, f.sw - lo);
    R2Mono(e + 1, lo);
    ScaleMono(x, R2(lo), f.sw - lo);
    PowerAt(f.sw, lo);
    ScaleCompose(Pow2(f.sw) as real, lo - f.sw, f.sw - lo);
    RoundIntBounds(mode, sign, y, 0, Pow2(f.sw));
    if e < lo - 1 {
      R2Mono(e + 1, lo - 1);
      ScaleMono(x, R2(lo - 1), f.sw - lo);
      PowerAt(f.sw - 1, lo - 1);
      ScaleCompose(Pow2(f.sw - 1) as real, lo - f.sw, f.sw - lo);
      RoundIntBounds(mode, sign, y, 0, Pow2(f.sw - 1));
    }
  }

  /** A normalized sticky significand is rounded correctly, with exactly the required flags. */
  lemma RoundCorrect(f: Format, mode: RoundingMode, sign: bool, e: int, s: nat, x: real)
    requires f.Valid() && Normalized(f, s) && Denotes(f, e, s, x)
    ensures s < Pow2(f.HolderWidth())
    ensures RoundsTo(f, mode, sign, x, Round(f, mode, sign, e, s))
  {
    Pow2Mono(f.sw + 3, f.HolderWidth());
    NormalizedBinade(f, e, s, x);
    if e > f.MaximumExponent() {
      RoundHuge(f, mode, sign, e, s, x);
    } else if e >= f.MinimumExponent() {
      RoundNormal(f, mode, sign, e, s, x);
    } else {
      RoundSubnormal(f, mode, sign, e, s, x);
    }
  }
}
