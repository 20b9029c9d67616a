/** Significands taken out of their packed form, and brought back to the normal position. */
module FloatArith {
  import opened Powers
  import opened FloatFormat
  import opened FloatRounding
  import opened Sticky
  import opened FloatKernel

  // ---- taking operands apart

  /** Exponent and significand of a finite number; the leading bit of a subnormal one may be clear. */
  function GetSignificand(f: Format, x: nat): (int, nat)
    requires f.Valid()
  {
    if BiasedExponent(f, x) == 0 then (f.MinimumExponent(), TrailingSignificand(f, x) * 4)
    else (BiasedExponent(f, x) - f.ExponentBias(), (TrailingSignificand(f, x) + Pow2(f.sw)) * 4)
  }

  /** Exponent and significand of a finite non-zero number, with the leading bit in its normalized place. */
  function GetNormalizedSignificand(f: Format, x: nat): (int, nat)
    requires f.Valid() && IsFinite(f, x) && !IsZero(f, x)
  {
    if BiasedExponent(f, x) == 0 then
      var t := TrailingSignificand(f, x);
      TrailingLog(f, x);
      var widthDiff: nat := f.sw - Log2Floor(t);
      (f.MinimumExponent() - widthDiff, Shl(t, widthDiff + 2))
    else GetSignificand(f, x)
  }

  lemma TrailingLog(f: Format, x: nat)
    requires TrailingSignificand(f, x) > 0
    ensures Log2Floor(TrailingSignificand(f, x)) < f.sw
  {
    var k := Log2Floor(TrailingSignificand(f, x));
    if k >= f.sw {
      Pow2Mono(f.sw, k);
    }
  }

  ghost predicate Exactly(f: Format, exponent: int, t: nat, x: real) {
    Scale(x, f.sw + 2 - exponent) == t as real
  }

  lemma ExactlyIff(f: Format, exponent: int, t: nat, x: real)
    ensures Exactly(f, exponent, t, x) <==> x == Scale(t as real, exponent - f.sw - 2)
  {
    ScaleCompose(x, f.sw + 2 - exponent, exponent - f.sw - 2);
    ScaleCompose(t as real, exponent - f.sw - 2, f.sw + 2 - exponent);
  }

  lemma ScaleQuarter(t: nat, n: int)
    ensures Scale((4 * t) as real, n - 2) == Scale(t as real, n)
  {
    ScaleStep(t as real, n - 2);
    ScaleStep(t as real, n - 1);
    ScaleSum(t as real, t as real, n - 2);
    ScaleSum(2.0 * t as real, 2.0 * t as real, n - 2);
  }

  lemma SignificandExact(f: Format, x: nat)
    requires f.Valid() && IsFinite(f, x)
    ensures var (e, s) := GetSignificand(f, x);
            && Exactly(f, e, s, Magnitude(f, x)) && s % 4 == 0 && s < Pow2(f.sw + 3)
            && (BiasedExponent(f, x) > 0 ==> Normalized(f, s))
  {
    var (e, s) := GetSignificand(f, x);
    ExactlyIff(f, e, s, Magnitude(f, x));
    ScaleQuarter(s / 4, e - f.sw);
    DoublePow2(f.sw);
    DoublePow2(f.sw + 1);
  }

  lemma NormalizedSignificandExact(f: Format, x: nat)
    requires f.Valid() && IsFinite(f, x) && !IsZero(f, x)
    ensures var (e, s) := GetNormalizedSignificand(f, x);
            Exactly(f, e, s, Magnitude(f, x)) && s % 4 == 0 && Normalized(f, s)
  {
    SignificandExact(f, x);
    if BiasedExponent(f, x) == 0 {
      var t := TrailingSignificand(f, x);
      TrailingLog(f, x);
      var w: nat := f.sw - Log2Floor(t);
      LeftShiftedLog(t, w + 2, f.sw + 2);
      ExactlyIff(f, f.MinimumExponent() + 2, t, Magnitude(f, x));
      LeftShiftExact(f, f.MinimumExponent() + 2, t, w + 2, Magnitude(f, x));
      assert Shl(t, w + 2) == 4 * Shl(t, w);
    }
  }

  /** A left shift moves the leading one. */
  lemma LeftShiftedLog(t: nat, n: nat, k: nat)
    requires t > 0 && Log2Floor(t) + n == k
    ensures Pow2(k) <= Shl(t, n) < Pow2(k + 1)
  {
    hide Shl, Log2Floor;
    var j := Log2Floor(t);
    ShlCompose(1, j, n);
    ShlCompose(1, j + 1, n);
    ShlMono(t, Pow2(j), n);
    ShlMono(t, Pow2(j + 1), n);
  }

  /** Shifting an exact significand left changes nothing but the exponent. */
  lemma LeftShiftExact(f: Format, exponent: int, t: nat, n: nat, x: real)
    requires Exactly(f, exponent, t, x)
    ensures Exactly(f, exponent - n, Shl(t, n), x)
  {
    ScaleCompose(x, f.sw + 2 - exponent, n);
    ScaleShl(t, n);
  }

  // ---- normalizing and rounding

  /** Normalization keeps what a significand stands for, provided no sticky bit is shifted left. */
  lemma NormalizeCorrect(f: Format, width: nat, exponent: int, t: nat, x: real)
    requires f.Valid() && 0 < t < Pow2(width) && Denotes(f, exponent, t, x)
    requires Exactly(f, exponent, t, x) || t >= Pow2(f.sw + 2)
    ensures var (e, s) := Normalize(f, width, exponent, t); Denotes(f, e, s, x)
  {
    hide RightShift, Log2Floor;
    var k := Log2Floor(t);
    var shift := k - 2 - f.sw;
    if shift <= 0 {
      if shift < 0 && t >= Pow2(f.sw + 2) {
        Pow2Mono(k + 1, f.sw + 2);
      }
      if shift != 0 {
        LeftShiftExact(f, exponent, t, -shift, x);
      }
    } else {
      ShiftDenotes(f, width, exponent, t, shift, x);
    }
  }

  lemma NormalizeRange(f: Format, width: nat, exponent: int, t: nat)
    requires f.Valid() && 0 < t < Pow2(width)
    ensures Normalized(f, Normalize(f, width, exponent, t).1)
    ensures Normalize(f, width, exponent, t).1 < Pow2(f.HolderWidth())
  {
    hide Shl, RightShift, Log2Floor;
    Pow2Mono(f.sw + 3, f.HolderWidth());
    var k := Log2Floor(t);
    var shift := k - 2 - f.sw;
    var s := Normalize(f, width, exponent, t).1;
    if shift <= 0 {
      LeftShiftedLog(t, -shift, f.sw + 2);
    } else {
      RightShiftRange(width, t, shift, f.sw + 2);
    }
  }

  lemma RightShiftRange(width: nat, t: nat, n: nat, k: nat)
    requires t < Pow2(width) && Pow2(n + k) <= t < Pow2(n + k + 1)
    ensures Pow2(k) <= RightShift(width, t, n) < Pow2(k + 1)
  {
    QuotientBounds(t, n, k);
    QuotientBounds(t, n, k + 1);
    RightShiftDigits(width, t, n);
    ShlEven(1, k + 1);
  }

  lemma QuotientBounds(t: nat, n: nat, k: nat)
    ensures Shr(t, n) < Pow2(k) <==> t < Pow2(n + k)
    ensures t == Pow2(n + k) ==> Shr(t, n) == Pow2(k) && Low(t, n) == 0
  {
    ShrRange(t, n);
    ShlCompose(1, k, n);
    ShlMono(Shr(t, n), Pow2(k), n);
    ShlMono(Shr(t, n) + 1, Pow2(k), n);
    if t == Pow2(n + k) {
      Join(t, Pow2(k), 0, n);
    }
  }

  /** Shifting right never raises a value above a power of two it did not exceed. */
  lemma RightShiftBound(width: nat, t: nat, n: nat, k: nat)
    requires t < Pow2(width) && t <= Pow2(n + k)
    ensures RightShift(width, t, n) <= Pow2(k)
    ensures t < Pow2(n + k) && k > 0 ==> RightShift(width, t, n) < Pow2(k)
  {
    QuotientBounds(t, n, k);
    RightShiftDigits(width, t, n);
    if k > 0 {
      ShlEven(1, k);
    }
  }

  function NormalizeAndRound(f: Format, width: nat, mode: RoundingMode, sign: bool, exponent: int, t: nat): Outcome
    requires f.Valid() && 0 < t < Pow2(width)
  {
    NormalizeRange(f, width, exponent, t);
    var (e, s) := Normalize(f, width, exponent, t);
    Round(f, mode, sign, e, s)
  }

  lemma NormalizeAndRoundCorrect(f: Format, width: nat, mode: RoundingMode, sign: bool, exponent: int, t: nat, x: real)
    requires f.Valid() && 0 < t < Pow2(width) && Denotes(f, exponent, t, x)
    requires Exactly(f, exponent, t, x) || t >= Pow2(f.sw + 2)
    ensures RoundsTo(f, mode, sign, x, NormalizeAndRound(f, width, mode, sign, exponent, t))
  {
    NormalizeRange(f, width, exponent, t);
    NormalizeCorrect(f, width, exponent, t, x);
    var (e, s) := Normalize(f, width, exponent, t);
    RoundCorrect(f, mode, sign, e, s, x);
  }
}
