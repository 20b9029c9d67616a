/**
 Binary interchange formats: the packed representation of a floating-point
 number and the real number it stands for.
 */
module FloatFormat {
  import opened Powers

  /**
   `ew` and `sw` are the exponent and trailing significand widths; `dw` is the
   bit width of the integer type that holds double-length intermediate results.
   */
  datatype Format = Format(ew: nat, sw: nat, dw: nat) {
    /** Widths for which every intermediate result fits its holder. */
    predicate Valid() {
      ew >= 3 && sw >= 2 && dw >= 2 * sw + 5
    }

    /** Bit width of the packed representation, which also holds significands. */
    function HolderWidth(): nat {
      1 + ew + sw
    }

    function InfinityBiasedExponent(): int {
      Pow2(ew) - 1
    }

    function ExponentBias(): int
      requires Valid()
    {
      Pow2(ew - 1) - 1
    }

    function MinimumExponent(): int
      requires Valid()
    {
      1 - ExponentBias()
    }

    function MaximumExponent(): int
      requires Valid()
    {
      InfinityBiasedExponent() - 1 - ExponentBias()
    }
  }

  const F32 := Format(8, 23, 64)
  const F64 := Format(11, 52, 128)

  /** Packed bit patterns of a format. */
  predicate IsBits(f: Format, x: nat) {
    x < Pow2(f.HolderWidth())
  }

  function Sign(f: Format, x: nat): bool {
    Shr(x, f.ew + f.sw) != 0
  }

  function BiasedExponent(f: Format, x: nat): nat {
    Low(Shr(x, f.sw), f.ew)
  }

  function TrailingSignificand(f: Format, x: nat): nat {
    Low(x, f.sw)
  }

  /** Everything but the sign bit; the source compares magnitudes through it. */
  function MagnitudeBits(f: Format, x: nat): nat {
    Low(x, f.ew + f.sw)
  }

  /** Assembles the three fields, keeping only as many low bits as each field has. */
  function Pack(f: Format, sign: bool, biased: nat, trailing: nat): nat {
    Shl(if sign then 1 else 0, f.ew + f.sw) + Shl(Low(biased, f.ew), f.sw) + Low(trailing, f.sw)
  }

  /** A number written with `ew` bits above `sw` bits, and one more digit `s` above both. */
  lemma ThreeDigits(s: nat, b: nat, t: nat, ew: nat, sw: nat, x: nat)
    requires b < Pow2(ew) && t < Pow2(sw) && x == Shl(s, ew + sw) + Shl(b, sw) + t
    ensures Shl(b, sw) + t < Pow2(ew + sw)
    ensures Shr(x, ew + sw) == s && Low(x, ew + sw) == Shl(b, sw) + t
    ensures Low(x, sw) == t && Shr(x, sw) == Shl(s, ew) + b && Low(Shr(x, sw), ew) == b
  {
    hide Shl, Shr, Low;
    ShlCompose(1, ew, sw);
    ShlSum(b, 1, sw);
    ShlMono(Pow2(ew), b + 1, sw);
    Join(x, s, Shl(b, sw) + t, ew + sw);
    ShlCompose(s, ew, sw);
    ShlSum(Shl(s, ew), b, sw);
    Join(x, Shl(s, ew) + b, t, sw);
    Join(Shl(s, ew) + b, s, b, ew);
  }

  /** The fields of a packed pattern are the ones it was packed from. */
  lemma PackFields(f: Format, sign: bool, biased: nat, trailing: nat)
    requires biased < Pow2(f.ew) && trailing < Pow2(f.sw)
    ensures var x := Pack(f, sign, biased, trailing);
            && IsBits(f, x)
            && Sign(f, x) == sign
            && BiasedExponent(f, x) == biased
            && TrailingSignificand(f, x) == trailing
            && MagnitudeBits(f, x) == Shl(biased, f.sw) + trailing
  {
    hide Shl, Shr, Low;
    var w, s := f.ew + f.sw, if sign then 1 else 0;
    LowSmall(biased, f.ew);
    LowSmall(trailing, f.sw);
    ShlZero(w);
    ThreeDigits(s, biased, trailing, f.ew, f.sw, Pack(f, sign, biased, trailing));
    DoublePow2(w);
  }

  /** Every pattern is the packing of its fields. */
  lemma FieldsPack(f: Format, x: nat)
    requires IsBits(f, x)
    ensures Pack(f, Sign(f, x), BiasedExponent(f, x), TrailingSignificand(f, x)) == x
    ensures MagnitudeBits(f, x) == Shl(BiasedExponent(f, x), f.sw) + TrailingSignificand(f, x)
  {
    hide Shl, Shr, Low;
    var hi := Shr(x, f.sw);
    var s, b, t := Shr(hi, f.ew), BiasedExponent(f, x), TrailingSignificand(f, x);
    LowShr(x, f.sw);
    LowShr(hi, f.ew);
    ShlSum(Shl(s, f.ew), b, f.sw);
    ShlCompose(s, f.ew, f.sw);
    ThreeDigits(s, b, t, f.ew, f.sw, x);
    DoublePow2(f.ew + f.sw);
    ShlSum(1, 1, f.ew + f.sw);
    ShlMono(s, 2, f.ew + f.sw);
    ShlZero(f.ew + f.sw);
    LowSmall(b, f.ew);
    LowSmall(t, f.sw);
  }

  function QuietNan(f: Format): nat
    requires f.Valid()
  {
    Pack(f, false, Pow2(f.ew) - 1, Pow2(f.sw - 1))
  }

  function Infinity(f: Format, sign: bool): nat {
    Pack(f, sign, Pow2(f.ew) - 1, 0)
  }

  function Zero(f: Format, sign: bool): nat {
    Pack(f, sign, 0, 0)
  }

  function SetSign(f: Format, x: nat, sign: bool): nat {
    Pack(f, sign, BiasedExponent(f, x), TrailingSignificand(f, x))
  }

  predicate IsFinite(f: Format, x: nat) {
    BiasedExponent(f, x) != f.InfinityBiasedExponent()
  }

  predicate IsZero(f: Format, x: nat) {
    BiasedExponent(f, x) == 0 && TrailingSignificand(f, x) == 0
  }

  predicate IsInfinite(f: Format, x: nat) {
    BiasedExponent(f, x) == f.InfinityBiasedExponent() && TrailingSignificand(f, x) == 0
  }

  predicate IsNan(f: Format, x: nat) {
    BiasedExponent(f, x) == f.InfinityBiasedExponent() && TrailingSignificand(f, x) != 0
  }

  /** A NaN whose leading trailing-significand bit is clear. */
  predicate IsSignaling(f: Format, x: nat)
    requires f.Valid()
  {
    IsNan(f, x) && Shr(TrailingSignificand(f, x), f.sw - 1) % 2 == 0
  }

  /** The absolute value a finite pattern stands for. */
  function Magnitude(f: Format, x: nat): real
    requires f.Valid()
  {
    if BiasedExponent(f, x) == 0
    then Scale(TrailingSignificand(f, x) as real, f.MinimumExponent() - f.sw)
    else Scale((Pow2(f.sw) + TrailingSignificand(f, x)) as real,
               BiasedExponent(f, x) - f.ExponentBias() - f.sw)
  }

  /** The number a finite pattern stands for. */
  function Value(f: Format, x: nat): real
    requires f.Valid()
  {
    if Sign(f, x) then -Magnitude(f, x) else Magnitude(f, x)
  }

  lemma MagnitudeSign(f: Format, x: nat)
    requires f.Valid()
    ensures Magnitude(f, x) >= 0.0
    ensures IsFinite(f, x) ==> (Magnitude(f, x) == 0.0 <==> IsZero(f, x))
  {
    var t := TrailingSignificand(f, x);
    ScaleSign(t as real, f.MinimumExponent() - f.sw);
    ScaleSign((Pow2(f.sw) + t) as real, BiasedExponent(f, x) - f.ExponentBias() - f.sw);
  }
}
