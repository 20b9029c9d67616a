/**
 That the rounding definition means what the standard says: no representable number
 lies closer to, or on the chosen side of, the exact value; and it determines the result.
 */
module FloatSpec {
  import opened Powers
  import opened FloatFormat
  import opened FloatRounding
  import opened FloatKernel
  import opened FloatArith
  import opened FloatAdd
  import opened FloatSqrt

  /** The last place of a result in the binade of `e`. */
  function LastPlace(f: Format, e: int): int
    requires f.Valid()
  {
    Max(e, f.MinimumExponent()) - f.sw
  }

  function Abs(x: real): real {
    if x < 0.0 then -x else x
  }

  /** A finite magnitude as an integer at its own last place, which is at most the given one or beyond it. */
  lemma MagnitudeShape(f: Format, y: nat) returns (m: nat, q: int)
    requires f.Valid() && IsBits(f, y) && IsFinite(f, y)
    ensures Magnitude(f, y) == Scale(m as real, q) && m < Pow2(f.sw + 1)
    ensures f.MinimumExponent() - f.sw <= q
  {
    FieldsPack(f, y);
    ExponentOrder(f);
    DoublePow2(f.sw);
    m := TrailingSignificand(f, y);
    q := f.MinimumExponent() - f.sw;
    if BiasedExponent(f, y) > 0 {
      m := m + Pow2(f.sw);
      q := BiasedExponent(f, y) - f.ExponentBias() - f.sw;
    }
  }

  /** No representable number lies strictly between the two neighbours of `x` at its last place. */
  lemma NoneBetween(f: Format, x: real, e: int, y: nat)
    requires f.Valid() && Binade(x, e) && IsBits(f, y) && IsFinite(f, y)
    ensures var q := LastPlace(f, e); var d := Scale(x, -q).Floor;
            Magnitude(f, y) <= Scale(d as real, q) || Magnitude(f, y) >= Scale((d + 1) as real, q)
  {
    hide Magnitude, IsFinite, Scale, Binade;
    var q := LastPlace(f, e);
    var d := Scale(x, -q).Floor;
    var m, qy := MagnitudeShape(f, y);
    if qy >= q {
      MultipleOutside(m, qy, q, d);
    } else {
      BelowBinade(f, x, e, m, qy);
    }
  }

  lemma MultipleOutside(m: nat, qy: int, q: int, d: int)
    requires qy >= q
    ensures Scale(m as real, qy) <= Scale(d as real, q) || Scale(m as real, qy) >= Scale((d + 1) as real, q)
  {
    hide Scale;
    var k := Shl(m, qy - q);
    ScaleCompose(m as real, qy - q, q);
    ScaleShl(m, qy - q);
    if k <= d {
      ScaleMono(d as real, k as real, q);
    } else {
      ScaleMono(k as real, (d + 1) as real, q);
    }
  }

  lemma BelowBinade(f: Format, x: real, e: int, m: nat, qy: int)
    requires f.Valid() && Binade(x, e) && m < Pow2(f.sw + 1) && qy < e - f.sw
    ensures Scale(m as real, qy) <= Scale(Scale(x, f.sw - e).Floor as real, e - f.sw)
  {
    hide Scale;
    RoundIntInBinade(f, TowardZero, false, x, e);
    assert RoundInt(TowardZero, false, Scale(x, f.sw - e)) == Scale(x, f.sw - e).Floor;
    ScaleMono(m as real, Pow2(f.sw + 1) as real, qy);
    PowerAt(f.sw + 1, qy + f.sw + 1);
    R2Mono(qy + f.sw + 1, e);
  }

  /** The neighbours of `x` at its last place. */
  lemma Neighbours(x: real, q: int)
    ensures var d := Scale(x, -q).Floor;
            && Scale(d as real, q) <= x < Scale((d + 1) as real, q)
            && Scale((d + 1) as real, q) - Scale(d as real, q) == R2(q)
            && (x == Scale(d as real, q) <==> Scale(x, -q) == d as real)
            && x - Scale(d as real, q) == Scale(Scale(x, -q) - d as real, q)
  {
    var y := Scale(x, -q);
    var d := y.Floor;
    ScaleCompose(x, -q, q);
    ScaleMono(y, d as real, q);
    ScaleMono(y, (d + 1) as real, q);
    ScaleSum(d as real, 1.0, q);
    ScaleSum(y, d as real, q);
  }

  /** Rounding to nearest: no representable number is closer to the exact magnitude than the result. */
  lemma Nearest(f: Format, mode: RoundingMode, sign: bool, x: real, o: Outcome, y: nat)
    requires f.Valid() && RoundsTo(f, mode, sign, x, o) && !o.flags.overflow
    requires mode == TiesToEven || mode == TiesToAway
    requires IsBits(f, y) && IsFinite(f, y)
    ensures Abs(x - Magnitude(f, o.bits)) <= Abs(x - Magnitude(f, y))
  {
    hide Magnitude, IsFinite, Scale, IsBits;
    var e :| Binade(x, e) && RoundedIn(f, mode, sign, x, e, o);
    var q := LastPlace(f, e);
    var d := Scale(x, -q).Floor;
    NoneBetween(f, x, e, y);
    Neighbours(x, q);
    HalfWay(Scale(x, -q) - d as real, q);
  }

  /** Comparing a fraction with one half is comparing its scaled distance with half the gap. */
  lemma HalfWay(frac: real, q: int)
    ensures frac < 0.5 <==> 2.0 * Scale(frac, q) < R2(q)
    ensures frac == 0.5 <==> 2.0 * Scale(frac, q) == R2(q)
  {
    ScaleSum(frac, frac, q);
    ScaleMono(frac + frac, 1.0, q);
  }

  /** Does the mode round magnitudes of this sign up? */
  predicate RoundsUp(mode: RoundingMode, sign: bool) {
    (mode == TowardPositive && !sign) || (mode == TowardNegative && sign)
  }

  /** Directed rounding: the result is on the required side, and no representable number there is closer. */
  lemma Directed(f: Format, mode: RoundingMode, sign: bool, x: real, o: Outcome, y: nat)
    requires f.Valid() && RoundsTo(f, mode, sign, x, o) && !o.flags.overflow
    requires mode == TowardZero || mode == TowardNegative || mode == TowardPositive
    requires IsBits(f, y) && IsFinite(f, y)
    ensures var r, m := Magnitude(f, o.bits), Magnitude(f, y);
            if RoundsUp(mode, sign) then x <= r && (x <= m ==> r <= m)
            else r <= x && (m <= x ==> m <= r)
  {
    hide Magnitude, IsFinite, Scale, IsBits;
    var e :| Binade(x, e) && RoundedIn(f, mode, sign, x, e, o);
    NoneBetween(f, x, e, y);
    Neighbours(x, LastPlace(f, e));
  }

  /** A finite pattern is determined by its sign and magnitude. */
  lemma MagnitudeInjective(f: Format, a: nat, b: nat)
    requires f.Valid() && IsBits(f, a) && IsBits(f, b) && IsFinite(f, a) && IsFinite(f, b)
    requires Sign(f, a) == Sign(f, b) && Magnitude(f, a) == Magnitude(f, b)
    ensures a == b
  {
    hide Scale, Shl, Shr, Low;
    if MagnitudeBits(f, a) < MagnitudeBits(f, b) {
      MagnitudeStrict(f, b, a);
    } else if MagnitudeBits(f, b) < MagnitudeBits(f, a) {
      MagnitudeStrict(f, a, b);
    } else {
      MagnitudeOrder(f, a, b);
      MagnitudeOrder(f, b, a);
      FieldsPack(f, a);
      FieldsPack(f, b);
    }
  }

  /** Comparing patterns without their sign bits compares magnitudes. */
  lemma MagnitudeStrict(f: Format, a: nat, b: nat)
    requires f.Valid() && IsBits(f, a) && IsBits(f, b) && IsFinite(f, a) && IsFinite(f, b)
    requires MagnitudeBits(f, b) < MagnitudeBits(f, a)
    ensures Magnitude(f, b) < Magnitude(f, a)
  {
    hide Scale, Shl, Shr, Low, Magnitude;
    MagnitudeOrder(f, a, b);
    FieldsPack(f, a);
    FieldsPack(f, b);
    AlignedOrder(f, a, b);
    SignificandExact(f, a);
    SignificandExact(f, b);
    var (ea, sa) := GetSignificand(f, a);
    var (eb, sb) := GetSignificand(f, b);
    ExactlyIff(f, ea, sa, Magnitude(f, a));
    ExactlyIff(f, eb, sb, Magnitude(f, b));
    if ea == eb {
      ScaleMono(sb as real, sa as real, ea - f.sw - 2);
    } else {
      ScaleMono(sb as real, Pow2(f.sw + 3) as real, eb - f.sw - 2);
      PowerAt(f.sw + 3, eb + 1);
      ScaleMono(sa as real, Pow2(f.sw + 2) as real, ea - f.sw - 2);
      PowerAt(f.sw + 2, ea);
      R2Mono(eb + 1, ea);
    }
  }

  /** The definition leaves no freedom: result and flags are determined. */
  lemma RoundingUnique(f: Format, mode: RoundingMode, sign: bool, x: real, o: Outcome, o': Outcome)
    requires f.Valid() && RoundsTo(f, mode, sign, x, o) && RoundsTo(f, mode, sign, x, o')
    ensures o == o'
  {
    hide Magnitude, Scale, IsBits, IsFinite;
    var e :| Binade(x, e) && RoundedIn(f, mode, sign, x, e, o);
    var e' :| Binade(x, e') && RoundedIn(f, mode, sign, x, e', o');
    BinadeUnique(x, e, e');
    if !o.flags.overflow {
      MagnitudeInjective(f, o.bits, o'.bits);
    }
  }

  /** The flags section 7.2 of IEEE 754-2008 asks of a square root that does not round. */
  function RequiredSqrtFlags(f: Format, a: nat): Flags
    requires f.Valid()
  {
    Flags(false, false, false, false, IsSignaling(f, a) || (!IsNan(f, a) && !IsZero(f, a) && Sign(f, a)))
  }

  /** Square root raises the required flags exactly when its operand is not a signaling NaN. */
  lemma SqrtFlags(f: Format, a: nat)
    requires f.Valid() && !HasRoot(f, a)
    ensures SqrtSpecial(f, a).flags == RequiredSqrtFlags(f, a) <==> !IsSignaling(f, a)
  {
    assert IsSignaling(f, a) ==> SqrtSpecial(f, a).flags.divideByZero;
  }

  /** Every format has such an operand: a NaN with only the last bit of its significand set. */
  lemma SqrtSignalingWitness(f: Format)
    requires f.Valid()
    ensures var a := Pack(f, false, Pow2(f.ew) - 1, 1);
      && IsBits(f, a) && IsSignaling(f, a) && !HasRoot(f, a)
      && SqrtSpecial(f, a).flags == Flags(false, false, false, true, false)
      && RequiredSqrtFlags(f, a) == Flags(false, false, false, false, true)
  {
    Pow2Mono(1, f.sw);
    PackFields(f, false, Pow2(f.ew) - 1, 1);
    OneBelow(f.sw - 1);
    hide Pack;
  }

  lemma {:induction false} OneBelow(n: nat)
    requires n > 0
    ensures Shr(1, n) == 0
  {
    if n > 1 {
      OneBelow(n - 1);
    }
  }
}
