/** Digit-by-digit division. */
module FloatDivide {
  import opened Powers
  import opened FloatFormat
  import opened FloatRounding
  import opened Sticky
  import opened FloatKernel
  import opened FloatArith
  import opened FloatAdd
  import opened FloatMul

  // ---- division

  /** The state of the division loop: `rem` times `bit` is what `quotient * b` leaves of `a * 2^(sw+2)`. */
  ghost predicate DivisionInvariant(f: Format, a: nat, b: nat, quotient: nat, bit: nat, rem: nat) {
    && rem * bit + quotient * b == a * Pow2(f.sw + 2)
    && rem < 2 * b
  }

  lemma DivisionInit(f: Format, a: nat, b: nat)
    requires b <= a < 2 * b
    ensures DivisionInvariant(f, a, b, Pow2(f.sw + 2), Pow2(f.sw + 1), 2 * (a - b))
  {
    DoublePow2(f.sw + 1);
    InitProducts(a, b, Pow2(f.sw + 1), Pow2(f.sw + 2));
  }

  lemma InitProducts(a: nat, b: nat, p: nat, p2: nat)
    requires p2 == 2 * p && a >= b
    ensures (2 * (a - b)) * p + p2 * b == a * p2
  {
    var d: nat := a - b;
    assert (2 * d) * p == d * p2;
    assert (d + b) * p2 == d * p2 + b * p2;
  }

  lemma DivisionStep(f: Format, a: nat, b: nat, quotient: nat, half: nat, rem: nat)
    requires DivisionInvariant(f, a, b, quotient, 2 * half, rem)
    ensures rem >= b ==> DivisionInvariant(f, a, b, quotient + 2 * half, half, 2 * (rem - b))
    ensures rem < b ==> DivisionInvariant(f, a, b, quotient, half, 2 * rem)
  {
    HalveProduct(rem, half);
    if rem >= b {
      HalveProduct(rem - b, half);
      StepProducts(rem, b, 2 * half, quotient);
    }
  }

  lemma HalveProduct(r: nat, h: nat)
    ensures (2 * r) * h == r * (2 * h)
  {
  }

  lemma StepProducts(rem: nat, b: nat, bit: nat, quotient: nat)
    requires rem >= b
    ensures rem * bit + quotient * b == (rem - b) * bit + (quotient + bit) * b
  {
    var d: nat := rem - b;
    assert (d + b) * bit == d * bit + b * bit;
    assert (quotient + bit) * b == quotient * b + bit * b;
  }

  /** The loop invariant, with `bit` the `k`-th power of two: no bit of the quotient below the next one is set. */
  ghost predicate DivisionState(f: Format, a: nat, b: nat, quotient: nat, k: nat, rem: nat) {
    && DivisionInvariant(f, a, b, quotient, Pow2(k), rem)
    && quotient == Shl(Shr(quotient, k + 1), k + 1)
    && Pow2(f.sw + 2) <= quotient
    && quotient + 2 * Pow2(k) <= Pow2(f.sw + 3)
  }

  lemma DivisionStateInit(f: Format, a: nat, b: nat)
    requires b <= a < 2 * b
    ensures DivisionState(f, a, b, Pow2(f.sw + 2), f.sw + 1, 2 * (a - b))
  {
    hide DivisionInvariant;
    DivisionInit(f, a, b);
    Join(Pow2(f.sw + 2), 1, 0, f.sw + 2);
    DoublePow2(f.sw + 1);
    DoublePow2(f.sw + 2);
  }

  lemma DivisionStateStep(f: Format, a: nat, b: nat, quotient: nat, k: nat, rem: nat)
    requires k > 0 && DivisionState(f, a, b, quotient, k, rem)
    ensures if rem >= b then DivisionState(f, a, b, quotient + Pow2(k), k - 1, 2 * (rem - b))
            else DivisionState(f, a, b, quotient, k - 1, 2 * rem)
  {
    hide DivisionInvariant;
    DoublePow2(k - 1);
    DivisionStep(f, a, b, quotient, Pow2(k - 1), rem);
    QuotientBit(quotient, k);
  }

  function SetLowBit(n: nat): nat {
    if n % 2 == 0 then n + 1 else n
  }

  /** Digit-by-digit quotient of significands `b <= a < 2 * b`, with a sticky last bit. */
  method DivideSignificands(f: Format, a: nat, b: nat) returns (quotient: nat)
    requires f.Valid() && Normalized(f, b) && b <= a < 2 * b
    ensures Normalized(f, quotient)
    ensures IsSticky(quotient, (a as real / b as real) * Pow2(f.sw + 2) as real)
  {
    hide DivisionState, DivisionInvariant, IsSticky;
    quotient := Pow2(f.sw + 2);
    var bit := Pow2(f.sw + 1);
    var rem: nat := 2 * (a - b);
    ghost var k: nat := f.sw + 1;
    DivisionStateInit(f, a, b);
    RemainderFits(f, a, b, quotient, k, rem);
    while bit != 1
      invariant bit == Pow2(k)
      invariant DivisionState(f, a, b, quotient, k, rem)
      // The scaled remainder fits the holder.
      invariant rem < 2 * b < Pow2(f.HolderWidth())
      decreases bit
    {
      DivisionStateStep(f, a, b, quotient, k, rem);
      DoublePow2(k - 1);
      if rem >= b {
        rem := rem - b;
        quotient := quotient + bit;
      }
      bit := bit / 2;
      rem := 2 * rem;
      k := k - 1;
      RemainderFits(f, a, b, quotient, k, rem);
    }
    PowerOne(k);
    DivisionDone(f, a, b, quotient, rem);
    if rem != 0 {
      quotient := SetLowBit(quotient);
    }
  }

  /** The scaled remainder stays below twice the divisor, so it fits the holder. */
  lemma RemainderFits(f: Format, a: nat, b: nat, quotient: nat, k: nat, rem: nat)
    requires f.Valid() && Normalized(f, b) && DivisionState(f, a, b, quotient, k, rem)
    ensures rem < 2 * b < Pow2(f.HolderWidth())
  {
    DoublePow2(f.sw + 3);
    Pow2Mono(f.sw + 4, f.HolderWidth());
  }

  lemma PowerOne(k: nat)
    ensures Pow2(k) == 1 <==> k == 0
  {
    if k > 0 {
      DoublePow2(k - 1);
    }
  }

  /** The quotient found so far has no bits below the next one to decide. */
  lemma QuotientBit(q: nat, k: nat)
    requires k > 0 && q == Shl(Shr(q, k + 1), k + 1)
    ensures q == Shl(Shr(q, k), k)
    ensures q + Pow2(k) == Shl(Shr(q + Pow2(k), k), k)
  {
    var h := Shr(q, k + 1);
    ShlCompose(h, 1, k);
    Join(q, Shl(h, 1), 0, k);
    ShlSum(Shl(h, 1), 1, k);
    Join(q + Pow2(k), Shl(h, 1) + 1, 0, k);
  }

  /** At the end the quotient and the next even integer bracket the exact quotient. */
  lemma DivisionDone(f: Format, a: nat, b: nat, q: nat, rem: nat)
    requires b > 0 && DivisionState(f, a, b, q, 0, rem)
    ensures q % 2 == 0 && Normalized(f, q) && Normalized(f, q + 1)
    ensures IsSticky(if rem != 0 then q + 1 else q, (a as real / b as real) * Pow2(f.sw + 2) as real)
  {
    hide DivisionInvariant;
    ShlEven(Shr(q, 1), 1);
    DivisionExact(f, a, b, q, rem);
    ExactQuotient(a, b, Pow2(f.sw + 2), q, rem, (a as real / b as real) * Pow2(f.sw + 2) as real);
  }

  lemma DivisionExact(f: Format, a: nat, b: nat, q: nat, rem: nat)
    requires DivisionInvariant(f, a, b, q, 1, rem)
    ensures rem + q * b == a * Pow2(f.sw + 2) && rem < 2 * b
  {
  }

  lemma ExactQuotient(a: nat, b: nat, p: nat, q: nat, rem: nat, x: real)
    requires b > 0 && rem + q * b == a * p && rem < 2 * b
    requires x == (a as real / b as real) * p as real
    ensures rem == 0 ==> x == q as real
    ensures rem > 0 ==> q as real < x < (q + 2) as real
  {
    var B := b as real;
    assert x * B == a as real * p as real by {
      var r := a as real / B;
      assert r * B == a as real;
      Rotate(r, p as real, B);
    }
    CastProduct(a, p);
    CastProduct(q, b);
    assert x * B == rem as real + q as real * B;
    CompareScaled(x, q as real, B, rem as real);
  }

  lemma Rotate(r: real, p: real, b: real)
    ensures (r * p) * b == (r * b) * p
  {
  }

  lemma CompareScaled(x: real, q: real, b: real, rem: real)
    requires b > 0.0 && x * b == rem + q * b && 0.0 <= rem < 2.0 * b
    ensures rem == 0.0 ==> x == q
    ensures rem > 0.0 ==> q < x < q + 2.0
  {
    var d := x - q;
    assert d * b == rem by {
      assert (x - q) * b == x * b - q * b;
    }
    ProductSign(d, b);
    ProductSign(d - 2.0, b);
    assert (d - 2.0) * b == d * b - 2.0 * b;
  }

  lemma ProductSign(d: real, b: real)
    requires b > 0.0
    ensures d > 0.0 <==> d * b > 0.0
    ensures d == 0.0 <==> d * b == 0.0
  {
  }

  lemma QuotientForm(y: real, a: real, b: real, p: real, ap: real)
    requires b > 0.0 && ap == a * p && y * b == ap
    ensures y == (a / b) * p
  {
    var r := a / b;
    assert r * b == a;
    Rotate(r, p, b);
    assert (r * p) * b == y * b;
    CancelRight(r * p, y, b);
  }

  lemma CancelRight(x: real, y: real, b: real)
    requires b > 0.0 && x * b == y * b
    ensures x == y
  {
    assert (x - y) * b == 0.0;
  }

  /** The exact quotient of two magnitudes, at the scale of the quotient of their significands. */
  lemma ScaledQuotient(f: Format, ea: int, sa: nat, eb: int, sb: nat, A: real, B: real, x: real)
    requires Exactly(f, ea, sa, A) && Exactly(f, eb, sb, B) && sb > 0 && x * B == A
    ensures Scale(x, f.sw + 2 - (ea - eb)) == (sa as real / sb as real) * Pow2(f.sw + 2) as real
  {
    var n := f.sw + 2;
    ScaleProduct(x, B, A, n - (ea - eb), n - eb);
    ScaleCompose(A, n - ea, n);
    ScaleShl(sa, n);
    var y := Scale(x, n - (ea - eb));
    assert y * sb as real == Shl(sa, n) as real;
    ShlProduct(sa, 1, n);
    CastProduct(sa, Pow2(n));
    QuotientForm(y, sa as real, sb as real, Pow2(n) as real, Shl(sa, n) as real);
  }

  /** The significand quotient, rounded at the exponent the source computes, is the rounded exact quotient. */
  lemma QuotientRounds(f: Format, mode: RoundingMode, sign: bool, ea: int, sa: nat, eb: int, sb: nat,
                       A: real, B: real, q: nat)
    requires f.Valid() && Exactly(f, ea, sa, A) && Exactly(f, eb, sb, B) && sb > 0 && B > 0.0
    requires Normalized(f, q) && IsSticky(q, (sa as real / sb as real) * Pow2(f.sw + 2) as real)
    ensures q < Pow2(f.HolderWidth())
    ensures RoundsTo(f, mode, sign, A / B, Round(f, mode, sign, ea - eb, q))
  {
    hide Round, RoundsTo, Normalized, Exactly;
    var x := A / B;
    assert x * B == A;
    ScaledQuotient(f, ea, sa, eb, sb, A, B, x);
    RoundCorrect(f, mode, sign, ea - eb, q, x);
  }

  /** What division returns when an operand is a NaN, an infinity or a zero. */
  function DivideSpecial(f: Format, a: nat, b: nat): Outcome
    requires f.Valid()
  {
    var sign := Sign(f, a) != Sign(f, b);
    if IsNan(f, a) || IsNan(f, b) then PropagateNan(f, a, b)
    else if (IsInfinite(f, a) && IsInfinite(f, b)) || (IsZero(f, a) && IsZero(f, b)) then InvalidOperation(f)
    else if IsInfinite(f, a) then Outcome(Infinity(f, sign), NoFlags)
    else if IsInfinite(f, b) || IsZero(f, a) then Outcome(Zero(f, sign), NoFlags)
    else Outcome(Infinity(f, sign), Flags(false, false, false, true, false))
  }

  method Divide(f: Format, mode: RoundingMode, a: nat, b: nat) returns (o: Outcome)
    requires f.Valid() && IsBits(f, a) && IsBits(f, b)
    ensures IsFinite(f, a) && IsFinite(f, b) && !IsZero(f, a) && !IsZero(f, b) ==>
              Magnitude(f, b) > 0.0 &&
              RoundsTo(f, mode, Sign(f, a) != Sign(f, b), Magnitude(f, a) / Magnitude(f, b), o)
    ensures !IsFinite(f, a) || !IsFinite(f, b) || IsZero(f, a) || IsZero(f, b) ==> o == DivideSpecial(f, a, b)
  {
    hide Magnitude, RoundsTo, Round, GetNormalizedSignificand, IsSticky, Exactly;
    if IsNan(f, a) || IsNan(f, b) {
      return PropagateNan(f, a, b);
    }
    var sign := Sign(f, a) != Sign(f, b);
    if IsInfinite(f, a) {
      if IsInfinite(f, b) {
        return InvalidOperation(f);
      }
      return Outcome(Infinity(f, sign), NoFlags);
    }
    if IsInfinite(f, b) {
      return Outcome(Zero(f, sign), NoFlags);
    }
    if IsZero(f, a) {
      if IsZero(f, b) {
        return InvalidOperation(f);
      }
      return Outcome(Zero(f, sign), NoFlags);
    }
    if IsZero(f, b) {
      return Outcome(Infinity(f, sign), Flags(false, false, false, true, false));
    }
    o := DivideFinite(f, mode, a, b, sign);
  }

  method DivideFinite(f: Format, mode: RoundingMode, a: nat, b: nat, sign: bool) returns (o: Outcome)
    requires f.Valid() && IsFinite(f, a) && IsFinite(f, b) && !IsZero(f, a) && !IsZero(f, b)
    ensures Magnitude(f, b) > 0.0
    ensures RoundsTo(f, mode, sign, Magnitude(f, a) / Magnitude(f, b), o)
  {
    hide Magnitude, RoundsTo, Round, GetNormalizedSignificand, IsSticky, Exactly, IsFinite, IsZero;
    var (ea, sa) := GetNormalizedSignificand(f, a);
    var (eb, sb) := GetNormalizedSignificand(f, b);
    NormalizedSignificandExact(f, a);
    NormalizedSignificandExact(f, b);
    MagnitudeSign(f, b);
    DoublePow2(f.sw + 2);
    var exponent := ea - eb;
    if sa < sb {
      DoubleExact(f, ea, sa, Magnitude(f, a));
      sa := sa * 2;
      exponent := exponent - 1;
    }
    var quotient := DivideSignificands(f, sa, sb);
    QuotientRounds(f, mode, sign, exponent + eb, sa, eb, sb, Magnitude(f, a), Magnitude(f, b), quotient);
    o := Round(f, mode, sign, exponent, quotient);
  }
}
