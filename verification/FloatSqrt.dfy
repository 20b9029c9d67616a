/** Digit-by-digit square root. */
module FloatSqrt {
  import opened Powers
  import opened FloatFormat
  import opened FloatRounding
  import opened Sticky
  import opened FloatKernel
  import opened FloatArith
  import opened FloatAdd
  import opened FloatMul
  import opened FloatDivide

  /**
   The loop invariant. `twice` is the bit being decided; the source keeps `half_bit = twice / 2`
   and `h = (s * 2^(sw+2) - result^2) / (2 * twice)`.
   */
  ghost predicate SqrtState(f: Format, s: nat, result: nat, k: nat, h: nat) {
    && SquareInvariant(s * Pow2(f.sw + 2), result, Pow2(k), h)
    && result == Shl(Shr(result, k + 1), k + 1)
    && Pow2(f.sw + 2) <= result
    && result + 2 * Pow2(k) <= Pow2(f.sw + 3)
  }

  ghost predicate SquareInvariant(target: nat, result: nat, twice: nat, h: nat) {
    h * (2 * twice) + result * result == target && h < 2 * result + 2 * twice
  }

  lemma SquareInit(s: nat, p: nat, p2: nat)
    requires p2 == 2 * p && p2 <= s < 4 * p2
    ensures SquareInvariant(s * p2, p2, p, s - p2)
  {
    var d: nat := s - p2;
    assert (d + p2) * p2 == d * p2 + p2 * p2;
  }

  lemma SquareStep(target: nat, result: nat, half: nat, h: nat)
    requires SquareInvariant(target, result, 2 * half, h)
    ensures h >= result + half ==> SquareInvariant(target, result + 2 * half, half, 2 * (h - result - half))
    ensures h < result + half ==> SquareInvariant(target, result, half, 2 * h)
  {
    if h >= result + half {
      var d: nat := h - result - half;
      assert h == d + (result + half);
      StepSquares(d, result, half);
    } else {
      Regroup(h, half);
    }
  }

  lemma Regroup(h: nat, half: nat)
    ensures (2 * h) * (2 * half) == h * (2 * (2 * half))
  {
    assert (2 * h) * (2 * half) == 4 * (h * half);
    assert h * (4 * half) == 4 * (h * half);
  }

  lemma StepSquares(d: nat, r: nat, half: nat)
    ensures (2 * d) * (2 * half) + (r + 2 * half) * (r + 2 * half)
            == (d + (r + half)) * (2 * (2 * half)) + r * r
  {
    var b := 2 * half;
    Regroup(d, half);
    calc {
      (d + (r + half)) * (2 * b);
      d * (2 * b) + (r + half) * (2 * b);
      { assert (r + half) * (2 * b) == r * (2 * b) + half * (2 * b); }
      d * (2 * b) + r * (2 * b) + half * (2 * b);
      { assert half * (2 * b) == b * b by { assert b * b == (2 * half) * b; assert (2 * half) * b == half * (2 * b); } }
      d * (2 * b) + r * (2 * b) + b * b;
    }
    assert (r + b) * (r + b) == r * r + r * (2 * b) + b * b;
  }

  lemma SqrtStateInit(f: Format, s: nat)
    requires Pow2(f.sw + 2) <= s < Pow2(f.sw + 4)
    ensures SqrtState(f, s, Pow2(f.sw + 2), f.sw + 1, s - Pow2(f.sw + 2))
  {
    hide SquareInvariant;
    DoublePow2(f.sw + 1);
    DoublePow2(f.sw + 2);
    DoublePow2(f.sw + 3);
    SquareInit(s, Pow2(f.sw + 1), Pow2(f.sw + 2));
    Join(Pow2(f.sw + 2), 1, 0, f.sw + 2);
  }

  lemma SqrtStateStep(f: Format, s: nat, result: nat, k: nat, h: nat)
    requires k > 0 && SqrtState(f, s, result, k, h)
    ensures var half := Pow2(k - 1);
            if h >= result + half then SqrtState(f, s, result + 2 * half, k - 1, 2 * (h - (result + half)))
            else SqrtState(f, s, result, k - 1, 2 * h)
  {
    hide SquareInvariant;
    DoublePow2(k - 1);
    SquareStep(s * Pow2(f.sw + 2), result, Pow2(k - 1), h);
    QuotientBit(result, k);
  }

  /** An even root is exact; an odd one stands for a root strictly between its even neighbours. */
  ghost predicate BracketsRoot(target: nat, r: nat) {
    if r % 2 == 0 then r * r == target else (r - 1) * (r - 1) < target < (r + 1) * (r + 1)
  }

  /** `r` is a sticky approximation of whatever non-negative real number is the root. */
  ghost predicate StickyRoot(target: nat, r: nat) {
    forall y: real :: y >= 0.0 && y * y == target as real ==> IsSticky(r, y)
  }

  /** Digit-by-digit root of a significand in [1, 4), with a sticky last bit. */
  method SqrtSignificand(f: Format, s: nat) returns (result: nat)
    requires f.Valid() && Pow2(f.sw + 2) <= s < Pow2(f.sw + 4)
    ensures Normalized(f, result)
    ensures BracketsRoot(s * Pow2(f.sw + 2), result)
    ensures StickyRoot(s * Pow2(f.sw + 2), result)
  {
    hide SqrtState, BracketsRoot, StickyRoot;
    result := Pow2(f.sw + 2);
    var halfBit := Pow2(f.sw);
    var h: nat := s - result;
    ghost var k: nat := f.sw + 1;
    SqrtStateInit(f, s);
    DoublePow2(f.sw);
    SqrtFits(f, s, result, k, h);
    while halfBit != 0
      invariant halfBit == Pow2(k) / 2
      invariant SqrtState(f, s, result, k, h)
      // Both sides of the comparison fit the holder.
      invariant result + halfBit < Pow2(f.HolderWidth()) && h < Pow2(f.HolderWidth())
      decreases k
    {
      ZeroHalf(k);
      SqrtStateStep(f, s, result, k, h);
      DoublePow2(k - 1);
      if h >= result + halfBit {
        h := h - (result + halfBit);
        result := result + 2 * halfBit;
      }
      halfBit := halfBit / 2;
      h := 2 * h;
      k := k - 1;
      SqrtFits(f, s, result, k, h);
    }
    ZeroHalf(k);
    SqrtDone(f, s, result, h);
    RootSticky(s * Pow2(f.sw + 2), result, h, if h != 0 then result + 1 else result);
    if h != 0 {
      result := SetLowBit(result);
    }
  }

  lemma ZeroHalf(k: nat)
    ensures Pow2(k) / 2 == 0 <==> k == 0
  {
    if k > 0 {
      DoublePow2(k - 1);
    }
  }

  /** No loop variable outgrows the holder. */
  lemma SqrtFits(f: Format, s: nat, result: nat, k: nat, h: nat)
    requires f.Valid() && SqrtState(f, s, result, k, h)
    ensures result + Pow2(k) / 2 < Pow2(f.HolderWidth()) && h < Pow2(f.HolderWidth())
  {
    DoublePow2(f.sw + 3);
    Pow2Mono(f.sw + 4, f.HolderWidth());
  }

  /** At the end the root and the next even integer bracket the exact root. */
  lemma SqrtDone(f: Format, s: nat, r: nat, h: nat)
    requires SqrtState(f, s, r, 0, h)
    ensures r % 2 == 0 && Normalized(f, r) && Normalized(f, r + 1)
    ensures h * 2 + r * r == s * Pow2(f.sw + 2) < (r + 2) * (r + 2)
  {
    hide SquareInvariant;
    ShlEven(Shr(r, 1), 1);
    SquareDone(s * Pow2(f.sw + 2), r, h);
  }

  lemma SquareDone(target: nat, r: nat, h: nat)
    requires SquareInvariant(target, r, 1, h)
    ensures h * 2 + r * r == target < (r + 2) * (r + 2)
  {
    assert (r + 2) * (r + 2) == r * r + 4 * r + 4;
  }

  lemma RootSticky(target: nat, r: nat, h: nat, t: nat)
    requires r % 2 == 0 && h * 2 + r * r == target < (r + 2) * (r + 2)
    requires t == if h != 0 then r + 1 else r
    ensures StickyRoot(target, t) && BracketsRoot(target, t)
  {
    forall y: real | y >= 0.0 && y * y == target as real
      ensures IsSticky(t, y)
    {
      RootBracket(y, r, h, target);
    }
  }

  lemma RootBracket(y: real, r: nat, h: nat, target: nat)
    requires y >= 0.0 && y * y == target as real && h * 2 + r * r == target < (r + 2) * (r + 2)
    ensures h == 0 ==> y == r as real
    ensures h > 0 ==> r as real < y < (r + 2) as real
  {
    CastProduct(r, r);
    CastProduct(r + 2, r + 2);
    SquareOrder(y, r as real);
    SquareOrder(y, (r + 2) as real);
    SquareOrder(r as real, y);
  }

  lemma SquareOrder(x: real, y: real)
    requires x >= 0.0 && y >= 0.0
    ensures x < y <==> x * x < y * y
    ensures x == y <==> x * x == y * y
  {
    var d, t := y - x, y + x;
    assert d * t == y * y - x * x;
    if d > 0.0 {
      assert d * t > 0.0;
    } else if d < 0.0 {
      assert (-d) * t > 0.0;
    }
  }

  /** The exact root, at the scale of the root of the significand. */
  lemma ScaledRoot(f: Format, e: int, s: nat, V: real, x: real, y: real)
    requires e % 2 == 0 && Exactly(f, e, s, V) && x * x == V && y == Scale(x, f.sw + 2 - e / 2)
    ensures y * y == (s * Pow2(f.sw + 2)) as real
  {
    var n := f.sw + 2;
    ScaleProduct(x, x, V, n - e / 2, n - e / 2);
    assert (n - e / 2) + (n - e / 2) == (n - e) + n;
    ScaleCompose(V, n - e, n);
    ScaleShl(s, n);
    ShlProduct(s, 1, n);
  }

  /** What square root returns for a NaN, a zero, a negative number or positive infinity. */
  function SqrtSpecial(f: Format, a: nat): Outcome
    requires f.Valid()
  {
    if IsNan(f, a) then Outcome(QuietNan(f), Flags(false, false, false, IsSignaling(f, a), false))
    else if IsZero(f, a) || !Sign(f, a) then Outcome(a, NoFlags)
    else InvalidOperation(f)
  }

  predicate HasRoot(f: Format, a: nat) {
    IsFinite(f, a) && !IsZero(f, a) && !Sign(f, a)
  }

  /** Square root: for a positive finite operand, the exact root rounded once in any mode. */
  method SquareRoot(f: Format, mode: RoundingMode, a: nat) returns (o: Outcome)
    requires f.Valid() && IsBits(f, a)
    ensures HasRoot(f, a) ==>
              forall x: real :: x > 0.0 && x * x == Value(f, a) ==> RoundsTo(f, mode, false, x, o)
    ensures !HasRoot(f, a) ==> o == SqrtSpecial(f, a)
  {
    hide Magnitude, RoundsTo, Round, GetNormalizedSignificand, IsSticky, Exactly;
    if IsNan(f, a) {
      if IsSignaling(f, a) {
        return Outcome(QuietNan(f), Flags(false, false, false, true, false));
      }
      return Outcome(QuietNan(f), NoFlags);
    }
    if IsZero(f, a) {
      return Outcome(a, NoFlags);
    }
    if Sign(f, a) {
      return InvalidOperation(f);
    }
    if IsInfinite(f, a) {
      return Outcome(a, NoFlags);
    }
    o := SqrtFinite(f, mode, a);
  }

  method SqrtFinite(f: Format, mode: RoundingMode, a: nat) returns (o: Outcome)
    requires f.Valid() && IsFinite(f, a) && !IsZero(f, a)
    ensures forall x: real :: x > 0.0 && x * x == Magnitude(f, a) ==> RoundsTo(f, mode, false, x, o)
  {
    hide Magnitude, RoundsTo, Round, GetNormalizedSignificand, StickyRoot, BracketsRoot, Exactly, IsFinite, IsZero;
    var (e, s) := GetNormalizedSignificand(f, a);
    NormalizedSignificandExact(f, a);
    DoublePow2(f.sw + 3);
    if e % 2 != 0 {
      DoubleExact(f, e, s, Magnitude(f, a));
      e := e - 1;
      s := s * 2;
    }
    o := SqrtRounded(f, mode, e, s, Magnitude(f, a));
  }

  method SqrtRounded(f: Format, mode: RoundingMode, e: int, s: nat, ghost V: real) returns (o: Outcome)
    requires f.Valid() && e % 2 == 0 && Pow2(f.sw + 2) <= s < Pow2(f.sw + 4) && Exactly(f, e, s, V)
    ensures forall x: real :: x > 0.0 && x * x == V ==> RoundsTo(f, mode, false, x, o)
  {
    hide RoundsTo, Round, StickyRoot, BracketsRoot, Exactly;
    var result := SqrtSignificand(f, s);
    Pow2Mono(f.sw + 3, f.HolderWidth());
    o := Round(f, mode, false, e / 2, result);
    AllRootsRound(f, mode, e, s, V, result);
  }

  lemma AllRootsRound(f: Format, mode: RoundingMode, e: int, s: nat, V: real, result: nat)
    requires f.Valid() && e % 2 == 0 && Exactly(f, e, s, V) && Normalized(f, result)
    requires result < Pow2(f.HolderWidth())
    requires StickyRoot(s * Pow2(f.sw + 2), result)
    ensures forall x: real :: x > 0.0 && x * x == V ==>
              RoundsTo(f, mode, false, x, Round(f, mode, false, e / 2, result))
  {
    hide RoundsTo, Round, StickyRoot, Exactly, Normalized;
    forall x: real | x > 0.0 && x * x == V
      ensures RoundsTo(f, mode, false, x, Round(f, mode, false, e / 2, result))
    {
      RootRounds(f, mode, e, s, V, x, result);
    }
  }

  lemma RootRounds(f: Format, mode: RoundingMode, e: int, s: nat, V: real, x: real, result: nat)
    requires f.Valid() && e % 2 == 0 && Exactly(f, e, s, V) && x > 0.0 && x * x == V && Normalized(f, result)
    requires StickyRoot(s * Pow2(f.sw + 2), result)
    ensures result < Pow2(f.HolderWidth())
    ensures RoundsTo(f, mode, false, x, Round(f, mode, false, e / 2, result))
  {
    hide RoundsTo, Round, IsSticky, Exactly, Normalized;
    var y := Scale(x, f.sw + 2 - e / 2);
    ScaleSign(x, f.sw + 2 - e / 2);
    ScaledRoot(f, e, s, V, x, y);
    assert IsSticky(result, y);
    RoundCorrect(f, mode, false, e / 2, result, x);
  }
}
