/** Multiplication and division, including the faults that the SIGFPE handler completes. */
module DbtMulDiv {
  import opened Words
  import opened Guest
  import opened X86
  import opened DbtEmit
  import opened DbtOps
  import opened DbtOps32
  import Powers
  import R = Riscv

  lemma TruncateIs(p: int)
    ensures Truncate(p, Qword) == Wrap(p) && Truncate(p, Dword) == Wrap32(p)
    ensures Wrap32(Wrap32(p)) == Wrap32(p)
  {
  }

  lemma MulRuns(rd: nat, rs1: nat, rs2: nat, c: Cpu)
    requires Ready(c) && rd < 32 && rs1 < 32 && rs2 < 32
    ensures Sets(Run(Mul(rd, rs1, rs2), c), c, rd, Wrap(ReadX(c.hart, rs1) * ReadX(c.hart, rs2)))
  {
    hide Run, Wrap, Truncate;
    var a: int, b: int := ReadX(c.hart, rs1), ReadX(c.hart, rs2);
    var p := a * b;
    TruncateIs(p);
    SmallImm(0);
    if rd == 0 {
      NothingRuns(c, Wrap(p));
    } else if rs1 == 0 || rs2 == 0 {
      assert p == 0;
      LoadImmRuns(rd, 0, c);
    } else {
      StoreAfter2(LoadReg(RAX, Qword, rs1), Imul2(RAX, if rs1 == rs2 then Rax else Xr(rs2)), rd, RAX, Qword, c, Wrap(p));
    }
  }

  lemma MulwRuns(rd: nat, rs1: nat, rs2: nat, c: Cpu)
    requires Ready(c) && rd < 32 && rs1 < 32 && rs2 < 32
    ensures Sets(Run(Mulw(rd, rs1, rs2), c), c, rd,
                 Sext32(Wrap(Signed32(ReadX(c.hart, rs1)) * Signed32(ReadX(c.hart, rs2)))))
  {
    hide Run, Wrap, Wrap32, Truncate, Sext32, Lower;
    var a, b := ReadX(c.hart, rs1), ReadX(c.hart, rs2);
    var p: int := Signed32(a) * Signed32(b);
    var q: int := Wrap32(a) * Wrap32(b);
    SextZero();
    if rd == 0 {
      NothingRuns(c, Sext32(Wrap(p)));
    } else if rs1 == 0 || rs2 == 0 {
      SextImm(0);
      assert p == 0;
      LoadImmRuns(rd, 0, c);
    } else {
      hide Signed32;
      R.HalfProduct(a, b);
      TruncateIs(q);
      Halved(a);
      Halved(b);
      StoreHalf2(LoadReg(RAX, Dword, rs1), Imul2(RAX, if rs1 == rs2 then Eax else Xw(rs2)), rd, c, Wrap(p));
    }
  }

  lemma MulhRuns(rd: nat, rs1: nat, rs2: nat, unsigned: bool, c: Cpu)
    requires Ready(c) && rd < 32 && rs1 < 32 && rs2 < 32
    ensures Sets(Run(Mulh(rd, rs1, rs2, unsigned), c), c, rd,
                 var a, b := ReadX(c.hart, rs1), ReadX(c.hart, rs2);
                 High(if unsigned then (a as int) * b else Signed(a) * Signed(b)))
  {
    hide Run, High, Signed;
    var a, b := ReadX(c.hart, rs1), ReadX(c.hart, rs2);
    var p: int := if unsigned then (a as int) * b else Signed(a) * Signed(b);
    if rd == 0 {
      NothingRuns(c, High(p));
    } else if rs1 == 0 || rs2 == 0 {
      SignedZero();
      assert p == 0;
      LoadImmRuns(rd, 0, c);
    } else {
      var loc := if rs1 == rs2 then Rax else Xr(rs2);
      Run3(LoadReg(RAX, Qword, rs1), if unsigned then Mul1(loc) else Imul1(loc), Mov(Xr(rd), L(Rdx)), c);
    }
  }

  lemma SignedZero()
    ensures Signed(0) == 0 && High(0) == 0 && Wrap(0) == 0
  {
  }

  // ----- mulhsu -----

  lemma {:induction false} Fill(x: int, n: nat)
    requires 0 - Powers.Pow2(n) <= x < Powers.Pow2(n)
    ensures FloorShift(x, n) == if x < 0 then -1 else 0
    decreases n
  {
    if n > 0 {
      Fill(x / 2, n - 1);
    }
  }

  /** Shifting right arithmetically by 63 spreads the sign over the whole word. */
  lemma SignMask(a: u64)
    ensures ShiftArith(a, 63) == if Signed(a) < 0 then W - 1 else 0
  {
    TwoTo63();
    Fill(Signed(a), 63);
  }

  lemma MulhsuHeadRuns(rs1: nat, rs2: nat, c: Cpu)
    requires Ready(c) && rs1 < 32 && rs2 < 32
    ensures var a: int, b: int := ReadX(c.hart, rs1), ReadX(c.hart, rs2);
      var d := Run(MulhsuHead(rs1, rs2), c);
      d.hart == c.hart && d.ok && d.rcx == a && d.rsi == b && d.rdx == High(a * b)
  {
    hide Run, High, Wrap;
    Run4(Mov(Rcx, L(Xr(rs1))), Mov(Rsi, L(Xr(rs2))), Mov(Rax, L(Rcx)), Mul1(Rsi), c);
  }

  lemma MulhsuTailRuns(rd: nat, c: Cpu)
    requires Ready(c) && 0 < rd < 32
    ensures Sets(Run(MulhsuTail(rd), c), c, rd, if Signed(c.rcx) < 0 then Wrap(c.rdx - c.rsi) else c.rdx)
  {
    hide Run, ShiftResult, Signed, AluResult, Wrap;
    MaskShift(c.rcx);
    var m := if Signed(c.rcx) < 0 then W - 1 else 0;
    var k := if Signed(c.rcx) < 0 then c.rsi else 0;
    AluMask(c.rsi);
    AluSum(c.rdx, k);
    AluImm(c.rdx, 0);
    var c1 := c.(rcx := m, flags := Undefined);
    assert Exec(Shift(SarOp, Rcx, Imm(63)), c) == c1;
    var c2 := c1.(rcx := k);
    assert Exec(Alu(AndOp, Rcx, L(Rsi)), c1) == c2;
    var c3 := c2.(rdx := Wrap(c.rdx - k));
    assert Exec(Alu(SubOp, Rdx, L(Rcx)), c2) == c3;
    Run4(Shift(SarOp, Rcx, Imm(63)), Alu(AndOp, Rcx, L(Rsi)), Alu(SubOp, Rdx, L(Rcx)), Mov(Xr(rd), L(Rdx)), c);
  }

  lemma MaskShift(a: u64)
    ensures ShiftResult(SarOp, a, 63, Qword) == if Signed(a) < 0 then W - 1 else 0
  {
    hide ShiftArith;
    SignMask(a);
  }

  lemma AluMask(b: u64)
    ensures AluResult(AndOp, W - 1, b, Qword) == b && AluResult(AndOp, 0, b, Qword) == 0
  {
    BitIdentities(b);
  }

  lemma MulhsuRuns(rd: nat, rs1: nat, rs2: nat, c: Cpu)
    requires Ready(c) && rd < 32 && rs1 < 32 && rs2 < 32
    ensures Sets(Run(Mulhsu(rd, rs1, rs2), c), c, rd, High(Signed(ReadX(c.hart, rs1)) * ReadX(c.hart, rs2)))
  {
    hide Run, High, Signed, Wrap, MulhsuHead, MulhsuTail;
    var a: u64, b: u64 := ReadX(c.hart, rs1), ReadX(c.hart, rs2);
    var p: int := Signed(a) * b;
    if rd == 0 {
      NothingRuns(c, High(p));
    } else if rs1 == 0 || rs2 == 0 {
      SignedZero();
      assert p == 0;
      LoadImmRuns(rd, 0, c);
    } else {
      R.MulhsuFixUp(a, b);
      RunAppend(MulhsuHead(rs1, rs2), MulhsuTail(rd), c);
      MulhsuHeadRuns(rs1, rs2, c);
      MulhsuTailRuns(rd, Run(MulhsuHead(rs1, rs2), c));
    }
  }

  // ----- division -----

  lemma TruncBounds(a: int, b: int)
    requires b != 0
    ensures Abs(TruncDiv(a, b)) <= Abs(a)
    ensures Abs(b) >= 2 ==> 2 * Abs(TruncDiv(a, b)) <= Abs(a)
    ensures TruncDiv(a, 1) == a && TruncDiv(a, -1) == -a
    ensures TruncRem(a, -1) == 0
    ensures a >= 0 && b > 0 ==> TruncDiv(a, b) >= 0
  {
    R.QuotientBound(Abs(a), Abs(b));
  }

  lemma UnsignedIs(a: nat, b: nat)
    requires b != 0
    ensures TruncDiv(a, b) == a / b && TruncRem(a, b) == a % b
  {
    assert a == (a / b) * b + a % b;
  }

  /** RDX holds the zero or sign extension of RAX, as XOR, CQO and CDQ leave it. */
  predicate Extended(c: Cpu, s: Size, signed: bool) {
    var lo := Lower(c.rax, s);
    Lower(c.rdx, s) == if signed && SignedOf(lo, s) < 0 then Modulus(s) - 1 else 0
  }

  lemma ExtendedDividend(c: Cpu, s: Size, signed: bool)
    requires (s == Dword || s == Qword) && Extended(c, s, signed)
    ensures Dividend(c, s, signed) == if signed then SignedOf(Lower(c.rax, s), s) else Lower(c.rax, s)
  {
  }

  lemma SignedOfBounds(v: u64, s: Size)
    requires v < Modulus(s)
    ensures -(Modulus(s) / 2) <= SignedOf(v, s) < Modulus(s) / 2
    ensures SignedOf(v, s) == 0 <==> v == 0
    ensures Truncate(SignedOf(v, s), s) == v
  {
    match s
    case Byte =>
    case Word =>
    case Dword =>
    case Qword =>
  }

  lemma LowerBound(v: u64, s: Size)
    ensures Lower(v, s) < Modulus(s) && Truncate(-1, s) == Modulus(s) - 1 && Truncate(0, s) == 0
  {
    match s
    case Byte =>
    case Word =>
    case Dword =>
    case Qword =>
  }

  function Quotient(a: u64, b: u64, s: Size, signed: bool): (q: u64) {
    if b == 0 then Modulus(s) - 1
    else if signed && SignedOf(b, s) != 0 then Truncate(TruncDiv(SignedOf(a, s), SignedOf(b, s)), s)
    else Truncate(TruncDiv(a, b), s)
  }

  function Remainder(a: u64, b: u64, s: Size, signed: bool): (r: u64) {
    if b == 0 then a
    else if signed && SignedOf(b, s) != 0 then Truncate(TruncRem(SignedOf(a, s), SignedOf(b, s)), s)
    else Truncate(TruncRem(a, b), s)
  }

  /** Whether or not the instruction faults, the registers end with RISC-V's results. */
  lemma DivideMeans(c: Cpu, b: u64, s: Size, signed: bool)
    requires (s == Dword || s == Qword) && Extended(c, s, signed) && b < Modulus(s)
    ensures var a := Lower(c.rax, s);
      var d := Divide(c, b, s, signed);
      d == c.(rax := Quotient(a, b, s, signed), rdx := Remainder(a, b, s, signed))
  {
    hide Fits, TruncDiv, TruncRem, Dividend, SignedOf, Truncate;
    var a := Lower(c.rax, s);
    LowerBound(c.rax, s);
    ExtendedDividend(c, s, signed);
    SignedOfBounds(a, s);
    SignedOfBounds(b, s);
    var d := if signed then SignedOf(a, s) else a;
    var e := if signed then SignedOf(b, s) else b;
    if e != 0 {
      QuotientFits(d, e, s, signed);
    }
  }

  /** The quotient fits its register, except for the most negative value over minus one. */
  lemma QuotientFits(d: int, e: int, s: Size, signed: bool)
    requires e != 0 && (s == Dword || s == Qword)
    requires signed ==> -(Modulus(s) / 2) <= d < Modulus(s) / 2
    requires !signed ==> 0 <= d < Modulus(s) && e > 0
    ensures Fits(TruncDiv(d, e), s, signed) ||
      (signed && e == -1 && Truncate(TruncDiv(d, e), s) == Truncate(d, s) && Truncate(TruncRem(d, e), s) == 0)
  {
    hide TruncDiv, TruncRem, Truncate;
    TruncBounds(d, e);
    LowerBound(0, s);
    if e == -1 {
      Overflow(d, s);
    }
  }

  lemma Overflow(d: int, s: Size)
    requires (s == Dword || s == Qword) && -(Modulus(s) / 2) <= d < Modulus(s) / 2
    ensures Fits(-d, s, true) || Truncate(-d, s) == Truncate(d, s)
  {
    match s
    case Dword =>
    case Qword =>
  }

  lemma QuotientIs(a: u64, b: u64)
    ensures Quotient(a, b, Qword, true) == R.RegValue(R.Div, a, b)
    ensures Quotient(a, b, Qword, false) == R.RegValue(R.Divu, a, b)
    ensures Remainder(a, b, Qword, true) == R.RegValue(R.Rem, a, b)
    ensures Remainder(a, b, Qword, false) == R.RegValue(R.Remu, a, b)
  {
    hide TruncDiv, TruncRem;
    if b != 0 {
      UnsignedIs(a, b);
    }
  }

  lemma DivRemRuns(rd: nat, rs1: nat, rs2: nat, unsigned: bool, rem: bool, c: Cpu)
    requires Ready(c) && rd < 32 && rs1 < 32 && rs2 < 32
    ensures Sets(Run(DivRem(rd, rs1, rs2, unsigned, rem), c), c, rd,
                 var a, b := ReadX(c.hart, rs1), ReadX(c.hart, rs2);
                 if rem then Remainder(a, b, Qword, !unsigned) else Quotient(a, b, Qword, !unsigned))
  {
    hide Run, Quotient, Remainder;
    var a, b := ReadX(c.hart, rs1), ReadX(c.hart, rs2);
    var v := if rem then Remainder(a, b, Qword, !unsigned) else Quotient(a, b, Qword, !unsigned);
    if rd == 0 {
      NothingRuns(c, v);
    } else if rs2 == 0 {
      DivideByZero(a, Qword, !unsigned);
      if rem {
        MoveRuns(rd, rs1, c);
      } else {
        LoadImmRuns(rd, -1, c);
      }
    } else {
      DivRemGeneral(rd, rs1, rs2, unsigned, rem, c, v);
    }
  }

  lemma DivideByZero(a: u64, s: Size, signed: bool)
    ensures Quotient(a, 0, s, signed) == Modulus(s) - 1 && Remainder(a, 0, s, signed) == a
  {
  }

  lemma DivRemGeneral(rd: nat, rs1: nat, rs2: nat, unsigned: bool, rem: bool, c: Cpu, v: u64)
    requires Ready(c) && 0 < rd < 32 && rs1 < 32 && 0 < rs2 < 32
    requires var a, b := ReadX(c.hart, rs1), ReadX(c.hart, rs2);
      v == if rem then Remainder(a, b, Qword, !unsigned) else Quotient(a, b, Qword, !unsigned)
    ensures Sets(Run(DivRem(rd, rs1, rs2, unsigned, rem), c), c, rd, v)
  {
    hide Run, Divide, Quotient, Remainder, LoadReg, Words.Xor, Words.And, Words.Or;
    var a, b := ReadX(c.hart, rs1), ReadX(c.hart, rs2);
    LoadRegRuns(RAX, Qword, rs1, c);
    var c1 := Exec(LoadReg(RAX, Qword, rs1), c);
    BitIdentities(Wrap32(c1.rdx));
    var c2 := Exec(if unsigned then Alu(XorOp, Edx, L(Edx)) else Cqo, c1);
    assert c2.rax == a && c2.hart == c.hart && c2.ok && Extended(c2, Qword, !unsigned);
    DivideMeans(c2, b, Qword, !unsigned);
    StoreAfter3(LoadReg(RAX, Qword, rs1), if unsigned then Alu(XorOp, Edx, L(Edx)) else Cqo,
                if unsigned then Div(Xr(rs2)) else Idiv(Xr(rs2)), rd, if rem then RDX else RAX, Qword, c, v);
  }

  // ----- 32-bit division -----

  lemma Quotient32Is(a: u64, b: u64)
    ensures Sext32(Quotient(Wrap32(a), Wrap32(b), Dword, true)) == R.RegValue(R.Divw, a, b)
    ensures Sext32(Quotient(Wrap32(a), Wrap32(b), Dword, false)) == R.RegValue(R.Divuw, a, b)
  {
    hide TruncDiv, TruncRem, Sext32, Signed32, SignedOf, Wrap, Wrap32, Truncate;
    var d, e := Wrap32(a), Wrap32(b);
    SignedHalf(a);
    SignedHalf(b);
    if e != 0 {
      UnsignedIs(d, e);
      TruncateSext(TruncDiv(Signed32(a), Signed32(b)));
      TruncateSext(d / e);
    } else {
      SextMinusOne();
    }
  }

  lemma Remainder32Is(a: u64, b: u64)
    ensures Sext32(Remainder(Wrap32(a), Wrap32(b), Dword, true)) == R.RegValue(R.Remw, a, b)
    ensures Sext32(Remainder(Wrap32(a), Wrap32(b), Dword, false)) == R.RegValue(R.Remuw, a, b)
  {
    hide TruncDiv, TruncRem, Sext32, Signed32, SignedOf, Wrap, Wrap32, Truncate;
    var d, e := Wrap32(a), Wrap32(b);
    SignedHalf(a);
    SignedHalf(b);
    if e != 0 {
      UnsignedIs(d, e);
      TruncateSext(TruncRem(Signed32(a), Signed32(b)));
      TruncateSext(d % e);
    } else {
      Halved(a);
      R.Sext32Same(a, Wrap32(a));
    }
  }

  lemma SignedHalf(a: u64)
    ensures SignedOf(Wrap32(a), Dword) == Signed32(a) && (Signed32(a) == 0 <==> Wrap32(a) == 0)
  {
  }

  lemma SextMinusOne()
    ensures Sext32(H - 1) == W - 1
  {
  }

  lemma TruncateSext(q: int)
    ensures Sext32(Truncate(q, Dword)) == Sext32(Wrap(q)) == Sext32(Wrap32(q))
  {
    R.WrapHalf(q);
    TruncateIs(q);
    R.Sext32Same(Truncate(q, Dword), Wrap(q));
  }

  lemma DivRem32Runs(rd: nat, rs1: nat, rs2: nat, unsigned: bool, rem: bool, c: Cpu)
    requires Ready(c) && rd < 32 && rs1 < 32 && rs2 < 32
    ensures Sets(Run(DivRem32(rd, rs1, rs2, unsigned, rem), c), c, rd,
                 var a, b := Wrap32(ReadX(c.hart, rs1)), Wrap32(ReadX(c.hart, rs2));
                 Sext32(if rem then Remainder(a, b, Dword, !unsigned) else Quotient(a, b, Dword, !unsigned)))
  {
    hide Run, Quotient, Remainder, Sext32, Wrap, Wrap32;
    var a, b := Wrap32(ReadX(c.hart, rs1)), Wrap32(ReadX(c.hart, rs2));
    var v := if rem then Remainder(a, b, Dword, !unsigned) else Quotient(a, b, Dword, !unsigned);
    if rd == 0 {
      NothingRuns(c, Sext32(v));
    } else if rs2 == 0 {
      DivideByZero(a, Dword, !unsigned);
      Halved(ReadX(c.hart, rs1));
      R.Sext32Same(ReadX(c.hart, rs1), a);
      SextMinusOne();
      WrapMinusOne();
      SextZero();
      if rem {
        Move32Runs(rd, rs1, c);
      } else {
        LoadImmRuns(rd, -1, c);
      }
    } else {
      DivRem32General(rd, rs1, rs2, unsigned, rem, c, v);
    }
  }

  lemma WrapMinusOne()
    ensures Wrap(-1) == W - 1
  {
  }

  lemma DivRem32General(rd: nat, rs1: nat, rs2: nat, unsigned: bool, rem: bool, c: Cpu, v: u64)
    requires Ready(c) && 0 < rd < 32 && rs1 < 32 && 0 < rs2 < 32
    requires var a, b := Wrap32(ReadX(c.hart, rs1)), Wrap32(ReadX(c.hart, rs2));
      v == if rem then Remainder(a, b, Dword, !unsigned) else Quotient(a, b, Dword, !unsigned)
    ensures Sets(Run(DivRem32(rd, rs1, rs2, unsigned, rem), c), c, rd, Sext32(v))
  {
    hide Run, Exec, Quotient, Remainder, LoadReg, Sext32, Wrap32;
    var i := LoadReg(RAX, Dword, rs1);
    var j := if unsigned then Alu(XorOp, Edx, L(Edx)) else Cdq;
    var k := if unsigned then Div(Xw(rs2)) else Idiv(Xw(rs2));
    Divide32Exec(rs1, rs2, unsigned, c);
    if rem {
      var store := StoreReg(rd, RAX, Qword);
      assert [i, j, k] + ([Movsxd(RAX, Edx)] + store) == [i, j, k, Movsxd(RAX, Edx)] + store;
      MovsxdRuns(Exec(k, Exec(j, Exec(i, c))));
      StoreAfter4(i, j, k, Movsxd(RAX, Edx), rd, RAX, Qword, c, Sext32(v));
    } else {
      StoreAfter3(i, j, k, rd, RAX, Dword, c, Sext32(v));
    }
  }

  lemma MovsxdRuns(c: Cpu)
    ensures Exec(Movsxd(RAX, Edx), c) == c.(rax := Sext32(c.rdx))
  {
  }

  lemma Divide32Exec(rs1: nat, rs2: nat, unsigned: bool, c: Cpu)
    requires Ready(c) && rs1 < 32 && 0 < rs2 < 32
    ensures var a, b := Wrap32(ReadX(c.hart, rs1)), Wrap32(ReadX(c.hart, rs2));
      var j := if unsigned then Alu(XorOp, Edx, L(Edx)) else Cdq;
      var k := if unsigned then Div(Xw(rs2)) else Idiv(Xw(rs2));
      var d := Exec(k, Exec(j, Exec(LoadReg(RAX, Dword, rs1), c)));
      d.hart == c.hart && d.ok
      && d.rax == Quotient(a, b, Dword, !unsigned) && d.rdx == Remainder(a, b, Dword, !unsigned)
  {
    hide Divide, Quotient, Remainder, LoadReg, Sext32, Wrap32, Extended;
    LoadRegRuns(RAX, Dword, rs1, c);
    var c1 := Exec(LoadReg(RAX, Dword, rs1), c);
    Extend32(unsigned, c1);
    Halved(ReadX(c.hart, rs1));
    var c2 := Exec(if unsigned then Alu(XorOp, Edx, L(Edx)) else Cdq, c1);
    DivideMeans(c2, Wrap32(ReadX(c.hart, rs2)), Dword, !unsigned);
  }

  lemma Extend32(unsigned: bool, c: Cpu)
    requires c.rax < H
    ensures var d := Exec(if unsigned then Alu(XorOp, Edx, L(Edx)) else Cdq, c);
      d.rax == c.rax && d.hart == c.hart && d.ok == c.ok && Extended(d, Dword, !unsigned)
  {
    hide Words.Xor, Words.And, Words.Or;
    BitIdentities(Wrap32(c.rdx));
  }
}
