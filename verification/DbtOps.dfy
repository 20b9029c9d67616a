/** Every emitted sequence leaves the hart exactly as `step` would. */
module DbtOps {
  import opened Words
  import opened Guest
  import opened X86
  import opened DbtEmit
  import R = Riscv
  import Powers

  /** The hart invariant translated code relies on: the zero register's slot holds zero. */
  predicate Ready(c: Cpu) { Valid(c.hart) && c.ok }

  /** After `c'`, guest register `rd` holds `v` and nothing else of the hart has changed. */
  predicate Sets(c': Cpu, c: Cpu, rd: nat, v: u64) {
    c'.hart == WriteX(c.hart, rd, v) && c'.ok
  }

  // ----- running short sequences -----

  lemma {:induction false} RunAppend(a: Code, b: Code, c: Cpu)
    ensures Run(a + b, c) == Run(b, Run(a, c))
    decreases |a|
  {
    hide Exec;
    if a == [] {
      assert a + b == b;
    } else {
      assert (a + b)[0] == a[0] && (a + b)[1..] == a[1..] + b;
      RunAppend(a[1..], b, Exec(a[0], c));
    }
  }

  lemma Run1(i: Instr, c: Cpu)
    ensures Run([i], c) == Exec(i, c)
  {
    hide Exec;
    assert [i][1..] == [];
    assert Run([], Exec(i, c)) == Exec(i, c);
  }

  lemma Run2(i: Instr, j: Instr, c: Cpu)
    ensures Run([i, j], c) == Exec(j, Exec(i, c))
  {
    hide Exec;
    assert [i, j][1..] == [j];
    Run1(j, Exec(i, c));
  }

  lemma Run3(i: Instr, j: Instr, k: Instr, c: Cpu)
    ensures Run([i, j, k], c) == Exec(k, Exec(j, Exec(i, c)))
  {
    hide Exec;
    assert [i, j, k][1..] == [j, k];
    Run2(j, k, Exec(i, c));
  }

  lemma Run4(i: Instr, j: Instr, k: Instr, l: Instr, c: Cpu)
    ensures Run([i, j, k, l], c) == Exec(l, Exec(k, Exec(j, Exec(i, c))))
  {
    hide Exec;
    assert [i, j, k, l][1..] == [j, k, l];
    Run3(j, k, l, Exec(i, c));
  }

  // ----- moving values between the context and the registers -----

  /** The value `StoreReg` puts in the guest register: sign-extended when the source is 32-bit. */
  function Stored(v: u64, s: Size): u64 {
    if s == Qword then v else Sext32(v)
  }

  lemma StoreRegRuns(rd: nat, r: Gpr, s: Size, c: Cpu)
    requires |c.hart.x| == 32 && rd < 32
    ensures Run(StoreReg(rd, r, s), c).hart == WriteX(c.hart, rd, Stored(Gp(c, r), s))
    ensures Run(StoreReg(rd, r, s), c).ok == c.ok
  {
    hide Sext32;
    if rd != 0 {
      if s == Qword {
        Run1(Mov(Xr(rd), L(Reg(r, Qword))), c);
      } else if r == RAX {
        Run2(Cdqe, Mov(Xr(rd), L(Rax)), c);
      } else {
        Run2(Movsxd(r, Reg(r, Dword)), Mov(Xr(rd), L(Reg(r, Qword))), c);
      }
    }
  }

  lemma StoreAfter2(i: Instr, j: Instr, rd: nat, r: Gpr, s: Size, c: Cpu, v: u64)
    requires Ready(c) && rd < 32
    requires Exec(j, Exec(i, c)).hart == c.hart && Exec(j, Exec(i, c)).ok
    requires Stored(Gp(Exec(j, Exec(i, c)), r), s) == v
    ensures Sets(Run([i, j] + StoreReg(rd, r, s), c), c, rd, v)
  {
    hide Exec, Stored, StoreReg;
    RunAppend([i, j], StoreReg(rd, r, s), c);
    Run2(i, j, c);
    StoreRegRuns(rd, r, s, Exec(j, Exec(i, c)));
  }

  lemma StoreAfter3(i: Instr, j: Instr, k: Instr, rd: nat, r: Gpr, s: Size, c: Cpu, v: u64)
    requires Ready(c) && rd < 32
    requires Exec(k, Exec(j, Exec(i, c))).hart == c.hart && Exec(k, Exec(j, Exec(i, c))).ok
    requires Stored(Gp(Exec(k, Exec(j, Exec(i, c))), r), s) == v
    ensures Sets(Run([i, j, k] + StoreReg(rd, r, s), c), c, rd, v)
  {
    hide Exec, Stored, StoreReg;
    RunAppend([i, j, k], StoreReg(rd, r, s), c);
    Run3(i, j, k, c);
    StoreRegRuns(rd, r, s, Exec(k, Exec(j, Exec(i, c))));
  }

  lemma StoreAfter4(i: Instr, j: Instr, k: Instr, l: Instr, rd: nat, r: Gpr, s: Size, c: Cpu, v: u64)
    requires Ready(c) && rd < 32
    requires Exec(l, Exec(k, Exec(j, Exec(i, c)))).hart == c.hart && Exec(l, Exec(k, Exec(j, Exec(i, c)))).ok
    requires Stored(Gp(Exec(l, Exec(k, Exec(j, Exec(i, c)))), r), s) == v
    ensures Sets(Run([i, j, k, l] + StoreReg(rd, r, s), c), c, rd, v)
  {
    hide Exec, Stored, StoreReg;
    RunAppend([i, j, k, l], StoreReg(rd, r, s), c);
    Run4(i, j, k, l, c);
    StoreRegRuns(rd, r, s, Exec(l, Exec(k, Exec(j, Exec(i, c)))));
  }

  lemma NothingRuns(c: Cpu, v: u64)
    requires c.ok
    ensures Sets(Run([], c), c, 0, v)
  {
  }

  lemma LoadRegRuns(r: Gpr, s: Size, rs: nat, c: Cpu)
    requires Ready(c) && rs < 32 && (s == Dword || s == Qword)
    ensures Exec(LoadReg(r, s, rs), c) == SetGp(c, r, Lower(ReadX(c.hart, rs), s)).(flags := Exec(LoadReg(r, s, rs), c).flags)
  {
    hide Words.And, Words.Or, Words.Xor;
    BitIdentities(Lower(Gp(c, r), Dword));
    match r {
      case RAX =>
      case RCX =>
      case RDX =>
      case RSI =>
    }
  }

  lemma ShiftLeftOne(x: u64)
    ensures ShiftLeft(x, 1) == Wrap(x + x)
    ensures ShiftLeft32(x, 1) == Wrap32(Wrap32(x) + Wrap32(x))
  {
    assert Powers.Shl(x, 0) == x && Powers.Shl(Wrap32(x), 0) == Wrap32(x);
  }

  lemma LoadImmRuns(rd: nat, imm: int, c: Cpu)
    requires Ready(c) && rd < 32
    ensures Sets(Run(LoadImm(rd, imm), c), c, rd, Wrap(imm))
  {
    if rd != 0 {
      Run1(Mov(Xr(rd), Signext(imm)), c);
    }
  }

  lemma MoveRuns(rd: nat, rs: nat, c: Cpu)
    requires Ready(c) && rd < 32 && rs < 32
    ensures Sets(Run(Move(rd, rs), c), c, rd, ReadX(c.hart, rs))
  {
    if rd == 0 || rd == rs {
      assert Run([], c) == c;
    } else if rs == 0 {
      LoadImmRuns(rd, 0, c);
    } else {
      Run2(Mov(Rax, L(Xr(rs))), Mov(Xr(rd), L(Rax)), c);
    }
  }

  lemma Move32Runs(rd: nat, rs: nat, c: Cpu)
    requires Ready(c) && rd < 32 && rs < 32
    ensures Sets(Run(Move32(rd, rs), c), c, rd, Sext32(ReadX(c.hart, rs)))
  {
    if rd == 0 {
      assert Run([], c) == c;
    } else if rs == 0 {
      LoadImmRuns(rd, 0, c);
    } else {
      hide Sext32;
      Run2(Movsxd(RAX, Xw(rs)), Mov(Xr(rd), L(Rax)), c);
    }
  }

  lemma AluSum(a: u64, b: u64)
    ensures AluResult(AddOp, a, b, Qword) == Wrap(a + b)
    ensures AluResult(SubOp, a, b, Qword) == Wrap(a - b)
  {
  }

  lemma AluImm(a: u64, imm: int)
    ensures AluResult(AddOp, a, Wrap(imm), Qword) == Wrap(a + imm)
    ensures Wrap(a) == a
  {
  }

  // ----- OP-IMM -----

  lemma AddiRuns(rd: nat, rs1: nat, imm: int, c: Cpu)
    requires Ready(c) && rd < 32 && rs1 < 32
    ensures Sets(Run(Addi(rd, rs1, imm), c), c, rd, Wrap(ReadX(c.hart, rs1) + imm))
  {
    hide Run, Wrap, AluResult;
    var v := Wrap(ReadX(c.hart, rs1) + imm);
    AluImm(ReadX(c.hart, rs1), imm);
    if rd == 0 {
      NothingRuns(c, v);
    } else if rs1 == 0 {
      LoadImmRuns(rd, imm, c);
    } else if imm == 0 {
      MoveRuns(rd, rs1, c);
    } else if rd == rs1 {
      Run1(Alu(AddOp, Xr(rd), Signext(imm)), c);
    } else {
      Run3(Mov(Rax, L(Xr(rs1))), Alu(AddOp, Rax, Signext(imm)), Mov(Xr(rd), L(Rax)), c);
    }
  }

  lemma {:induction false} ShiftOfZero(op: ShiftOp, n: nat)
    ensures Powers.Shl(0, n) == 0 && FloorShift(0, n) == 0
  {
    if n > 0 {
      ShiftOfZero(op, n - 1);
    }
  }

  /** A shift by a count below the operand width. */
  function Shifted(op: ShiftOp, a: u64, n: nat): u64 {
    match op
    case ShlOp => ShiftLeft(a, n)
    case ShrOp => ShiftRight(a, n)
    case SarOp => ShiftArith(a, n)
  }

  function Shifted32(op: ShiftOp, a: u64, n: nat): u64 {
    match op
    case ShlOp => ShiftLeft32(a, n)
    case ShrOp => ShiftRight32(a, n)
    case SarOp => ShiftArith32(a, n)
  }

  lemma ShiftEdges(op: ShiftOp, a: u64, n: nat)
    ensures Shifted(op, 0, n) == 0 && Shifted32(op, 0, n) == 0
    ensures Shifted(op, a, 0) == a && Sext32(Shifted32(op, a, 0)) == Sext32(a)
    ensures Shifted(ShlOp, a, 1) == Wrap(a + a) && Shifted32(ShlOp, a, 1) == Wrap32(Wrap32(a) + Wrap32(a))
  {
    ShiftOfZero(op, n);
    ShiftLeftOne(a);
  }

  lemma CountMask(n: nat)
    ensures n % 0x100 % 64 == n % 64 && n % 0x100 % 32 == n % 32
  {
    var q, r := n / 0x100, n % 0x100;
    assert n == 64 * (4 * q + r / 64) + r % 64;
    assert n == 32 * (8 * q + r / 32) + r % 32;
  }

  lemma LowerHalf(a: u64)
    ensures Wrap32(Wrap32(a)) == Wrap32(a) && Signed32(Wrap32(a)) == Signed32(a)
  {
  }

  lemma ShiftIs(op: ShiftOp, a: u64, n: u64)
    ensures ShiftResult(op, a, n % 0x100, Qword) == Shifted(op, a, n % 64)
    ensures ShiftResult(op, a, n % 0x100, Dword) == Shifted32(op, a, n % 32)
    ensures Shifted32(op, Wrap32(a), n % 32) == Shifted32(op, a, n % 32)
  {
    hide ShiftLeft, ShiftRight, ShiftArith;
    CountMask(n);
    LowerHalf(a);
  }

  lemma ShiftImmRuns(op: ShiftOp, rd: nat, rs1: nat, imm: nat, c: Cpu)
    requires Ready(c) && rd < 32 && rs1 < 32 && imm < 64
    ensures Sets(Run(ShiftImm(op, rd, rs1, imm), c), c, rd, Shifted(op, ReadX(c.hart, rs1), imm))
  {
    hide Run, Shifted, Shifted32, ShiftResult, AluResult, Wrap;
    AluImm(imm, 0);
    AluImm(0, 0);
    AluSum(ReadX(c.hart, rs1), ReadX(c.hart, rs1));
    var a := ReadX(c.hart, rs1);
    ShiftEdges(op, a, imm);
    ShiftIs(op, a, imm);
    if rd == 0 {
      NothingRuns(c, Shifted(op, a, imm));
    } else if rs1 == 0 {
      LoadImmRuns(rd, 0, c);
    } else if imm == 0 {
      MoveRuns(rd, rs1, c);
    } else if rd == rs1 {
      Run1(Shift(op, Xr(rd), Signext(imm)), c);
    } else {
      Run3(Mov(Rax, L(Xr(rs1))),
           if op == ShlOp && imm == 1 then Alu(AddOp, Rax, L(Rax)) else Shift(op, Rax, Signext(imm)),
           Mov(Xr(rd), L(Rax)), c);
    }
  }

  lemma SetFromCompareRuns(rd: nat, rs: nat, imm: int, cc: Cond, c: Cpu)
    requires Ready(c) && rd < 32 && rs < 32
    ensures Sets(Run(SetFromCompare(rd, rs, imm, cc), c), c, rd, Bool(Relation(cc, ReadX(c.hart, rs), Wrap(imm))))
  {
    hide Run, Compare, Holds, Relation, Words.Xor, Words.And, Words.Or;
    var v := Bool(Relation(cc, ReadX(c.hart, rs), Wrap(imm)));
    BitIdentities(Wrap32(c.rax));
    CompareHolds(cc, ReadX(c.hart, rs), Wrap(imm));
    StoreAfter3(Alu(XorOp, Eax, L(Eax)), Cmp(Xr(rs), Signext(imm)), Setcc(cc), rd, RAX, Qword, c, v);
  }

  lemma {:induction false} Top(x: int, n: nat)
    requires 0 <= x < Powers.Pow2(n + 1)
    ensures FloorShift(x, n) == if x < Powers.Pow2(n) then 0 else 1
    decreases n
  {
    if n > 0 {
      Top(x / 2, n - 1);
    }
  }

  lemma SignBitIs(a: u64)
    ensures ShiftRight(a, 63) == Bool(Signed(a) < 0)
  {
    TwoTo63();
    Top(a, 63);
  }

  lemma Shl9(x: int, n: nat)
    ensures Powers.Shl(x, n + 9) == 512 * Powers.Shl(x, n)
  {
    assert Powers.Shl(x, n + 3) == 8 * Powers.Shl(x, n) by {
      assert Powers.Shl(x, n + 2) == 4 * Powers.Shl(x, n);
    }
    assert Powers.Shl(x, n + 6) == 8 * Powers.Shl(x, n + 3) by {
      assert Powers.Shl(x, n + 5) == 4 * Powers.Shl(x, n + 3);
    }
    assert Powers.Shl(x, n + 8) == 4 * Powers.Shl(x, n + 6);
  }

  lemma TwoTo63()
    ensures Powers.Pow2(63) == 0x8000_0000_0000_0000 && Powers.Pow2(64) == W
  {
    Shl9(1, 0);
    Shl9(1, 9);
    Shl9(1, 18);
    Shl9(1, 27);
    Shl9(1, 36);
    Shl9(1, 45);
    Shl9(1, 54);
  }

  lemma SignBitRuns(rd: nat, rs1: nat, c: Cpu)
    requires Ready(c) && 0 < rd < 32 && rs1 < 32
    ensures Sets(Run(SignBit(rd, rs1), c), c, rd, Bool(Signed(ReadX(c.hart, rs1)) < 0))
  {
    hide Run, ShiftRight, ShiftArith, ShiftLeft;
    var a := ReadX(c.hart, rs1);
    SignBitIs(a);
    if rd == rs1 {
      Run1(Shift(ShrOp, Xr(rd), Imm(63)), c);
    } else {
      LoadRegRuns(RAX, Qword, rs1, c);
      hide LoadReg;
      StoreAfter2(LoadReg(RAX, Qword, rs1), Shift(ShrOp, Rax, Imm(63)), rd, RAX, Qword, c, Bool(Signed(a) < 0));
    }
  }

  // ----- OP -----

  /** The two-operand forms on registers that are neither x0 nor equal. */
  lemma LogicRuns(op: AluOp, rd: nat, rs1: nat, rs2: nat, c: Cpu, v: u64)
    requires Ready(c) && 0 < rd < 32 && 0 < rs1 < 32 && 0 < rs2 < 32
    requires AluResult(op, ReadX(c.hart, rs1), ReadX(c.hart, rs2), Qword) == v
    requires AluResult(op, ReadX(c.hart, rs2), ReadX(c.hart, rs1), Qword) == v
    ensures Sets(Run(Logic(op, rd, rs1, rs2), c), c, rd, v)
  {
    hide Run, AluResult;
    if rd == rs1 {
      Run2(LoadReg(RAX, Qword, rs2), Alu(op, Xr(rd), L(Rax)), c);
    } else if rd == rs2 {
      Run2(LoadReg(RAX, Qword, rs1), Alu(op, Xr(rd), L(Rax)), c);
    } else {
      StoreAfter2(LoadReg(RAX, Qword, rs1), Alu(op, Rax, L(Xr(rs2))), rd, RAX, Qword, c, v);
    }
  }

  lemma AddRuns(rd: nat, rs1: nat, rs2: nat, c: Cpu)
    requires Ready(c) && rd < 32 && rs1 < 32 && rs2 < 32
    ensures Sets(Run(Add(rd, rs1, rs2), c), c, rd, Wrap(ReadX(c.hart, rs1) + ReadX(c.hart, rs2)))
  {
    hide Run, ShiftLeft, Wrap, AluResult;
    AluSum(ReadX(c.hart, rs1), ReadX(c.hart, rs2));
    AluSum(ReadX(c.hart, rs2), ReadX(c.hart, rs1));
    AluImm(ReadX(c.hart, rs1), 0);
    AluImm(ReadX(c.hart, rs2), 0);
    var a: int, b: int := ReadX(c.hart, rs1), ReadX(c.hart, rs2);
    if rd == 0 {
      NothingRuns(c, Wrap(a + b));
    } else if rs1 == 0 {
      MoveRuns(rd, rs2, c);
    } else if rs2 == 0 {
      MoveRuns(rd, rs1, c);
    } else if rd == rs1 && rd == rs2 {
      ShiftLeftOne(a);
      Run1(Shift(ShlOp, Xr(rd), Imm(1)), c);
    } else if rd != rs1 && rd != rs2 && rs1 == rs2 {
      StoreAfter2(LoadReg(RAX, Qword, rs1), Alu(AddOp, Rax, L(Rax)), rd, RAX, Qword, c, Wrap(a + b));
    } else {
      LogicRuns(AddOp, rd, rs1, rs2, c, Wrap(a + b));
    }
  }

  lemma SubRuns(rd: nat, rs1: nat, rs2: nat, c: Cpu)
    requires Ready(c) && rd < 32 && rs1 < 32 && rs2 < 32
    ensures Sets(Run(Sub(rd, rs1, rs2), c), c, rd, Wrap(ReadX(c.hart, rs1) - ReadX(c.hart, rs2)))
  {
    hide Run;
    var a: int, b: int := ReadX(c.hart, rs1), ReadX(c.hart, rs2);
    if rd == 0 {
      NothingRuns(c, Wrap(a - b));
    } else if rs2 == 0 {
      MoveRuns(rd, rs1, c);
    } else if rs1 == rs2 {
      LoadImmRuns(rd, 0, c);
    } else if rd == rs1 {
      Run2(LoadReg(RAX, Qword, rs2), Alu(SubOp, Xr(rd), L(Rax)), c);
    } else if rd == rs2 && rs1 == 0 {
      Run1(NegI(Xr(rd)), c);
    } else if rs1 == 0 {
      StoreAfter2(LoadReg(RAX, Qword, rs2), NegI(Rax), rd, RAX, Qword, c, Wrap(a - b));
    } else {
      StoreAfter2(LoadReg(RAX, Qword, rs1), Alu(SubOp, Rax, L(Xr(rs2))), rd, RAX, Qword, c, Wrap(a - b));
    }
  }

  lemma ShiftRegRuns(op: ShiftOp, rd: nat, rs1: nat, rs2: nat, c: Cpu)
    requires Ready(c) && rd < 32 && rs1 < 32 && rs2 < 32
    ensures Sets(Run(ShiftReg(op, rd, rs1, rs2), c), c, rd,
                 Shifted(op, ReadX(c.hart, rs1), ReadX(c.hart, rs2) % 64))
  {
    hide Run, Shifted, Shifted32, ShiftResult;
    var a, b := ReadX(c.hart, rs1), ReadX(c.hart, rs2);
    var v := Shifted(op, a, b % 64);
    ShiftEdges(op, a, b % 64);
    ShiftIs(op, a, b);
    MergeByte(c.rcx, b);
    if rd == 0 {
      NothingRuns(c, v);
    } else if rs1 == 0 {
      LoadImmRuns(rd, 0, c);
    } else if rs2 == 0 {
      MoveRuns(rd, rs1, c);
    } else if rd == rs1 {
      Run2(Mov(Cl, L(X(rs2, Byte))), Shift(op, Xr(rd), L(Cl)), c);
    } else {
      StoreAfter3(LoadReg(RAX, Qword, rs1), Mov(Cl, L(X(rs2, Byte))), Shift(op, Rax, L(Cl)), rd, RAX, Qword, c, v);
    }
  }

  lemma MergeByte(p: u64, v: u64)
    ensures Merge(p, v, Byte) % 0x100 == v % 0x100
    ensures Merge(p, v % 0x100, Byte) % 0x100 == v % 0x100
  {
  }

  lemma SetFromRegistersRuns(rd: nat, rs1: nat, rs2: nat, cc: Cond, c: Cpu)
    requires Ready(c) && 0 < rd < 32 && 0 < rs1 < 32 && 0 < rs2 < 32
    ensures Sets(Run(SetFromRegisters(rd, rs1, rs2, cc), c), c, rd,
                 Bool(Relation(cc, ReadX(c.hart, rs1), ReadX(c.hart, rs2))))
  {
    hide Run, Compare, Holds, Relation, Merge;
    var a, b := ReadX(c.hart, rs1), ReadX(c.hart, rs2);
    var v := Bool(Relation(cc, a, b));
    CompareHolds(cc, a, b);
    MergeByte(a, v);
    StoreAfter4(LoadReg(RAX, Qword, rs1), Cmp(Rax, L(Xr(rs2))), Setcc(cc), MovzxByte(RAX), rd, RAX, Qword, c, v);
  }

  lemma SltRuns(rd: nat, rs1: nat, rs2: nat, c: Cpu)
    requires Ready(c) && rd < 32 && rs1 < 32 && rs2 < 32
    ensures Sets(Run(Slt(rd, rs1, rs2), c), c, rd, Bool(Signed(ReadX(c.hart, rs1)) < Signed(ReadX(c.hart, rs2))))
  {
    hide Run, SetFromCompare, SetFromRegisters, SignBit;
    if rd == 0 {
      NothingRuns(c, Bool(Signed(ReadX(c.hart, rs1)) < Signed(ReadX(c.hart, rs2))));
    } else if rs1 == rs2 {
      LoadImmRuns(rd, 0, c);
    } else if rs1 == 0 {
      SetFromCompareRuns(rd, rs2, 0, Greater, c);
    } else if rs2 == 0 {
      SignBitRuns(rd, rs1, c);
    } else {
      SetFromRegistersRuns(rd, rs1, rs2, Less, c);
    }
  }

  lemma SltuRuns(rd: nat, rs1: nat, rs2: nat, c: Cpu)
    requires Ready(c) && rd < 32 && rs1 < 32 && rs2 < 32
    ensures Sets(Run(Sltu(rd, rs1, rs2), c), c, rd, Bool(ReadX(c.hart, rs1) < ReadX(c.hart, rs2)))
  {
    hide Run, SetFromCompare, SetFromRegisters;
    if rd == 0 {
      NothingRuns(c, Bool(ReadX(c.hart, rs1) < ReadX(c.hart, rs2)));
    } else if rs2 == 0 || rs1 == rs2 {
      LoadImmRuns(rd, 0, c);
    } else if rs1 == 0 {
      SetFromCompareRuns(rd, rs2, 0, NotEqual, c);
    } else {
      SetFromRegistersRuns(rd, rs1, rs2, Below, c);
    }
  }

  lemma XorRuns(rd: nat, rs1: nat, rs2: nat, c: Cpu)
    requires Ready(c) && rd < 32 && rs1 < 32 && rs2 < 32
    ensures Sets(Run(DbtEmit.Xor(rd, rs1, rs2), c), c, rd, Words.Xor(ReadX(c.hart, rs1), ReadX(c.hart, rs2)))
  {
    hide Run, Logic, Words.Xor, Words.And, Words.Or;
    var a, b := ReadX(c.hart, rs1), ReadX(c.hart, rs2);
    BitIdentities(a);
    BitIdentities(b);
    Commutes(a, b);
    if rd == 0 {
      NothingRuns(c, Words.Xor(a, b));
    } else if rs1 == 0 {
      MoveRuns(rd, rs2, c);
    } else if rs2 == 0 {
      MoveRuns(rd, rs1, c);
    } else if rs1 == rs2 {
      LoadImmRuns(rd, 0, c);
    } else {
      LogicRuns(XorOp, rd, rs1, rs2, c, Words.Xor(a, b));
    }
  }

  lemma OrRuns(rd: nat, rs1: nat, rs2: nat, c: Cpu)
    requires Ready(c) && rd < 32 && rs1 < 32 && rs2 < 32
    ensures Sets(Run(DbtEmit.Or(rd, rs1, rs2), c), c, rd, Words.Or(ReadX(c.hart, rs1), ReadX(c.hart, rs2)))
  {
    hide Run, Logic, Words.Xor, Words.And, Words.Or;
    var a, b := ReadX(c.hart, rs1), ReadX(c.hart, rs2);
    BitIdentities(a);
    BitIdentities(b);
    Commutes(a, b);
    if rd == 0 {
      NothingRuns(c, Words.Or(a, b));
    } else if rs1 == 0 {
      MoveRuns(rd, rs2, c);
    } else if rs2 == 0 || rs1 == rs2 {
      MoveRuns(rd, rs1, c);
    } else {
      LogicRuns(OrOp, rd, rs1, rs2, c, Words.Or(a, b));
    }
  }

  lemma AndRuns(rd: nat, rs1: nat, rs2: nat, c: Cpu)
    requires Ready(c) && rd < 32 && rs1 < 32 && rs2 < 32
    ensures Sets(Run(DbtEmit.And(rd, rs1, rs2), c), c, rd, Words.And(ReadX(c.hart, rs1), ReadX(c.hart, rs2)))
  {
    hide Run, Logic, Words.Xor, Words.And, Words.Or;
    var a, b := ReadX(c.hart, rs1), ReadX(c.hart, rs2);
    BitIdentities(a);
    BitIdentities(b);
    Commutes(a, b);
    if rd == 0 {
      NothingRuns(c, Words.And(a, b));
    } else if rs1 == 0 || rs2 == 0 {
      LoadImmRuns(rd, 0, c);
    } else if rs1 == rs2 {
      MoveRuns(rd, rs1, c);
    } else {
      LogicRuns(AndOp, rd, rs1, rs2, c, Words.And(a, b));
    }
  }

  lemma LogicImmRuns(op: AluOp, rd: nat, rs1: nat, imm: int, c: Cpu)
    requires Ready(c) && 0 < rd < 32 && 0 < rs1 < 32
    ensures Sets(Run(LogicImm(op, rd, rs1, imm), c), c, rd, AluResult(op, ReadX(c.hart, rs1), Wrap(imm), Qword))
  {
    hide Run, AluResult, Wrap;
    if rd == rs1 {
      Run1(Alu(op, Xr(rd), Signext(imm)), c);
    } else {
      StoreAfter2(LoadReg(RAX, Qword, rs1), Alu(op, Rax, Signext(imm)), rd, RAX, Qword, c,
                  AluResult(op, ReadX(c.hart, rs1), Wrap(imm), Qword));
    }
  }

  lemma XoriRuns(rd: nat, rs1: nat, imm: int, c: Cpu)
    requires Ready(c) && rd < 32 && rs1 < 32
    ensures Sets(Run(Xori(rd, rs1, imm), c), c, rd, Words.Xor(ReadX(c.hart, rs1), Wrap(imm)))
  {
    hide Run, LogicImm, Words.Xor, Words.And, Words.Or;
    var a := ReadX(c.hart, rs1);
    BitIdentities(a);
    BitIdentities(Wrap(imm));
    if rd == 0 {
      NothingRuns(c, Words.Xor(a, Wrap(imm)));
    } else if rs1 == 0 {
      LoadImmRuns(rd, imm, c);
    } else if imm == 0 {
      MoveRuns(rd, rs1, c);
    } else if imm == -1 {
      if rd == rs1 {
        Run1(NotI(Xr(rd)), c);
      } else {
        StoreAfter2(LoadReg(RAX, Qword, rs1), NotI(Rax), rd, RAX, Qword, c, Not(a));
      }
    } else {
      LogicImmRuns(XorOp, rd, rs1, imm, c);
    }
  }

  lemma OriRuns(rd: nat, rs1: nat, imm: int, c: Cpu)
    requires Ready(c) && rd < 32 && rs1 < 32
    ensures Sets(Run(Ori(rd, rs1, imm), c), c, rd, Words.Or(ReadX(c.hart, rs1), Wrap(imm)))
  {
    hide Run, LogicImm, Words.Xor, Words.And, Words.Or;
    var a := ReadX(c.hart, rs1);
    BitIdentities(a);
    BitIdentities(Wrap(imm));
    if rd == 0 {
      NothingRuns(c, Words.Or(a, Wrap(imm)));
    } else if rs1 == 0 {
      LoadImmRuns(rd, imm, c);
    } else if imm == 0 {
      MoveRuns(rd, rs1, c);
    } else if imm == -1 {
      LoadImmRuns(rd, -1, c);
    } else {
      LogicImmRuns(OrOp, rd, rs1, imm, c);
    }
  }

  lemma AndiRuns(rd: nat, rs1: nat, imm: int, c: Cpu)
    requires Ready(c) && rd < 32 && rs1 < 32
    ensures Sets(Run(Andi(rd, rs1, imm), c), c, rd, Words.And(ReadX(c.hart, rs1), Wrap(imm)))
  {
    hide Run, LogicImm, Words.Xor, Words.And, Words.Or;
    var a := ReadX(c.hart, rs1);
    BitIdentities(a);
    BitIdentities(Wrap(imm));
    if rd == 0 {
      NothingRuns(c, Words.And(a, Wrap(imm)));
    } else if rs1 == 0 || imm == 0 {
      LoadImmRuns(rd, 0, c);
    } else if imm == -1 {
      MoveRuns(rd, rs1, c);
    } else {
      LogicImmRuns(AndOp, rd, rs1, imm, c);
    }
  }

  /** The constant stored first for x0 is overwritten by the same value. */
  lemma SltiRuns(rd: nat, rs1: nat, imm: int, c: Cpu)
    requires Ready(c) && rd < 32 && rs1 < 32
    requires -0x8000_0000 <= imm < 0x8000_0000
    ensures Sets(Run(Slti(rd, rs1, imm), c), c, rd, Bool(Signed(ReadX(c.hart, rs1)) < imm))
  {
    hide Run, SetFromCompare, SignBit, LoadImm;
    if rd == 0 {
      NothingRuns(c, Bool(Signed(ReadX(c.hart, rs1)) < imm));
    } else {
      var head := if rs1 == 0 then LoadImm(rd, if imm > 0 then 1 else 0) else [];
      var tail := if imm == 0 then SignBit(rd, rs1)
                  else if imm > 0 then SetFromCompare(rd, rs1, imm - 1, LessEqual)
                  else SetFromCompare(rd, rs1, imm, Less);
      RunAppend(head, tail, c);
      var d := Run(head, c);
      Preloaded(rd, rs1, head, if imm > 0 then 1 else 0, c);
      if imm == 0 {
        SignBitRuns(rd, rs1, d);
      } else if imm > 0 {
        SetFromCompareRuns(rd, rs1, imm - 1, LessEqual, d);
      } else {
        SetFromCompareRuns(rd, rs1, imm, Less, d);
      }
    }
  }

  lemma SltiuRuns(rd: nat, rs1: nat, imm: int, c: Cpu)
    requires Ready(c) && rd < 32 && rs1 < 32
    requires -0x8000_0000 <= imm < 0x8000_0000
    ensures Sets(Run(Sltiu(rd, rs1, imm), c), c, rd, Bool(ReadX(c.hart, rs1) < Wrap(imm)))
  {
    hide Run, SetFromCompare, LoadImm;
    if rd == 0 {
      NothingRuns(c, Bool(ReadX(c.hart, rs1) < Wrap(imm)));
    } else {
      var k := if imm != 0 then 1 else 0;
      var head := if rs1 == 0 then LoadImm(rd, k) else [];
      var zero := if imm == 0 then LoadImm(rd, 0) else [];
      var cc := SltiuCond(imm);
      var tail := SetFromCompare(rd, rs1, if imm > 0 then imm - 1 else imm, cc);
      RunAppend(head + zero, tail, c);
      RunAppend(head, zero, c);
      var d := Run(head, c);
      Preloaded(rd, rs1, head, k, c);
      var e := Run(zero, d);
      if imm == 0 {
        LoadImmRuns(rd, 0, d);
        Overwrite(d.hart, rd, 0);
      } else {
        NothingRuns(d, 0);
      }
      SetFromCompareRuns(rd, rs1, if imm > 0 then imm - 1 else imm, cc, e);
      SltiuMeaning(ReadX(e.hart, rs1), imm);
      if imm == 0 && rd == rs1 {
        assert ReadX(e.hart, rs1) == 0;
      }
    }
  }

  function SltiuCond(imm: int): Cond {
    if imm > 0 then (if imm == 1 then Equal else BelowEqual)
    else if imm == -1 then NotEqual else Below
  }

  lemma SltiuMeaning(a: u64, imm: int)
    requires -0x8000_0000 <= imm < 0x8000_0000
    ensures Relation(SltiuCond(imm), a, Wrap(if imm > 0 then imm - 1 else imm)) == (a < Wrap(imm))
  {
  }

  /** A constant stored to `rd` ahead of the general code leaves every other register alone. */
  lemma Preloaded(rd: nat, rs1: nat, head: Code, k: int, c: Cpu)
    requires Ready(c) && 0 < rd < 32 && rs1 < 32
    requires head == (if rs1 == 0 then LoadImm(rd, k) else [])
    ensures var d := Run(head, c);
      Ready(d) && ReadX(d.hart, rs1) == ReadX(c.hart, rs1)
      && forall v: u64 :: WriteX(d.hart, rd, v) == WriteX(c.hart, rd, v)
  {
    hide LoadImm;
    if rs1 == 0 {
      LoadImmRuns(rd, k, c);
      Overwrite(c.hart, rd, Wrap(k));
    } else {
      assert Run([], c) == c;
    }
  }

  lemma Overwrite(h: Hart, rd: nat, k: u64)
    requires Valid(h) && 0 < rd < 32
    ensures forall v: u64 :: WriteX(WriteX(h, rd, k), rd, v) == WriteX(h, rd, v)
  {
    forall v: u64
      ensures WriteX(WriteX(h, rd, k), rd, v) == WriteX(h, rd, v)
    {
      assert h.x[rd := k][rd := v] == h.x[rd := v];
    }
  }
}
