/** The 32-bit operations: results are computed in EAX and sign-extended. */
module DbtOps32 {
  import opened Words
  import opened Guest
  import opened X86
  import opened DbtEmit
  import opened DbtOps
  import R = Riscv

  /** Two instructions on EAX followed by the sign-extending store. */
  lemma StoreHalf2(i: Instr, j: Instr, rd: nat, c: Cpu, v: u64)
    requires Ready(c) && rd < 32
    requires Exec(j, Exec(i, c)).hart == c.hart && Exec(j, Exec(i, c)).ok
    requires Wrap32(Exec(j, Exec(i, c)).rax) == Wrap32(v)
    ensures Sets(Run([i, j] + StoreReg(rd, RAX, Dword), c), c, rd, Sext32(v))
  {
    hide Exec, StoreReg, Run, Sext32, Wrap32;
    R.Sext32Same(Exec(j, Exec(i, c)).rax, v);
    StoreAfter2(i, j, rd, RAX, Dword, c, Sext32(v));
  }

  /** Reading or writing the low half again changes nothing. */
  lemma Halved(v: u64)
    ensures Lower(v, Dword) == Wrap32(v) && Lower(Wrap32(v), Dword) == Wrap32(v) && Wrap32(Wrap32(v)) == Wrap32(v)
  {
  }

  lemma HalfAlu(a: u64, b: u64)
    ensures AluResult(AddOp, Wrap32(a), Wrap32(b), Dword) == Wrap32(Wrap32(a) + Wrap32(b))
    ensures AluResult(SubOp, Wrap32(a), Wrap32(b), Dword) == Wrap32(Wrap32(a) - Wrap32(b))
    ensures Truncate(0 - Wrap32(b), Dword) == Wrap32(0 - Wrap32(b)) && Wrap32(0) == 0
    ensures Lower(Wrap32(Wrap32(a) + Wrap32(b)), Dword) == Wrap32(Wrap32(a) + Wrap32(b)) == Wrap32(Wrap32(Wrap32(a) + Wrap32(b)))
    ensures Lower(Wrap32(Wrap32(a) - Wrap32(b)), Dword) == Wrap32(Wrap32(a) - Wrap32(b)) == Wrap32(Wrap32(Wrap32(a) - Wrap32(b)))
  {
  }

  lemma AddiwRuns(rd: nat, rs1: nat, imm: int, c: Cpu)
    requires Ready(c) && rd < 32 && rs1 < 32
    requires -0x8000_0000 <= imm < 0x8000_0000
    ensures Sets(Run(Addiw(rd, rs1, imm), c), c, rd, R.ImmValue(R.Addiw, ReadX(c.hart, rs1), imm))
  {
    hide Run, AluResult, Sext32, Wrap;
    var a := ReadX(c.hart, rs1);
    var v := Wrap(Signed32(a) + imm);
    if rd == 0 {
      NothingRuns(c, Sext32(v));
    } else if rs1 == 0 {
      SextImm(imm);
      LoadImmRuns(rd, imm, c);
    } else if imm == 0 {
      WrapSame(a);
      Move32Runs(rd, rs1, c);
    } else {
      AddiwGeneral(rd, rs1, imm, c);
    }
  }

  lemma AddiwGeneral(rd: nat, rs1: nat, imm: int, c: Cpu)
    requires Ready(c) && 0 < rd < 32 && 0 < rs1 < 32
    ensures Sets(Run([LoadReg(RAX, Dword, rs1), Alu(AddOp, Eax, Signext(imm))] + StoreReg(rd, RAX, Dword), c), c, rd,
                 Sext32(Wrap(Signed32(ReadX(c.hart, rs1)) + imm)))
  {
    hide Run, AluResult, Sext32, Signed32, Wrap, Wrap32, Lower;
    var a := ReadX(c.hart, rs1);
    Halved(a);
    Halved(Wrap(imm));
    R.HalfSumImm(a, imm);
    HalfAlu(a, Wrap(imm));
    StoreHalf2(LoadReg(RAX, Dword, rs1), Alu(AddOp, Eax, Signext(imm)), rd, c, Wrap(Signed32(a) + imm));
  }

  lemma SextImm(imm: int)
    requires -0x8000_0000 <= imm < 0x8000_0000
    ensures Signed32(0) == 0 && Sext32(Wrap(imm)) == Wrap(imm)
  {
  }

  lemma WrapSame(a: u64)
    ensures Sext32(Wrap(Signed32(a))) == Sext32(a)
  {
  }

  lemma SextZero()
    ensures Sext32(0) == 0 && Wrap(0) == 0 && Wrap32(0) == 0
  {
  }

  lemma ShiftImm32Runs(op: ShiftOp, rd: nat, rs1: nat, imm: nat, c: Cpu)
    requires Ready(c) && rd < 32 && rs1 < 32 && imm < 32
    ensures Sets(Run(ShiftImm32(op, rd, rs1, imm), c), c, rd, Sext32(Shifted32(op, ReadX(c.hart, rs1), imm)))
  {
    hide Run, Shifted, Shifted32, ShiftResult, AluResult, Sext32;
    var a := ReadX(c.hart, rs1);
    var v := Shifted32(op, a, imm);
    ShiftEdges(op, a, imm);
    SextZero();
    if rd == 0 {
      NothingRuns(c, Sext32(v));
    } else if rs1 == 0 {
      LoadImmRuns(rd, 0, c);
    } else if imm == 0 {
      Move32Runs(rd, rs1, c);
    } else {
      ShiftImm32General(op, rd, rs1, imm, c);
    }
  }

  lemma ShiftImm32General(op: ShiftOp, rd: nat, rs1: nat, imm: nat, c: Cpu)
    requires Ready(c) && 0 < rd < 32 && 0 < rs1 < 32 && 0 < imm < 32
    ensures Sets(Run(ShiftImm32(op, rd, rs1, imm), c), c, rd, Sext32(Shifted32(op, ReadX(c.hart, rs1), imm)))
  {
    hide Run, Shifted, Shifted32, ShiftResult, AluResult, Sext32, Lower, Wrap, Wrap32;
    var a := ReadX(c.hart, rs1);
    var v := Shifted32(op, a, imm);
    ShiftEdges(op, a, imm);
    ShiftIs(op, Wrap32(a), imm);
    ShiftIs(op, a, imm);
    Halved(a);
    SmallImm(imm);
    Bounded(op, a, imm);
    Halved(v);
    HalfAlu(a, a);
    StoreHalf2(LoadReg(RAX, Dword, rs1),
               if op == ShlOp && imm == 1 then Alu(AddOp, Eax, L(Eax)) else Shift(op, Eax, Signext(imm)),
               rd, c, v);
  }

  lemma SmallImm(imm: nat)
    requires imm < 32
    ensures Wrap(imm) == imm && Lower(imm, Byte) == imm && imm % 0x100 == imm && imm % 32 == imm
  {
  }

  lemma AddwRuns(rd: nat, rs1: nat, rs2: nat, c: Cpu)
    requires Ready(c) && rd < 32 && rs1 < 32 && rs2 < 32
    ensures Sets(Run(Addw(rd, rs1, rs2), c), c, rd, R.RegValue(R.Addw, ReadX(c.hart, rs1), ReadX(c.hart, rs2)))
  {
    hide Run, AluResult;
    var a, b := ReadX(c.hart, rs1), ReadX(c.hart, rs2);
    var v := Wrap(Signed32(a) + Signed32(b));
    if rd == 0 {
      NothingRuns(c, Sext32(v));
    } else if rs1 == 0 {
      WrapSame(b);
      Move32Runs(rd, rs2, c);
    } else if rs2 == 0 {
      WrapSame(a);
      Move32Runs(rd, rs1, c);
    } else {
      AddwGeneral(rd, rs1, rs2, c);
    }
  }

  lemma AddwGeneral(rd: nat, rs1: nat, rs2: nat, c: Cpu)
    requires Ready(c) && 0 < rd < 32 && 0 < rs1 < 32 && 0 < rs2 < 32
    ensures Sets(Run(Addw(rd, rs1, rs2), c), c, rd,
                 Sext32(Wrap(Signed32(ReadX(c.hart, rs1)) + Signed32(ReadX(c.hart, rs2)))))
  {
    hide Run, AluResult, Sext32, Signed32, Wrap, Wrap32, Lower;
    var a, b := ReadX(c.hart, rs1), ReadX(c.hart, rs2);
    Halved(a);
    Halved(b);
    R.HalfSum(a, b);
    HalfAlu(a, b);
    StoreHalf2(LoadReg(RAX, Dword, rs1), Alu(AddOp, Eax, L(if rs1 == rs2 then Eax else Xw(rs2))), rd, c,
               Wrap(Signed32(a) + Signed32(b)));
  }

  lemma SubwRuns(rd: nat, rs1: nat, rs2: nat, c: Cpu)
    requires Ready(c) && rd < 32 && rs1 < 32 && rs2 < 32
    ensures Sets(Run(Subw(rd, rs1, rs2), c), c, rd, R.RegValue(R.Subw, ReadX(c.hart, rs1), ReadX(c.hart, rs2)))
  {
    hide Run, AluResult;
    var a, b := ReadX(c.hart, rs1), ReadX(c.hart, rs2);
    var v := Wrap(Signed32(a) - Signed32(b));
    if rd == 0 {
      NothingRuns(c, Sext32(v));
    } else if rs2 == 0 {
      WrapSame(a);
      Move32Runs(rd, rs1, c);
    } else if rs1 == rs2 {
      LoadImmRuns(rd, 0, c);
    } else {
      SubwGeneral(rd, rs1, rs2, c);
    }
  }

  lemma SubwGeneral(rd: nat, rs1: nat, rs2: nat, c: Cpu)
    requires Ready(c) && 0 < rd < 32 && rs1 < 32 && 0 < rs2 < 32 && rs1 != rs2
    ensures Sets(Run(Subw(rd, rs1, rs2), c), c, rd,
                 Sext32(Wrap(Signed32(ReadX(c.hart, rs1)) - Signed32(ReadX(c.hart, rs2)))))
  {
    hide Run, AluResult, Sext32, Signed32, Wrap, Wrap32, Lower;
    var a, b := ReadX(c.hart, rs1), ReadX(c.hart, rs2);
    var v := Wrap(Signed32(a) - Signed32(b));
    Halved(a);
    Halved(b);
    R.HalfDifference(a, b);
    HalfAlu(a, b);
    if rs1 == 0 {
      StoreHalf2(LoadReg(RAX, Dword, rs2), NegI(Eax), rd, c, v);
    } else {
      StoreHalf2(LoadReg(RAX, Dword, rs1), Alu(SubOp, Eax, L(Xw(rs2))), rd, c, v);
    }
  }

  lemma ShiftReg32Runs(op: ShiftOp, rd: nat, rs1: nat, rs2: nat, c: Cpu)
    requires Ready(c) && rd < 32 && rs1 < 32 && rs2 < 32
    ensures Sets(Run(ShiftReg32(op, rd, rs1, rs2), c), c, rd,
                 Sext32(Shifted32(op, ReadX(c.hart, rs1), ReadX(c.hart, rs2) % 32)))
  {
    hide Run, Shifted, Shifted32, ShiftResult, Sext32;
    var a, b := ReadX(c.hart, rs1), ReadX(c.hart, rs2);
    var v := Shifted32(op, a, b % 32);
    ShiftEdges(op, a, b % 32);
    SextZero();
    if rd == 0 {
      NothingRuns(c, Sext32(v));
    } else if rs1 == 0 {
      LoadImmRuns(rd, 0, c);
    } else if rs2 == 0 {
      Move32Runs(rd, rs1, c);
    } else {
      ShiftReg32General(op, rd, rs1, rs2, c);
    }
  }

  lemma ShiftReg32General(op: ShiftOp, rd: nat, rs1: nat, rs2: nat, c: Cpu)
    requires Ready(c) && 0 < rd < 32 && 0 < rs1 < 32 && 0 < rs2 < 32
    ensures Sets(Run(ShiftReg32(op, rd, rs1, rs2), c), c, rd,
                 Sext32(Shifted32(op, ReadX(c.hart, rs1), ReadX(c.hart, rs2) % 32)))
  {
    hide Run, Shifted, Shifted32, ShiftResult, Sext32, Merge, Wrap32;
    var a, b := ReadX(c.hart, rs1), ReadX(c.hart, rs2);
    var v := Shifted32(op, a, b % 32);
    ShiftIs(op, Wrap32(a), b);
    ShiftIs(op, a, b);
    MergeByte(c.rcx, b);
    Bounded(op, a, b % 32);
    Halved(a);
    StoreAfter3(LoadReg(RAX, Dword, rs1), Mov(Cl, L(X(rs2, Byte))), Shift(op, Eax, L(Cl)), rd, RAX, Dword, c, Sext32(v));
  }

  lemma Bounded(op: ShiftOp, a: u64, n: nat)
    ensures Wrap32(Shifted32(op, a, n)) == Shifted32(op, a, n)
  {
    hide ShiftLeft32, ShiftRight32, ShiftArith32;
  }
}
