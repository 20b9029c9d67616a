/** The x86 sequences that the translator emits for the integer instructions. */
module DbtEmit {
  import opened Words
  import opened X86
  import R = Riscv

  const Rax: Loc := Reg(RAX, Qword)
  const Eax: Loc := Reg(RAX, Dword)
  const Rcx: Loc := Reg(RCX, Qword)
  const Cl: Loc := Reg(RCX, Byte)
  const Rdx: Loc := Reg(RDX, Qword)
  const Edx: Loc := Reg(RDX, Dword)
  const Rsi: Loc := Reg(RSI, Qword)

  type Code = seq<Instr>

  /** The context slot of a guest register. */
  function Xr(r: nat): Loc { X(r, Qword) }
  function Xw(r: nat): Loc { X(r, Dword) }

  function Signext(imm: int): Operand { Imm(Wrap(imm)) }

  function LoadReg(r: Gpr, s: Size, rs: nat): Instr {
    if rs == 0 then Alu(XorOp, Reg(r, Dword), L(Reg(r, Dword))) else Mov(Reg(r, s), L(X(rs, s)))
  }

  function StoreReg(rd: nat, r: Gpr, s: Size): Code {
    if rd == 0 then []
    else if s == Qword then [Mov(Xr(rd), L(Reg(r, Qword)))]
    else if r == RAX then [Cdqe, Mov(Xr(rd), L(Rax))]
    else [Movsxd(r, Reg(r, Dword)), Mov(Xr(rd), L(Reg(r, Qword)))]
  }

  function LoadImm(rd: nat, imm: int): Code {
    if rd == 0 then [] else [Mov(Xr(rd), Signext(imm))]
  }

  function Move(rd: nat, rs: nat): Code {
    if rd == 0 || rd == rs then []
    else if rs == 0 then LoadImm(rd, 0)
    else [Mov(Rax, L(Xr(rs))), Mov(Xr(rd), L(Rax))]
  }

  function Move32(rd: nat, rs: nat): Code {
    if rd == 0 then []
    else if rs == 0 then LoadImm(rd, 0)
    else [Movsxd(RAX, Xw(rs)), Mov(Xr(rd), L(Rax))]
  }

  // ----- OP-IMM -----

  function Addi(rd: nat, rs1: nat, imm: int): Code {
    if rd == 0 then []
    else if rs1 == 0 then LoadImm(rd, imm)
    else if imm == 0 then Move(rd, rs1)
    else if rd == rs1 then [Alu(AddOp, Xr(rd), Signext(imm))]
    else [Mov(Rax, L(Xr(rs1))), Alu(AddOp, Rax, Signext(imm)), Mov(Xr(rd), L(Rax))]
  }

  function ShiftImm(op: ShiftOp, rd: nat, rs1: nat, imm: int): Code {
    if rd == 0 then []
    else if rs1 == 0 then LoadImm(rd, 0)
    else if imm == 0 then Move(rd, rs1)
    else if rd == rs1 then [Shift(op, Xr(rd), Signext(imm))]
    else [Mov(Rax, L(Xr(rs1))),
          if op == ShlOp && imm == 1 then Alu(AddOp, Rax, L(Rax)) else Shift(op, Rax, Signext(imm)),
          Mov(Xr(rd), L(Rax))]
  }

  /** SETcc on a cleared EAX after comparing a guest register with a constant. */
  function SetFromCompare(rd: nat, rs: nat, imm: int, cc: Cond): Code {
    [Alu(XorOp, Eax, L(Eax)), Cmp(Xr(rs), Signext(imm)), Setcc(cc)] + StoreReg(rd, RAX, Qword)
  }

  /** The sign bit as a logical shift by 63. */
  function SignBit(rd: nat, rs1: nat): Code {
    if rd == rs1 then [Shift(ShrOp, Xr(rd), Imm(63))]
    else [LoadReg(RAX, Qword, rs1), Shift(ShrOp, Rax, Imm(63))] + StoreReg(rd, RAX, Qword)
  }

  /** For `rs1 == 0` the constant is stored first, and the general code still follows. */
  function Slti(rd: nat, rs1: nat, imm: int): Code {
    if rd == 0 then []
    else
      (if rs1 == 0 then LoadImm(rd, if imm > 0 then 1 else 0) else []) +
      (if imm == 0 then SignBit(rd, rs1)
       else if imm > 0 then SetFromCompare(rd, rs1, imm - 1, LessEqual)
       else SetFromCompare(rd, rs1, imm, Less))
  }

  /** As for `Slti`: both early constants fall through to the general code. */
  function Sltiu(rd: nat, rs1: nat, imm: int): Code {
    if rd == 0 then []
    else
      (if rs1 == 0 then LoadImm(rd, if imm != 0 then 1 else 0) else []) +
      (if imm == 0 then LoadImm(rd, 0) else []) +
      (if imm > 0 then SetFromCompare(rd, rs1, imm - 1, if imm == 1 then Equal else BelowEqual)
       else SetFromCompare(rd, rs1, imm, if imm == -1 then NotEqual else Below))
  }

  function LogicImm(op: AluOp, rd: nat, rs1: nat, imm: int): Code {
    if rd == rs1 then [Alu(op, Xr(rd), Signext(imm))]
    else [LoadReg(RAX, Qword, rs1), Alu(op, Rax, Signext(imm))] + StoreReg(rd, RAX, Qword)
  }

  function Xori(rd: nat, rs1: nat, imm: int): Code {
    if rd == 0 then []
    else if rs1 == 0 then LoadImm(rd, imm)
    else if imm == 0 then Move(rd, rs1)
    else if imm == -1 then
      if rd == rs1 then [NotI(Xr(rd))]
      else [LoadReg(RAX, Qword, rs1), NotI(Rax)] + StoreReg(rd, RAX, Qword)
    else LogicImm(XorOp, rd, rs1, imm)
  }

  function Ori(rd: nat, rs1: nat, imm: int): Code {
    if rd == 0 then []
    else if rs1 == 0 then LoadImm(rd, imm)
    else if imm == 0 then Move(rd, rs1)
    else if imm == -1 then LoadImm(rd, -1)
    else LogicImm(OrOp, rd, rs1, imm)
  }

  function Andi(rd: nat, rs1: nat, imm: int): Code {
    if rd == 0 then []
    else if rs1 == 0 || imm == 0 then LoadImm(rd, 0)
    else if imm == -1 then Move(rd, rs1)
    else LogicImm(AndOp, rd, rs1, imm)
  }

  // ----- OP-IMM-32 -----

  function Addiw(rd: nat, rs1: nat, imm: int): Code {
    if rd == 0 then []
    else if rs1 == 0 then LoadImm(rd, imm)
    else if imm == 0 then Move32(rd, rs1)
    else [LoadReg(RAX, Dword, rs1), Alu(AddOp, Eax, Signext(imm))] + StoreReg(rd, RAX, Dword)
  }

  function ShiftImm32(op: ShiftOp, rd: nat, rs1: nat, imm: int): Code {
    if rd == 0 then []
    else if rs1 == 0 then LoadImm(rd, 0)
    else if imm == 0 then Move32(rd, rs1)
    else [LoadReg(RAX, Dword, rs1),
          if op == ShlOp && imm == 1 then Alu(AddOp, Eax, L(Eax)) else Shift(op, Eax, Signext(imm))]
         + StoreReg(rd, RAX, Dword)
  }

  function EmitImm(k: R.ImmKind, rd: nat, rs1: nat, imm: int): Code {
    match k
    case Addi => Addi(rd, rs1, imm)
    case Slli => ShiftImm(ShlOp, rd, rs1, imm)
    case Slti => Slti(rd, rs1, imm)
    case Sltiu => Sltiu(rd, rs1, imm)
    case Xori => Xori(rd, rs1, imm)
    case Srli => ShiftImm(ShrOp, rd, rs1, imm)
    case Srai => ShiftImm(SarOp, rd, rs1, imm)
    case Ori => Ori(rd, rs1, imm)
    case Andi => Andi(rd, rs1, imm)
    case Addiw => Addiw(rd, rs1, imm)
    case Slliw => ShiftImm32(ShlOp, rd, rs1, imm)
    case Srliw => ShiftImm32(ShrOp, rd, rs1, imm)
    case Sraiw => ShiftImm32(SarOp, rd, rs1, imm)
  }

  // ----- OP -----

  function Add(rd: nat, rs1: nat, rs2: nat): Code {
    if rd == 0 then []
    else if rs1 == 0 then Move(rd, rs2)
    else if rs2 == 0 then Move(rd, rs1)
    else if rd == rs1 && rd == rs2 then [Shift(ShlOp, Xr(rd), Imm(1))]
    else if rd == rs1 then [LoadReg(RAX, Qword, rs2), Alu(AddOp, Xr(rd), L(Rax))]
    else if rd == rs2 then [LoadReg(RAX, Qword, rs1), Alu(AddOp, Xr(rd), L(Rax))]
    else if rs1 == rs2 then [LoadReg(RAX, Qword, rs1), Alu(AddOp, Rax, L(Rax))] + StoreReg(rd, RAX, Qword)
    else [LoadReg(RAX, Qword, rs1), Alu(AddOp, Rax, L(Xr(rs2)))] + StoreReg(rd, RAX, Qword)
  }

  function Sub(rd: nat, rs1: nat, rs2: nat): Code {
    if rd == 0 then []
    else if rs2 == 0 then Move(rd, rs1)
    else if rs1 == rs2 then LoadImm(rd, 0)
    else if rd == rs1 then [LoadReg(RAX, Qword, rs2), Alu(SubOp, Xr(rd), L(Rax))]
    else if rd == rs2 && rs1 == 0 then [NegI(Xr(rd))]
    else if rs1 == 0 then [LoadReg(RAX, Qword, rs2), NegI(Rax)] + StoreReg(rd, RAX, Qword)
    else [LoadReg(RAX, Qword, rs1), Alu(SubOp, Rax, L(Xr(rs2)))] + StoreReg(rd, RAX, Qword)
  }

  function ShiftReg(op: ShiftOp, rd: nat, rs1: nat, rs2: nat): Code {
    if rd == 0 then []
    else if rs1 == 0 then LoadImm(rd, 0)
    else if rs2 == 0 then Move(rd, rs1)
    else if rd == rs1 then [Mov(Cl, L(X(rs2, Byte))), Shift(op, Xr(rd), L(Cl))]
    else [LoadReg(RAX, Qword, rs1), Mov(Cl, L(X(rs2, Byte))), Shift(op, Rax, L(Cl))]
         + StoreReg(rd, RAX, Qword)
  }

  /** SETcc then MOVZX after comparing two guest registers. */
  function SetFromRegisters(rd: nat, rs1: nat, rs2: nat, cc: Cond): Code {
    [LoadReg(RAX, Qword, rs1), Cmp(Rax, L(Xr(rs2))), Setcc(cc), MovzxByte(RAX)] + StoreReg(rd, RAX, Qword)
  }

  function Slt(rd: nat, rs1: nat, rs2: nat): Code {
    if rd == 0 then []
    else if rs1 == rs2 then LoadImm(rd, 0)
    else if rs1 == 0 then SetFromCompare(rd, rs2, 0, Greater)
    else if rs2 == 0 then SignBit(rd, rs1)
    else SetFromRegisters(rd, rs1, rs2, Less)
  }

  function Sltu(rd: nat, rs1: nat, rs2: nat): Code {
    if rd == 0 then []
    else if rs2 == 0 || rs1 == rs2 then LoadImm(rd, 0)
    else if rs1 == 0 then SetFromCompare(rd, rs2, 0, NotEqual)
    else SetFromRegisters(rd, rs1, rs2, Below)
  }

  /** A commutative operation whose operands are distinct nonzero registers. */
  function Logic(op: AluOp, rd: nat, rs1: nat, rs2: nat): Code {
    if rd == rs1 then [LoadReg(RAX, Qword, rs2), Alu(op, Xr(rd), L(Rax))]
    else if rd == rs2 then [LoadReg(RAX, Qword, rs1), Alu(op, Xr(rd), L(Rax))]
    else [LoadReg(RAX, Qword, rs1), Alu(op, Rax, L(Xr(rs2)))] + StoreReg(rd, RAX, Qword)
  }

  function Xor(rd: nat, rs1: nat, rs2: nat): Code {
    if rd == 0 then []
    else if rs1 == 0 then Move(rd, rs2)
    else if rs2 == 0 then Move(rd, rs1)
    else if rs1 == rs2 then LoadImm(rd, 0)
    else Logic(XorOp, rd, rs1, rs2)
  }

  function Or(rd: nat, rs1: nat, rs2: nat): Code {
    if rd == 0 then []
    else if rs1 == 0 then Move(rd, rs2)
    else if rs2 == 0 || rs1 == rs2 then Move(rd, rs1)
    else Logic(OrOp, rd, rs1, rs2)
  }

  function And(rd: nat, rs1: nat, rs2: nat): Code {
    if rd == 0 then []
    else if rs1 == 0 || rs2 == 0 then LoadImm(rd, 0)
    else if rs1 == rs2 then Move(rd, rs1)
    else Logic(AndOp, rd, rs1, rs2)
  }

  // ----- OP-32 -----

  function Addw(rd: nat, rs1: nat, rs2: nat): Code {
    if rd == 0 then []
    else if rs1 == 0 then Move32(rd, rs2)
    else if rs2 == 0 then Move32(rd, rs1)
    else [LoadReg(RAX, Dword, rs1), Alu(AddOp, Eax, L(if rs1 == rs2 then Eax else Xw(rs2)))]
         + StoreReg(rd, RAX, Dword)
  }

  function Subw(rd: nat, rs1: nat, rs2: nat): Code {
    if rd == 0 then []
    else if rs2 == 0 then Move32(rd, rs1)
    else if rs1 == rs2 then LoadImm(rd, 0)
    else if rs1 == 0 then [LoadReg(RAX, Dword, rs2), NegI(Eax)] + StoreReg(rd, RAX, Dword)
    else [LoadReg(RAX, Dword, rs1), Alu(SubOp, Eax, L(Xw(rs2)))] + StoreReg(rd, RAX, Dword)
  }

  function ShiftReg32(op: ShiftOp, rd: nat, rs1: nat, rs2: nat): Code {
    if rd == 0 then []
    else if rs1 == 0 then LoadImm(rd, 0)
    else if rs2 == 0 then Move32(rd, rs1)
    else [LoadReg(RAX, Dword, rs1), Mov(Cl, L(X(rs2, Byte))), Shift(op, Eax, L(Cl))]
         + StoreReg(rd, RAX, Dword)
  }

  // ----- M extension -----

  function Mul(rd: nat, rs1: nat, rs2: nat): Code {
    if rd == 0 then []
    else if rs1 == 0 || rs2 == 0 then LoadImm(rd, 0)
    else [LoadReg(RAX, Qword, rs1), Imul2(RAX, if rs1 == rs2 then Rax else Xr(rs2))]
         + StoreReg(rd, RAX, Qword)
  }

  function Mulh(rd: nat, rs1: nat, rs2: nat, unsigned: bool): Code {
    if rd == 0 then []
    else if rs1 == 0 || rs2 == 0 then LoadImm(rd, 0)
    else
      var loc := if rs1 == rs2 then Rax else Xr(rs2);
      [LoadReg(RAX, Qword, rs1), if unsigned then Mul1(loc) else Imul1(loc), Mov(Xr(rd), L(Rdx))]
  }

  /** Unsigned product, then the multiplier is subtracted when the multiplicand is negative. */
  function MulhsuHead(rs1: nat, rs2: nat): Code {
    [Mov(Rcx, L(Xr(rs1))), Mov(Rsi, L(Xr(rs2))), Mov(Rax, L(Rcx)), Mul1(Rsi)]
  }

  function MulhsuTail(rd: nat): Code {
    [Shift(SarOp, Rcx, Imm(63)), Alu(AndOp, Rcx, L(Rsi)), Alu(SubOp, Rdx, L(Rcx)), Mov(Xr(rd), L(Rdx))]
  }

  function Mulhsu(rd: nat, rs1: nat, rs2: nat): Code {
    if rd == 0 then []
    else if rs1 == 0 || rs2 == 0 then LoadImm(rd, 0)
    else MulhsuHead(rs1, rs2) + MulhsuTail(rd)
  }

  function Mulw(rd: nat, rs1: nat, rs2: nat): Code {
    if rd == 0 then []
    else if rs1 == 0 || rs2 == 0 then LoadImm(rd, 0)
    else [LoadReg(RAX, Dword, rs1), Imul2(RAX, if rs1 == rs2 then Eax else Xw(rs2))]
         + StoreReg(rd, RAX, Dword)
  }

  function DivRem(rd: nat, rs1: nat, rs2: nat, unsigned: bool, rem: bool): Code {
    if rd == 0 then []
    else if rs2 == 0 then if rem then Move(rd, rs1) else LoadImm(rd, -1)
    else
      [LoadReg(RAX, Qword, rs1),
       if unsigned then Alu(XorOp, Edx, L(Edx)) else Cqo,
       if unsigned then Div(Xr(rs2)) else Idiv(Xr(rs2))]
      + StoreReg(rd, if rem then RDX else RAX, Qword)
  }

  function DivRem32(rd: nat, rs1: nat, rs2: nat, unsigned: bool, rem: bool): Code {
    if rd == 0 then []
    else if rs2 == 0 then if rem then Move32(rd, rs1) else LoadImm(rd, -1)
    else
      [LoadReg(RAX, Dword, rs1),
       if unsigned then Alu(XorOp, Edx, L(Edx)) else Cdq,
       if unsigned then Div(Xw(rs2)) else Idiv(Xw(rs2))]
      + (if rem then [Movsxd(RAX, Edx)] + StoreReg(rd, RAX, Qword) else StoreReg(rd, RAX, Dword))
  }

  function EmitReg(k: R.RegKind, rd: nat, rs1: nat, rs2: nat): Code {
    match k
    case Add => Add(rd, rs1, rs2)
    case Sub => Sub(rd, rs1, rs2)
    case Sll => ShiftReg(ShlOp, rd, rs1, rs2)
    case Slt => Slt(rd, rs1, rs2)
    case Sltu => Sltu(rd, rs1, rs2)
    case Xor => Xor(rd, rs1, rs2)
    case Srl => ShiftReg(ShrOp, rd, rs1, rs2)
    case Sra => ShiftReg(SarOp, rd, rs1, rs2)
    case Or => Or(rd, rs1, rs2)
    case And => And(rd, rs1, rs2)
    case Addw => Addw(rd, rs1, rs2)
    case Subw => Subw(rd, rs1, rs2)
    case Sllw => ShiftReg32(ShlOp, rd, rs1, rs2)
    case Srlw => ShiftReg32(ShrOp, rd, rs1, rs2)
    case Sraw => ShiftReg32(SarOp, rd, rs1, rs2)
    case Mul => Mul(rd, rs1, rs2)
    case Mulh => Mulh(rd, rs1, rs2, false)
    case Mulhsu => Mulhsu(rd, rs1, rs2)
    case Mulhu => Mulh(rd, rs1, rs2, true)
    case Div => DivRem(rd, rs1, rs2, false, false)
    case Divu => DivRem(rd, rs1, rs2, true, false)
    case Rem => DivRem(rd, rs1, rs2, false, true)
    case Remu => DivRem(rd, rs1, rs2, true, true)
    case Mulw => Mulw(rd, rs1, rs2)
    case Divw => DivRem32(rd, rs1, rs2, false, false)
    case Divuw => DivRem32(rd, rs1, rs2, true, false)
    case Remw => DivRem32(rd, rs1, rs2, false, true)
    case Remuw => DivRem32(rd, rs1, rs2, true, true)
  }
}
