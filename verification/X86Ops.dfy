/** Registers, memory operands and instructions as the encoder and the decoder exchange them. */
module X86Ops {
  datatype Size = Byte | Word | Dword | Qword

  function Width(s: Size): (n: nat)
    ensures n == 1 || n == 2 || n == 4 || n == 8
  {
    match s
    case Byte => 1
    case Word => 2
    case Dword => 4
    case Qword => 8
  }

  /** Immediates are at most 32 bits wide. */
  function Cap(s: Size): Size { if s == Qword then Dword else s }

  /** General registers; the byte registers 4 to 7 are SPL, BPL, SIL and DIL. */
  datatype Reg = Reg(id: nat, size: Size)

  /** Byte registers that exist only with a REX prefix. */
  predicate NeedsRex(r: Reg) { r.size == Byte && 4 <= r.id < 8 }

  datatype Base = NoBase | Gp(id: nat) | Rip
  datatype Index = NoIndex | Index(id: nat, shift: nat)
  datatype Memory = Memory(base: Base, index: Index, disp: int, size: Size)

  datatype Loc = R(reg: Reg) | M(mem: Memory)
  datatype Operand = At(loc: Loc) | Imm(v: int)
  datatype Count = ByCl | By(n: nat)

  function LocSize(l: Loc): Size {
    match l
    case R(r) => r.size
    case M(m) => m.size
  }

  /** What goes in the reg field of ModR/M: a register, or an opcode extension. */
  datatype Field = Field(num: nat, special: bool)
  function RegField(r: Reg): Field { Field(r.id, NeedsRex(r)) }
  function Ext(id: nat): Field { Field(id, false) }

  predicate ValidReg(r: Reg) { r.id < 16 }

  /** The index is neither RSP, which encodes its absence, nor RBP, which the encoder refuses. */
  predicate ValidMem(m: Memory) {
    && (m.base.Gp? ==> m.base.id < 16)
    && (m.index.Index? ==> m.index.id < 16 && m.index.id != 4 && m.index.id != 5 && m.index.shift < 4 && !m.base.Rip?)
    && -0x8000_0000 <= m.disp < 0x8000_0000
  }

  predicate ValidLoc(l: Loc) {
    match l
    case R(r) => ValidReg(r)
    case M(m) => ValidMem(m)
  }

  /** Locations of operands other than LEA's: no RIP-relative ones are emitted. */
  predicate ValidOperand(l: Loc) { ValidLoc(l) && (l.M? ==> !l.mem.base.Rip?) }

  /** What fits an immediate field of the size, signed or unsigned, or signed only for 64 bits. */
  predicate ImmFits(s: Size, v: int) {
    match s
    case Byte => -0x80 <= v < 0x100
    case Word => -0x8000 <= v < 0x1_0000
    case Dword => -0x8000_0000 <= v < 0x1_0000_0000
    case Qword => -0x8000_0000 <= v < 0x8000_0000
  }

  predicate ValidAlu(dst: Loc, src: Operand) {
    ValidOperand(dst) &&
    match src
    case Imm(v) => ImmFits(LocSize(dst), v)
    case At(l) => ValidOperand(l) && LocSize(l) == LocSize(dst) && (dst.R? || l.R?)
  }

  /** A move of an immediate to a byte register is decoded for AL only. */
  predicate ValidMov(dst: Loc, src: Operand) {
    ValidOperand(dst) &&
    match src
    case Imm(v) =>
      if dst.R? && dst.reg.size == Qword then -0x8000_0000_0000_0000 <= v < 0x8000_0000_0000_0000
      else ImmFits(LocSize(dst), v) && (dst.R? && dst.reg.size == Byte ==> dst.reg.id == 0)
    case At(l) => ValidOperand(l) && LocSize(l) == LocSize(dst) && (dst.R? || l.R?)
  }

  /** The forms that are emitted, and that the decoder knows. */
  datatype Op =
    | Alu(id: nat, dst: Loc, src: Operand)
    | Shift(id: nat, dst: Loc, count: Count)
    | Unary(id: nat, loc: Loc)
    | Mov(dst: Loc, src: Operand)
    | Movsx(reg: Reg, from: Loc)
    | Movzx(reg: Reg, from: Loc)
    | Lea(reg: Reg, mem: Memory)
    | Cmovcc(reg: Reg, from: Loc, cc: nat)
    | Setcc(loc: Loc, cc: nat)
    | Imul2(reg: Reg, from: Loc)
    | Cmpxchg(loc: Loc, reg: Reg)
    | Xadd(loc: Loc, reg: Reg)
    | Xchg(reg: Reg, mem: Memory)
    | Test(loc: Loc, reg: Reg)
    | TestImm(loc: Loc, v: int)
    | Call(target: int)
    | Jmp(target: int)
    | Jcc(target: int, cc: nat)
    | Cdqe | Cdq | Cqo | Lock | Mfence | Nop | Ret

  predicate ValidOp(op: Op) {
    match op
    case Alu(id, dst, src) => id < 8 && ValidAlu(dst, src)
    case Shift(id, dst, count) => (id == 4 || id == 5 || id == 7) && ValidOperand(dst) && (count.By? ==> count.n < 256)
    case Unary(id, loc) => 2 <= id < 8 && ValidOperand(loc)
    case Mov(dst, src) => ValidMov(dst, src)
    case Movsx(reg, from) => ValidReg(reg) && ValidOperand(from) && Width(LocSize(from)) < Width(reg.size)
    case Movzx(reg, from) =>
      ValidReg(reg) && ValidOperand(from) && Width(LocSize(from)) < Width(reg.size) && LocSize(from) != Dword
    case Lea(reg, mem) => ValidReg(reg) && ValidMem(mem) && reg.size != Byte
    case Cmovcc(reg, from, cc) =>
      ValidReg(reg) && ValidOperand(from) && LocSize(from) == reg.size && reg.size != Byte && cc < 16
    case Setcc(loc, cc) => ValidOperand(loc) && LocSize(loc) == Byte && cc < 16
    case Imul2(reg, from) => ValidReg(reg) && ValidOperand(from) && LocSize(from) == reg.size && reg.size != Byte
    case Cmpxchg(loc, reg) => ValidReg(reg) && ValidOperand(loc) && LocSize(loc) == reg.size
    case Xadd(loc, reg) => ValidReg(reg) && ValidOperand(loc) && LocSize(loc) == reg.size
    case Xchg(reg, mem) => ValidReg(reg) && ValidOperand(M(mem)) && mem.size == reg.size
    case Test(loc, reg) => ValidReg(reg) && ValidOperand(loc) && LocSize(loc) == reg.size
    case TestImm(loc, v) => ValidOperand(loc) && ImmFits(LocSize(loc), v) && (loc.R? ==> loc.reg.id != 0)
    case Call(t) => -0x8000_0000 <= t < 0x8000_0000
    case Jmp(t) => -0x8000_0000 <= t < 0x8000_0000
    case Jcc(t, cc) => -0x8000_0000 <= t < 0x8000_0000 && cc < 16
    case _ => true
  }
}
