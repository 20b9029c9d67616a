/** From the instructions of a translated block to those that the encoder takes. */
module DbtAssemble {
  import opened Words
  import opened X86
  import opened DbtEmit
  import opened DbtBlock
  import opened RiscvStep
  import T = DbtTranslate
  import R = Riscv
  import O = X86Ops
  import E = X86Encode
  import RT = X86RoundTrip

  // ---- operands

  function SizeAs(s: Size): O.Size {
    match s
    case Byte => O.Byte
    case Word => O.Word
    case Dword => O.Dword
    case Qword => O.Qword
  }

  function Number(r: Gpr): (id: nat)
    ensures id < 8
  {
    match r
    case RAX => 0
    case RCX => 1
    case RDX => 2
    case RSI => 6
  }

  function RegAs(r: Gpr, s: Size): O.Reg { O.Reg(Number(r), SizeAs(s)) }

  /** A field of the context that RBP points to. */
  function Field(disp: int, s: Size): O.Loc { O.M(O.Memory(O.Gp(5), O.NoIndex, disp, SizeAs(s))) }

  /** The guest memory that RSI points to. */
  function Target(s: Size): O.Memory { O.Memory(O.Gp(6), O.NoIndex, 0, SizeAs(s)) }

  function LocAs(l: Loc): O.Loc {
    match l
    case Reg(r, s) => O.R(RegAs(r, s))
    case X(n, s) => Field(n * 8, s)
    case Pc => Field(0x100, Qword)
    case Instret => Field(0x108, Qword)
  }

  function OperandAs(o: Operand): O.Operand {
    match o
    case L(l) => O.At(LocAs(l))
    case Imm(v) => O.Imm(Signed(v))
  }

  function AluNumber(op: AluOp): (id: nat)
    ensures id < 7
  {
    match op
    case AddOp => 0
    case OrOp => 1
    case AndOp => 4
    case SubOp => 5
    case XorOp => 6
  }

  function ShiftNumber(op: ShiftOp): nat {
    match op
    case ShlOp => 4
    case ShrOp => 5
    case SarOp => 7
  }

  function CondNumber(cc: Cond): (n: nat)
    ensures n < 16
  {
    match cc
    case Below => 2
    case AboveEqual => 3
    case Equal => 4
    case NotEqual => 5
    case BelowEqual => 6
    case Above => 7
    case Less => 12
    case GreaterEqual => 13
    case LessEqual => 14
    case Greater => 15
  }

  // ---- instructions

  function Assemble(i: Instr): O.Op {
    match i
    case Mov(d, s) => O.Mov(LocAs(d), OperandAs(s))
    case Movsxd(r, l) => O.Movsx(RegAs(r, Qword), LocAs(l))
    case MovzxByte(r) => O.Movzx(RegAs(r, Dword), O.R(RegAs(r, Byte)))
    case Alu(op, d, s) => O.Alu(AluNumber(op), LocAs(d), OperandAs(s))
    case Shift(op, d, s) => O.Shift(ShiftNumber(op), LocAs(d), if s.Imm? then O.By(s.v) else O.ByCl)
    case NotI(d) => O.Unary(2, LocAs(d))
    case NegI(d) => O.Unary(3, LocAs(d))
    case Cmp(d, s) => O.Alu(7, LocAs(d), OperandAs(s))
    case Setcc(cc) => O.Setcc(O.R(RegAs(RAX, Byte)), CondNumber(cc))
    case Cdqe => O.Cdqe
    case Cqo => O.Cqo
    case Cdq => O.Cdq
    case Imul2(r, l) => O.Imul2(RegAs(r, SizeOf(l)), LocAs(l))
    case Mul1(l) => O.Unary(4, LocAs(l))
    case Imul1(l) => O.Unary(5, LocAs(l))
    case Div(l) => O.Unary(6, LocAs(l))
    case Idiv(l) => O.Unary(7, LocAs(l))
    case Lea(r, b, disp) => O.Lea(RegAs(r, Qword), O.Memory(O.Gp(Number(b)), O.NoIndex, Signed(disp), O.Qword))
  }

  function LoadAs(width: Width, signed: bool): O.Op {
    var m := O.M(Target(SizeFor(width)));
    if width == W64 then O.Mov(O.R(RegAs(RAX, Qword)), O.At(m))
    else if signed then O.Movsx(RegAs(RAX, Qword), m)
    else if width == W32 then O.Mov(O.R(RegAs(RAX, Dword)), O.At(m))
    else O.Movzx(RegAs(RAX, Qword), m)
  }

  function RmwAs(rmw: RmwOp, s: Size): seq<O.Op> {
    match rmw
    case MemXchg => [O.Xchg(RegAs(RAX, s), Target(s))]
    case MemXadd => [O.Lock, O.Xadd(O.M(Target(s)), RegAs(RAX, s))]
    case MemAlu(op) => [O.Lock, O.Alu(AluNumber(op), O.M(Target(s)), O.At(O.R(RegAs(RAX, s))))]
  }

  /** Where the data cache is in the context, and the logarithm of its line size. */
  datatype Cache = Cache(log: nat, line: int)
  type Layout = l: Cache | l.log < 64 && 0 <= l.line < 0x7000_0000 witness Cache(6, 0)

  const Rdi: O.Loc := O.R(O.Reg(7, O.Qword))
  const Ebx: O.Loc := O.R(O.Reg(3, O.Dword))
  const Rbp: O.Operand := O.At(O.R(O.Reg(5, O.Qword)))
  const TestAl: O.Op := O.Test(O.R(O.Reg(0, O.Byte)), O.Reg(0, O.Byte))

  function Whole(r: Gpr): O.Loc { O.R(RegAs(r, Qword)) }
  function LowHalf(r: Gpr): O.Loc { O.R(RegAs(r, Dword)) }

  /** A word of the line whose offset is in RAX. */
  function LineWord(disp: int): O.Operand { O.At(O.M(O.Memory(O.Gp(5), O.Index(0, 0), disp, O.Qword))) }

  /** The lookup in the data cache up to its jumps: alignment test, index, tag comparison, address. */
  function LookupOps(width: Width, write: bool, l: Layout): seq<O.Op> {
    (if width == W8 then [] else [O.TestImm(LowHalf(RSI), Bytes(width) - 1)])
    + [O.Mov(Whole(RCX), O.At(Whole(RSI))), O.Shift(5, Whole(RCX), O.By(l.log)),
       O.Mov(LowHalf(RAX), O.At(LowHalf(RCX))), O.Alu(4, LowHalf(RAX), O.Imm(1023)), O.Shift(4, LowHalf(RAX), O.By(4))]
    + (if write then [O.Alu(0, Whole(RCX), O.At(Whole(RCX))), O.Alu(7, Whole(RCX), LineWord(l.line))]
       else [O.Mov(Whole(RDX), LineWord(l.line)), O.Shift(5, Whole(RDX), O.By(1)), O.Alu(7, Whole(RDX), O.At(Whole(RCX)))])
    + [O.Alu(6, Whole(RSI), LineWord(l.line + 8))]
  }

  /** Its slow path: EBX for the handler, the arguments and the result of the miss, EBX for a trap. */
  function MissOps(write: bool, ebx: nat): seq<O.Op> {
    [O.Mov(Ebx, O.Imm(ebx)), O.Mov(Rdi, Rbp),
     if write then O.Mov(LowHalf(RDX), O.Imm(1)) else O.Alu(6, LowHalf(RDX), O.At(LowHalf(RDX))),
     O.Mov(Whole(RSI), O.At(Whole(RDX))), TestAl]
  }

  /** A call of the interpreter, with the instruction as a constant or the number of a CSR, its trap
      check and the slow path of that. */
  function CallOps(argument: O.Op, ebx: nat): seq<O.Op> {
    [O.Mov(Rdi, Rbp), argument, TestAl, O.Mov(Ebx, O.Imm(ebx))]
  }

  function InsnArgument(n: nat): O.Op { O.Mov(Whole(RSI), O.Imm(Signed(Wrap(n)))) }
  function CsrArgument(n: nat): O.Op { O.Mov(LowHalf(RSI), O.Imm(n)) }

  /** The instructions of an item, but for its jumps and calls, whose distances are patched. */
  function ItemOps(item: Item, l: Layout): seq<O.Op> {
    match item
    case I(i) => [Assemble(i)]
    case LoadMem(width, signed) => [LoadAs(width, signed)]
    case StoreMem(width) => [O.Mov(O.M(Target(SizeFor(width))), O.At(O.R(RegAs(RDX, SizeFor(width)))))]
    case LoadAx(width) => [O.Mov(O.R(RegAs(RAX, SizeFor(width))), O.At(O.M(Target(SizeFor(width)))))]
    case Rmw(rmw, width) => RmwAs(rmw, SizeFor(width))
    case CmovCx(cc, width) => [O.Cmovcc(RegAs(RCX, SizeFor(width)), O.R(RegAs(RDX, SizeFor(width))), CondNumber(cc))]
    case Cmpxchg(width) => [O.Lock, O.Cmpxchg(O.M(Target(SizeFor(width))), RegAs(RCX, SizeFor(width)))]
    case Access(width, write, ebx) => LookupOps(width, write, l) + MissOps(write, ebx)
    case Call(n, ebx) => CallOps(InsnArgument(n), ebx)
    case CallSystem(n, ebx) => CallOps(InsnArgument(n), ebx)
    case CallRead(n, ebx) => CallOps(CsrArgument(n), ebx)
    case CallWrite(n, ebx) => CallOps(CsrArgument(n), ebx)
    case _ => []
  }

  predicate Encodable(item: Item, l: Layout) { forall op <- ItemOps(item, l) :: O.ValidOp(op) }
  predicate AllEncodable(items: seq<Item>, l: Layout) { forall item <- items :: Encodable(item, l) }

  // ---- the forms that occur

  predicate InContext(l: Loc) { l.X? ==> l.n < 32 }

  /** A sign-extended 32-bit constant. */
  predicate Short(v: u64) { v < 0x8000_0000 || v >= W - 0x8000_0000 }

  /** Registers with registers or context fields of the same size, or with a short constant. */
  predicate Operands(d: Loc, s: Operand) {
    InContext(d) &&
    match s
    case Imm(v) => Short(v) && (SizeOf(d) == Qword || d == Eax)
    case L(l) => InContext(l) && SizeOf(l) == SizeOf(d) && (d.Reg? || l.Reg?)
  }

  predicate Occurs(i: Instr) {
    match i
    case Mov(d, s) => Operands(d, s)
    case Movsxd(_, l) => InContext(l) && SizeOf(l) == Dword
    case Alu(_, d, s) => Operands(d, s)
    case Cmp(d, s) => Operands(d, s)
    case Shift(_, d, s) => InContext(d) && (s.Imm? ==> s.v < 64)
    case NotI(l) => InContext(l)
    case NegI(l) => InContext(l)
    case Imul2(_, l) => InContext(l) && SizeOf(l) != Byte
    case Mul1(l) => InContext(l)
    case Imul1(l) => InContext(l)
    case Div(l) => InContext(l)
    case Idiv(l) => InContext(l)
    case Lea(_, _, disp) => Short(disp)
    case _ => true
  }

  predicate Fine(code: Code) { forall i <- code :: Occurs(i) }

  lemma OccursValid(i: Instr)
    requires Occurs(i)
    ensures O.ValidOp(Assemble(i))
  {
    LocsValid();
    ShortsFit();
    hide LocAs, Short, Signed, O.ValidOperand, InContext;
  }

  lemma LocsValid()
    ensures forall l: Loc :: InContext(l) ==> O.ValidOperand(LocAs(l))
    ensures forall r: Gpr, s: Size :: O.ValidOperand(O.R(RegAs(r, s)))
    ensures forall l: Loc :: O.LocSize(LocAs(l)) == SizeAs(SizeOf(l)) && (LocAs(l).R? <==> l.Reg?)
    ensures forall l: Loc :: l.Reg? ==> LocAs(l) == O.R(RegAs(l.r, l.size))
  {
  }

  lemma ShortsFit()
    ensures forall v: u64 :: Short(v) ==> -0x8000_0000 <= Signed(v) < 0x8000_0000
  {
  }

  // ---- what the decoder of guest instructions yields

  predicate Decoded(op: Op) {
    ValidOp(op) &&
    match op
    case OpImm(_, _, _, imm) => -0x800 <= imm < 0x800
    case Lui(_, imm) => -0x8000_0000 <= imm < 0x8000_0000 && imm % 0x1000 == 0
    case Auipc(_, imm) => -0x8000_0000 <= imm < 0x8000_0000 && imm % 0x1000 == 0
    case Load(_, _, imm, _, _) => -0x800 <= imm < 0x800
    case Store(_, _, imm, _) => -0x800 <= imm < 0x800
    case Amo(_, _, _, _, _) => true
    case Branch(_, _, _, imm) => -0x1000 <= imm < 0x1000
    case Jal(_, imm) => -0x10_0000 <= imm < 0x10_0000
    case Jalr(_, _, imm) => -0x800 <= imm < 0x800
    case ReadCsr(_, n) => n < 0x1000
    case WriteCsr(_, n) => n < 0x1000
    case WriteCsrImm(_, n) => n < 0x1000
    case _ => true
  }

  /** Offsets within a page, or just before an instruction that straddles its end. */
  predicate InPage(pc: int, instret: int) { -4 <= pc <= 0x1000 && -1 <= instret <= 0x1000 }

  // ---- sequences

  lemma ShortWrap(v: int)
    requires -0x8000_0000 <= v < 0x8000_0000
    ensures Short(Wrap(v))
  {
  }

  lemma StoreRegFine(rd: nat, r: Gpr, s: Size)
    requires rd < 32
    ensures Fine(StoreReg(rd, r, s))
  {
  }

  lemma LoadRegFine(r: Gpr, s: Size, rs: nat)
    requires rs < 32
    ensures Occurs(LoadReg(r, s, rs))
  {
  }

  lemma LoadImmFine(rd: nat, imm: int)
    requires rd < 32 && -0x8000_0000 <= imm < 0x8000_0000
    ensures Fine(LoadImm(rd, imm))
  {
    ShortWrap(imm);
    hide Wrap, Short;
  }

  lemma MoveFine(rd: nat, rs: nat)
    requires rd < 32 && rs < 32
    ensures Fine(Move(rd, rs)) && Fine(Move32(rd, rs))
  {
    LoadImmFine(rd, 0);
    hide LoadImm;
  }

  /** What the sequences that write register `rd` from `rs` have in common. */
  lemma PartsFine(rd: nat, rs: nat)
    requires rd < 32 && rs < 32
    ensures Fine(Move(rd, rs)) && Fine(Move32(rd, rs))
    ensures Fine(LoadImm(rd, 0)) && Fine(LoadImm(rd, 1)) && Fine(LoadImm(rd, -1))
    ensures Fine(StoreReg(rd, RAX, Qword)) && Fine(StoreReg(rd, RAX, Dword)) && Fine(StoreReg(rd, RDX, Qword))
    ensures Occurs(LoadReg(RAX, Qword, rs)) && Occurs(LoadReg(RAX, Dword, rs))
  {
    hide LoadImm, Move, Move32, StoreReg, LoadReg, Occurs;
    LoadImmFine(rd, 0);
    LoadImmFine(rd, 1);
    LoadImmFine(rd, -1);
    MoveFine(rd, rs);
    StoreRegFine(rd, RAX, Qword);
    StoreRegFine(rd, RAX, Dword);
    StoreRegFine(rd, RDX, Qword);
    LoadRegFine(RAX, Qword, rs);
    LoadRegFine(RAX, Dword, rs);
  }

  lemma CompareFine(rd: nat, rs: nat, imm: int, cc: Cond)
    requires rd < 32 && rs < 32 && -0x8000_0000 <= imm < 0x8000_0000
    ensures Fine(SetFromCompare(rd, rs, imm, cc)) && Fine(SignBit(rd, rs))
  {
    hide StoreReg, LoadReg, Wrap, Short;
    ShortWrap(imm);
    assert Occurs(Alu(XorOp, Eax, L(Eax)));
    PartsFine(rd, rs);
  }

  lemma SetImmFine(rd: nat, rs1: nat, imm: int)
    requires rd < 32 && rs1 < 32 && -0x800 <= imm < 0x800
    ensures Fine(Slti(rd, rs1, imm)) && Fine(Sltiu(rd, rs1, imm))
  {
    hide LoadImm, SetFromCompare, SignBit, Occurs;
    forall v: int, cc: Cond | -0x1000 <= v < 0x1000
      ensures Fine(SetFromCompare(rd, rs1, v, cc))
    {
      CompareFine(rd, rs1, v, cc);
    }
    CompareFine(rd, rs1, 0, Less);
    PartsFine(rd, rs1);
  }

  lemma LogicImmFine(op: AluOp, rd: nat, rs1: nat, imm: int)
    requires rd < 32 && rs1 < 32 && -0x800 <= imm < 0x800
    ensures Fine(LogicImm(op, rd, rs1, imm)) && Fine(Xori(rd, rs1, imm)) && Fine(Ori(rd, rs1, imm)) && Fine(Andi(rd, rs1, imm))
  {
    hide LoadImm, Move, StoreReg, LoadReg, Wrap, Short;
    ShortWrap(imm);
    PartsFine(rd, rs1);
    LoadImmFine(rd, imm);
  }

  lemma ShiftImmFine(op: ShiftOp, rd: nat, rs1: nat, imm: int)
    requires rd < 32 && rs1 < 32 && 0 <= imm < 64
    ensures Fine(ShiftImm(op, rd, rs1, imm)) && Fine(ShiftImm32(op, rd, rs1, imm))
  {
    hide LoadImm, Move, Move32, StoreReg, LoadReg;
    PartsFine(rd, rs1);
    assert Wrap(imm) == imm;
    hide Wrap, Short;
  }

  lemma ImmFine(k: R.ImmKind, rd: nat, rs1: nat, imm: int)
    requires rd < 32 && rs1 < 32 && R.ValidImm(k, imm) && -0x800 <= imm < 0x800
    ensures Fine(EmitImm(k, rd, rs1, imm))
  {
    hide LoadImm, Move, Move32, StoreReg, LoadReg, Wrap, Short, Slti, Sltiu, ShiftImm, ShiftImm32, Xori, Ori, Andi;
    ShortWrap(imm);
    PartsFine(rd, rs1);
    LoadImmFine(rd, imm);
    SetImmFine(rd, rs1, imm);
    LogicImmFine(XorOp, rd, rs1, imm);
    if 0 <= imm < 64 {
      ShiftImmFine(ShlOp, rd, rs1, imm);
      ShiftImmFine(ShrOp, rd, rs1, imm);
      ShiftImmFine(SarOp, rd, rs1, imm);
    }
  }

  lemma ArithmeticFine(rd: nat, rs1: nat, rs2: nat)
    requires rd < 32 && rs1 < 32 && rs2 < 32
    ensures Fine(Add(rd, rs1, rs2)) && Fine(Sub(rd, rs1, rs2)) && Fine(Addw(rd, rs1, rs2)) && Fine(Subw(rd, rs1, rs2))
  {
    hide LoadImm, Move, Move32, StoreReg, LoadReg;
    PartsFine(rd, rs1);
    PartsFine(rd, rs2);
  }

  lemma SetFine(rd: nat, rs1: nat, rs2: nat)
    requires rd < 32 && rs1 < 32 && rs2 < 32
    ensures Fine(Slt(rd, rs1, rs2)) && Fine(Sltu(rd, rs1, rs2))
  {
    hide LoadImm, StoreReg, LoadReg, SetFromCompare, SignBit;
    CompareFine(rd, rs2, 0, Greater);
    CompareFine(rd, rs2, 0, NotEqual);
    CompareFine(rd, rs1, 0, Less);
    PartsFine(rd, rs1);
  }

  lemma LogicFine(rd: nat, rs1: nat, rs2: nat)
    requires rd < 32 && rs1 < 32 && rs2 < 32
    ensures Fine(DbtEmit.Xor(rd, rs1, rs2)) && Fine(DbtEmit.Or(rd, rs1, rs2)) && Fine(DbtEmit.And(rd, rs1, rs2))
    ensures forall op: ShiftOp :: Fine(ShiftReg(op, rd, rs1, rs2)) && Fine(ShiftReg32(op, rd, rs1, rs2))
  {
    hide LoadImm, Move, Move32, StoreReg, LoadReg;
    PartsFine(rd, rs1);
    PartsFine(rd, rs2);
  }

  lemma MultiplyFine(rd: nat, rs1: nat, rs2: nat)
    requires rd < 32 && rs1 < 32 && rs2 < 32
    ensures Fine(Mul(rd, rs1, rs2)) && Fine(Mulhsu(rd, rs1, rs2)) && Fine(Mulw(rd, rs1, rs2))
    ensures forall u: bool :: Fine(Mulh(rd, rs1, rs2, u))
  {
    hide LoadImm, StoreReg, LoadReg;
    PartsFine(rd, rs1);
  }

  lemma DivideFine(rd: nat, rs1: nat, rs2: nat, unsigned: bool, rem: bool)
    requires rd < 32 && rs1 < 32 && rs2 < 32
    ensures Fine(DivRem(rd, rs1, rs2, unsigned, rem)) && Fine(DivRem32(rd, rs1, rs2, unsigned, rem))
  {
    hide LoadImm, Move, Move32, StoreReg, LoadReg;
    PartsFine(rd, rs1);
  }

  lemma RegFine(k: R.RegKind, rd: nat, rs1: nat, rs2: nat)
    requires rd < 32 && rs1 < 32 && rs2 < 32
    ensures Fine(EmitReg(k, rd, rs1, rs2))
  {
    hide Fine;
    ArithmeticFine(rd, rs1, rs2);
    SetFine(rd, rs1, rs2);
    LogicFine(rd, rs1, rs2);
    MultiplyFine(rd, rs1, rs2);
    forall unsigned: bool, rem: bool
      ensures Fine(DivRem(rd, rs1, rs2, unsigned, rem)) && Fine(DivRem32(rd, rs1, rs2, unsigned, rem))
    {
      DivideFine(rd, rs1, rs2, unsigned, rem);
    }
  }

  // ---- whole blocks

  predicate ItemOccurs(item: Item) {
    match item
    case I(i) => Occurs(i)
    case CmovCx(_, width) => width == W32 || width == W64
    case Access(_, _, ebx) => ebx < 0x1_0000_0000
    case Call(_, ebx) => ebx < 0x1_0000_0000
    case CallSystem(_, ebx) => ebx < 0x1_0000_0000
    case CallRead(n, ebx) => n < 0x1000 && ebx < 0x1_0000_0000
    case CallWrite(n, ebx) => n < 0x1000 && ebx < 0x1_0000_0000
    case _ => true
  }

  predicate Formed(items: seq<Item>) { forall item <- items :: ItemOccurs(item) }

  lemma PlainFormed(code: Code)
    requires Fine(code)
    ensures Formed(Plain(code))
  {
    hide Occurs;
  }

  lemma CountersFine(pc: int, instret: int)
    requires -0x8000_0000 <= pc < 0x8000_0000 && -0x8000_0000 <= instret < 0x8000_0000
    ensures Fine(AddTo(Pc, pc)) && Fine(AddTo(Instret, instret))
  {
    ShortWrap(pc);
    ShortWrap(instret);
    hide Wrap, Short;
  }

  /** The upper part of an AUIPC constant leaves room for any offset in the page; before the page
      there is room too, but not below the least constant. */
  predicate RoomFor(op: Op, pc: int) {
    op.Auipc? ==> 0 <= pc < 0x1000 || op.imm != -0x8000_0000
  }

  lemma UpperFits(imm: int, pc: int)
    requires -0x8000_0000 <= imm < 0x8000_0000 && imm % 0x1000 == 0 && -4 <= pc < 0x1000
    ensures -0x8000_0000 <= imm + pc < 0x8000_0000 <==> pc >= 0 || imm != -0x8000_0000
  {
  }

  lemma AccessFine(rs1: nat, imm: int)
    requires rs1 < 32 && -0x800 <= imm < 0x800
    ensures Fine(AddressCode(rs1, imm))
  {
    ShortWrap(imm);
    hide Wrap, Short;
  }

  lemma ActionFormed(k: AmoKind, wide: bool)
    ensures Formed(AmoAction(k, if wide then Qword else Dword, AmoWidth(wide)))
  {
  }

  lemma AmoFormed(k: AmoKind, rd: nat, rs2: nat, wide: bool)
    requires rd < 32 && rs2 < 32
    ensures Formed(EmitAmo(k, rd, rs2, wide))
  {
    hide StoreReg, LoadReg, Plain, AmoAction, Occurs, SingleInstruction, AmoRmw;
    var size := if wide then Qword else Dword;
    PartsFine(rd, rs2);
    LoadRegFine(RDX, size, rs2);
    PlainFormed([LoadReg(RAX, size, rs2)]);
    PlainFormed([LoadReg(RDX, size, rs2)]);
    CopyOccurs(size);
    PlainFormed([Mov(Reg(RCX, size), L(Reg(RAX, size)))]);
    PlainFormed(StoreReg(rd, RAX, size));
    ActionFormed(k, wide);
  }

  lemma CopyOccurs(size: Size)
    ensures Occurs(Mov(Reg(RCX, size), L(Reg(RAX, size))))
  {
  }

  lemma JumpFine(rd: nat, rs1: nat, imm: int, pc: int, len: nat, instret: int)
    requires rd < 32 && rs1 < 32 && -0x10_0000 <= imm < 0x10_0000 && InPage(pc, instret) && len <= 4
    ensures Fine(JalCode(rd, imm, pc, len, instret))
    ensures -0x800 <= imm < 0x800 ==> Fine(JalrCode(rd, rs1, imm, pc, len, instret))
  {
    hide StoreReg, LoadReg, AddTo, Wrap, Short;
    CountersFine(0, instret + 1);
    ShortWrap(pc + len);
    ShortWrap(imm);
    ShortWrap(imm - len + (pc + len));
    ShortWrap(-2);
    PartsFine(rd, rs1);
  }

  lemma BranchFormed(k: BranchKind, rs1: nat, rs2: nat, imm: int, pc: int, len: nat, instret: int)
    requires rs1 < 32 && rs2 < 32 && -0x1000 <= imm < 0x1000 && InPage(pc, instret)
    ensures Fine(CompareCode(rs1, rs2)) && Formed(EmitOp(Branch(k, rs1, rs2, imm), len, pc, instret))
  {
    hide AddTo, Wrap, Plain, CompareCond;
    CountersFine(0, instret + 1);
    ShortWrap(pc + imm);
    assert Fine(CompareCode(rs1, rs2)) by { ShortWrap(0); }
    hide Short;
    PlainFormed(CompareCode(rs1, rs2));
    PlainFormed([Alu(AddOp, Pc, Signext(pc + imm))] + AddTo(Instret, instret + 1));
  }

  /** What is emitted for one decoded instruction. */
  lemma OpFormed(op: Op, len: nat, pc: int, instret: int)
    requires Decoded(op) && InPage(pc, instret) && len <= 4 && pc < 0x1000 && RoomFor(op, pc)
    ensures Formed(EmitOp(op, len, pc, instret))
  {
    hide Occurs, Fine, Plain, EmitImm, EmitReg, LoadImm, AddressCode, StoreReg, LoadReg, EmitAmo, JalCode, JalrCode, AddTo;
    match op
    case OpImm(k, rd, rs1, imm) =>
      ImmFine(k, rd, rs1, imm);
      PlainFormed(EmitImm(k, rd, rs1, imm));
    case OpReg(k, rd, rs1, rs2) =>
      RegFine(k, rd, rs1, rs2);
      PlainFormed(EmitReg(k, rd, rs1, rs2));
    case Lui(rd, imm) =>
      LoadImmFine(rd, imm);
      PlainFormed(LoadImm(rd, imm));
    case Auipc(rd, imm) => AuipcFormed(rd, imm, len, pc, instret);
    case Load(rd, rs1, imm, _, _) =>
      AccessFine(rs1, imm);
      StoreRegFine(rd, RAX, Qword);
      PlainFormed(AddressCode(rs1, imm));
      PlainFormed(StoreReg(rd, RAX, Qword));
    case Store(rs1, rs2, imm, width) =>
      AccessFine(rs1, imm);
      PlainFormed(AddressCode(rs1, imm));
      StoredOccurs(rs2, width);
    case Amo(k, rd, rs1, rs2, wide) =>
      LoadRegFine(RSI, Qword, rs1);
      OneFine(LoadReg(RSI, Qword, rs1));
      PlainFormed([LoadReg(RSI, Qword, rs1)]);
      AmoFormed(k, rd, rs2, wide);
    case ReadCsr(rd, _) =>
      StoreRegFine(rd, RDX, Qword);
      PlainFormed(StoreReg(rd, RDX, Qword));
    case WriteCsr(rs1, _) =>
      LoadRegFine(RDX, Qword, rs1);
      OneFine(LoadReg(RDX, Qword, rs1));
      PlainFormed([LoadReg(RDX, Qword, rs1)]);
    case WriteCsrImm(imm, _) =>
      ConstantOccurs(imm);
      OneFine(Mov(Rdx, Signext(imm)));
      PlainFormed([Mov(Rdx, Signext(imm))]);
    case Branch(k, rs1, rs2, imm) => BranchFormed(k, rs1, rs2, imm, pc, len, instret);
    case Jal(rd, imm) =>
      JumpFine(rd, 0, imm, pc, len, instret);
      PlainFormed(JalCode(rd, imm, pc, len, instret));
    case Jalr(rd, rs1, imm) =>
      JumpFine(rd, rs1, imm, pc, len, instret);
      PlainFormed(JalrCode(rd, rs1, imm, pc, len, instret));
    case System(n) => CountersFormed(pc + len, instret + 1);
    case _ =>
  }

  lemma OneFine(i: Instr)
    requires Occurs(i)
    ensures Fine([i])
  {
    hide Occurs;
  }

  lemma ConstantOccurs(imm: int)
    requires 0 <= imm < 32
    ensures Occurs(Mov(Rdx, Signext(imm)))
  {
    ShortWrap(imm);
    hide Wrap, Short;
  }

  lemma StoredOccurs(rs2: nat, width: Width)
    requires rs2 < 32
    ensures Occurs(Mov(Reg(RDX, SizeFor(width)), L(X(rs2, SizeFor(width)))))
  {
  }

  lemma AuipcFormed(rd: nat, imm: int, len: nat, pc: int, instret: int)
    requires rd < 32 && -0x8000_0000 <= imm < 0x8000_0000 && imm % 0x1000 == 0 && -4 <= pc < 0x1000 && RoomFor(Auipc(rd, imm), pc)
    ensures Formed(EmitOp(Auipc(rd, imm), len, pc, instret))
  {
    hide StoreReg, Wrap, Plain;
    UpperFits(imm, pc);
    ShortWrap(imm + pc);
    StoreRegFine(rd, RAX, Qword);
    hide Short;
    PlainFormed([Mov(Rax, L(Pc)), Alu(AddOp, Rax, Signext(imm + pc))] + StoreReg(rd, RAX, Qword));
  }

  lemma CountersFormed(pc: int, instret: int)
    requires -0x8000_0000 <= pc < 0x8000_0000 && -0x8000_0000 <= instret < 0x8000_0000
    ensures Formed(Plain(AddTo(Pc, pc) + AddTo(Instret, instret)))
  {
    hide Occurs, AddTo, Plain;
    CountersFine(pc, instret);
    PlainFormed(AddTo(Pc, pc) + AddTo(Instret, instret));
  }

  /** Every instruction of the block is one the guest decoder yields. */
  predicate DecodedUnit(u: T.Unit) {
    match u
    case One(i) => ValidInsn(i) && Decoded(i.op)
    case Pair(b, i) => T.ValidUnit(u) && Decoded(b.op) && Decoded(i.op)
  }

  lemma UnitFormed(u: T.Unit, pc: int, instret: int)
    requires DecodedUnit(u) && 0 <= instret <= pc && pc + T.UnitLen(u) <= 0x1000
    ensures Formed(T.EmitUnit(u, pc, instret))
  {
    hide EmitOp, Decoded, Plain, Occurs, CompareCode;
    match u
    case One(i) => OpFormed(i.op, i.len, pc, instret);
    case Pair(b, i) => PairFormed(b, i, pc, instret);
  }

  lemma PairFormed(b: Insn, i: Insn, pc: int, instret: int)
    requires DecodedUnit(T.Pair(b, i)) && 0 <= instret <= pc && pc + b.len + i.len <= 0x1000
    ensures Formed(T.EmitUnit(T.Pair(b, i), pc, instret))
  {
    hide EmitOp, Plain, CompareCode;
    OpFormed(i.op, i.len, pc + b.len, instret);
    BranchFormed(b.op.bk, b.op.rs1, b.op.rs2, 0, pc, b.len, instret);
    hide Decoded;
    PlainFormed(CompareCode(b.op.rs1, b.op.rs2));
  }

  lemma EndingFormed(e: T.Ending, pc: int, instret: int)
    requires 0 <= instret <= pc <= 0x1000 && (e.Cross? ==> Decoded(e.op) && RoomFor(e.op, -4))
    ensures Formed(T.EmitEnding(e, pc, instret))
  {
    hide EmitOp, Decoded, Plain, AddTo, Occurs;
    match e
    case Open => CountersFormed(pc, instret);
    case Cross(op) =>
      CountersFormed(pc + 4, instret + 1);
      OpFormed(op, 4, -4, -1);
    case Closed =>
  }

  lemma {:induction false} BlockFormed(units: seq<T.Unit>, e: T.Ending, pc: int, instret: int)
    requires (forall u <- units :: DecodedUnit(u)) && 0 <= instret <= pc && pc + T.TotalLen(units) <= 0x1000
    requires e.Cross? ==> Decoded(e.op) && RoomFor(e.op, -4)
    ensures Formed(T.Compile(units, e, pc, instret))
    decreases |units|
  {
    hide T.EmitUnit, T.EmitEnding, Occurs, Decoded;
    if units == [] {
      EndingFormed(e, pc, instret);
    } else {
      var u := units[0];
      assert u in units;
      assert T.UnitLen(u) >= 1;
      UnitFormed(u, pc, instret);
      BlockFormed(units[1..], e, pc + T.UnitLen(u), instret + 1);
    }
  }

  // ---- into bytes and back

  lemma LookupValid(width: Width, write: bool, l: Layout)
    ensures forall op <- LookupOps(width, write, l) :: O.ValidOp(op)
  {
  }

  lemma MissValid(write: bool, ebx: nat)
    requires ebx < 0x1_0000_0000
    ensures forall op <- MissOps(write, ebx) :: O.ValidOp(op)
  {
  }

  lemma CallValid(n: nat, ebx: nat)
    requires ebx < 0x1_0000_0000
    ensures forall op <- CallOps(InsnArgument(n), ebx) :: O.ValidOp(op)
    ensures n < 0x1000 ==> forall op <- CallOps(CsrArgument(n), ebx) :: O.ValidOp(op)
  {
    assert -0x8000_0000_0000_0000 <= Signed(Wrap(n)) < 0x8000_0000_0000_0000;
    hide Signed, Wrap;
  }

  lemma ItemEncodable(item: Item, l: Layout)
    requires ItemOccurs(item)
    ensures Encodable(item, l)
  {
    hide Assemble, LookupOps, MissOps, CallOps;
    match item
    case I(i) => OccursValid(i);
    case Access(width, write, ebx) =>
      LookupValid(width, write, l);
      MissValid(write, ebx);
    case Call(n, ebx) => CallValid(n, ebx);
    case CallSystem(n, ebx) => CallValid(n, ebx);
    case CallRead(n, ebx) => CallValid(n, ebx);
    case CallWrite(n, ebx) => CallValid(n, ebx);
    case _ => FixedEncodable(item, l);
  }

  /** The items that stand for one access to guest memory. */
  lemma FixedEncodable(item: Item, l: Layout)
    requires ItemOccurs(item) && !item.I? && !item.Access? && !item.Call? && !item.CallSystem? && !item.CallRead? && !item.CallWrite?
    ensures Encodable(item, l)
  {
    hide Assemble, LookupOps, MissOps, CallOps;
  }

  lemma ItemsEncodable(items: seq<Item>, l: Layout)
    requires Formed(items)
    ensures AllEncodable(items, l)
  {
    hide ItemOccurs, Encodable;
    forall item <- items
      ensures Encodable(item, l)
    {
      ItemEncodable(item, l);
    }
  }

  /** An AUIPC that straddles two pages is compiled as if four bytes before the page; with the
      least constant the sum no longer fits an immediate, and the encoder stops. */
  lemma StraddlingAuipc(rd: nat, imm: int, l: Layout)
    requires Decoded(Auipc(rd, imm))
    ensures AllEncodable(EmitOp(Auipc(rd, imm), 4, -4, -1), l) <==> imm != -0x8000_0000
  {
    var code := EmitOp(Auipc(rd, imm), 4, -4, -1);
    if imm != -0x8000_0000 {
      OpFormed(Auipc(rd, imm), 4, -4, -1);
      ItemsEncodable(code, l);
    } else {
      var add := Alu(AddOp, Rax, Signext(imm - 4));
      hide StoreReg;
      assert code[1] == I(add);
      assert ItemOps(I(add), l) == [Assemble(add)];
      assert Assemble(add) in ItemOps(I(add), l);
      assert !O.ValidOp(Assemble(add));
      assert !Encodable(code[1], l);
    }
  }

  /** Whatever block the translator builds, the encoder takes each of its instructions, and the
      bytes it makes of them are decoded to the same instructions again. */
  lemma BlockDecodes(units: seq<T.Unit>, e: T.Ending, item: Item, op: O.Op, l: Layout, rest: RT.Bytes)
    requires (forall u <- units :: DecodedUnit(u)) && T.TotalLen(units) <= 0x1000
    requires e.Cross? ==> Decoded(e.op) && RoomFor(e.op, -4)
    requires item in T.Compile(units, e, 0, 0) && op in ItemOps(item, l)
    ensures O.ValidOp(op) && RT.RoundTrips(op, E.Encode(op), rest)
  {
    hide T.Compile, Occurs, ItemOps, O.ValidOp, RT.RoundTrips, E.Encode, Decoded;
    BlockFormed(units, e, 0, 0);
    ItemEncodable(item, l);
    RT.RoundTrip(op, rest);
  }
}
