/**
 * The part of the x86-64 machine that translated blocks use: four general registers, the
 * arithmetic flags as left by the last comparison, and the hart context that RBP points to.
 */
module X86 {
  import opened Words
  import opened Guest

  datatype Gpr = RAX | RCX | RDX | RSI
  datatype Size = Byte | Word | Dword | Qword

  /** A register of some width, or a field of the context addressed off RBP. */
  datatype Loc = Reg(r: Gpr, size: Size) | X(n: nat, width: Size) | Pc | Instret

  /** A source operand; immediates are already sign-extended to 64 bits. */
  datatype Operand = L(loc: Loc) | Imm(v: u64)

  datatype AluOp = AddOp | SubOp | AndOp | OrOp | XorOp
  datatype ShiftOp = ShlOp | ShrOp | SarOp

  datatype Cond =
    Equal | NotEqual | Less | GreaterEqual | LessEqual | Greater
  | Below | AboveEqual | BelowEqual | Above

  datatype Instr =
    Mov(dst: Loc, src: Operand)
  | Movsxd(reg: Gpr, from: Loc)
  | MovzxByte(reg: Gpr)
  | Alu(aop: AluOp, dst: Loc, src: Operand)
  | Shift(sop: ShiftOp, dst: Loc, src: Operand)
  | NotI(dst: Loc)
  | NegI(dst: Loc)
  | Cmp(dst: Loc, src: Operand)
  | Setcc(cc: Cond)
  | Cdqe | Cqo | Cdq
  | Imul2(reg: Gpr, from: Loc)
  | Mul1(from: Loc)
  | Imul1(from: Loc)
  | Div(from: Loc)
  | Idiv(from: Loc)
  | Lea(reg: Gpr, base: Gpr, disp: u64)

  /** The flags are only known after a comparison. */
  datatype Flags = Undefined | Known(zf: bool, cf: bool, sf: bool, of: bool)

  /** `ok` is lost when a condition is taken from undefined flags. */
  datatype Cpu = Cpu(rax: u64, rcx: u64, rdx: u64, rsi: u64, flags: Flags, ok: bool, hart: Hart)

  function Gp(c: Cpu, r: Gpr): (v: u64) {
    match r
    case RAX => c.rax
    case RCX => c.rcx
    case RDX => c.rdx
    case RSI => c.rsi
  }

  function SetGp(c: Cpu, r: Gpr, v: u64): (c': Cpu) {
    match r
    case RAX => c.(rax := v)
    case RCX => c.(rcx := v)
    case RDX => c.(rdx := v)
    case RSI => c.(rsi := v)
  }

  function Modulus(s: Size): (m: int)
    ensures 256 <= m <= W
  {
    match s
    case Byte => 0x100
    case Word => 0x1_0000
    case Dword => H
    case Qword => W
  }

  /** Any integer, wrapped to an operand size. */
  function Truncate(v: int, s: Size): (r: u64) { v % Modulus(s) }

  /** The low bytes of a word. */
  function Lower(v: u64, s: Size): (r: u64) {
    match s
    case Byte => v % 0x100
    case Word => v % 0x1_0000
    case Dword => Wrap32(v)
    case Qword => v
  }

  function SizeOf(l: Loc): Size {
    match l
    case Reg(_, s) => s
    case X(_, s) => s
    case _ => Qword
  }

  function Full(c: Cpu, l: Loc): (v: u64) {
    match l
    case Reg(r, _) => Gp(c, r)
    case X(n, _) => ReadX(c.hart, n)
    case Pc => c.hart.pc
    case Instret => c.hart.instret
  }

  function Read(c: Cpu, l: Loc): (v: u64) { Lower(Full(c, l), SizeOf(l)) }

  function Source(c: Cpu, o: Operand, s: Size): (v: u64) {
    match o
    case L(l) => Lower(Full(c, l), s)
    case Imm(v) => Lower(v, s)
  }

  /** A narrow write leaves the other bytes, except that a 32-bit register write clears them. */
  function Merge(prev: u64, v: u64, s: Size): (r: u64) {
    match s
    case Byte => prev - prev % 0x100 + v % 0x100
    case Word => prev - prev % 0x1_0000 + v % 0x1_0000
    case Dword => prev - Wrap32(prev) + Wrap32(v)
    case Qword => v
  }

  function Write(c: Cpu, l: Loc, v: u64): (c': Cpu) {
    match l
    case Reg(r, s) => SetGp(c, r, if s == Byte || s == Word then Merge(Gp(c, r), v, s) else Lower(v, s))
    case X(n, s) =>
      if n < |c.hart.x| then c.(hart := c.hart.(x := c.hart.x[n := Merge(c.hart.x[n], v, s)])) else c
    case Pc => c.(hart := c.hart.(pc := v))
    case Instret => c.(hart := c.hart.(instret := v))
  }

  function AluResult(op: AluOp, a: u64, b: u64, s: Size): (r: u64) {
    match op
    case AddOp => Truncate(a + b, s)
    case SubOp => Truncate(a - b, s)
    case AndOp => And(a, b)
    case OrOp => Or(a, b)
    case XorOp => Xor(a, b)
  }

  /** Shift counts are taken modulo the operand width. */
  function ShiftResult(op: ShiftOp, a: u64, n: u64, s: Size): (r: u64) {
    if s == Qword then
      match op
      case ShlOp => ShiftLeft(a, n % 64)
      case ShrOp => ShiftRight(a, n % 64)
      case SarOp => ShiftArith(a, n % 64)
    else
      match op
      case ShlOp => ShiftLeft32(a, n % 32)
      case ShrOp => ShiftRight32(a, n % 32)
      case SarOp => ShiftArith32(a, n % 32)
  }

  function SignedOf(v: u64, s: Size): (r: int) {
    if v < Modulus(s) / 2 then v else v - Modulus(s)
  }

  /** CMP: the flags of `a - b` at the operand size. */
  function Compare(a: u64, b: u64, s: Size): (f: Flags)
    ensures f.Known?
  {
    var d := SignedOf(a, s) - SignedOf(b, s);
    var r := Truncate(a - b, s);
    Known(r == 0, a < b, SignedOf(r, s) < 0, d != SignedOf(r, s))
  }

  function Holds(cc: Cond, f: Flags): bool
    requires f.Known?
  {
    match cc
    case Equal => f.zf
    case NotEqual => !f.zf
    case Below => f.cf
    case AboveEqual => !f.cf
    case BelowEqual => f.cf || f.zf
    case Above => !f.cf && !f.zf
    case Less => f.sf != f.of
    case GreaterEqual => f.sf == f.of
    case LessEqual => f.zf || f.sf != f.of
    case Greater => !f.zf && f.sf == f.of
  }

  /** What a comparison of two words says, without the flags. */
  predicate Relation(cc: Cond, a: u64, b: u64) {
    match cc
    case Equal => a == b
    case NotEqual => a != b
    case Below => a < b
    case AboveEqual => a >= b
    case BelowEqual => a <= b
    case Above => a > b
    case Less => Signed(a) < Signed(b)
    case GreaterEqual => Signed(a) >= Signed(b)
    case LessEqual => Signed(a) <= Signed(b)
    case Greater => Signed(a) > Signed(b)
  }

  lemma CompareHolds(cc: Cond, a: u64, b: u64)
    ensures Holds(cc, Compare(a, b, Qword)) == Relation(cc, a, b)
  {
    CompareFlags(a, b);
    hide Compare, Signed;
  }

  /** The flags of a comparison: equality, unsigned order, and the signed order as SF against OF. */
  lemma CompareFlags(a: u64, b: u64)
    ensures var f := Compare(a, b, Qword);
      f.zf == (a == b) && f.cf == (a < b) && (f.sf != f.of) == (Signed(a) < Signed(b))
      && (Signed(a) == Signed(b) <==> a == b)
  {
    var d := Signed(a) - Signed(b);
    assert a - b == d || a - b == d + W || a - b == d - W;
    assert Truncate(a - b, Qword) == if a >= b then a - b else a - b + W;
  }

  function Clobber(c: Cpu): (c': Cpu) { c.(flags := Undefined) }

  /** One straight-line instruction; a division fault is completed by the signal handler. */
  function Exec(i: Instr, c: Cpu): (c': Cpu) {
    match i
    case Mov(d, s) => Write(c, d, Source(c, s, SizeOf(d)))
    case Movsxd(r, l) => SetGp(c, r, Sext32(Full(c, l)))
    case MovzxByte(r) => SetGp(c, r, Lower(Gp(c, r), Byte))
    case Alu(op, d, s) => Clobber(Write(c, d, AluResult(op, Read(c, d), Source(c, s, SizeOf(d)), SizeOf(d))))
    case Shift(op, d, s) => Clobber(Write(c, d, ShiftResult(op, Read(c, d), Source(c, s, Byte), SizeOf(d))))
    case NotI(d) => Write(c, d, Not(Read(c, d)))
    case NegI(d) => Clobber(Write(c, d, Truncate(0 - Read(c, d), SizeOf(d))))
    case Cmp(d, s) => c.(flags := Compare(Read(c, d), Source(c, s, SizeOf(d)), SizeOf(d)))
    case Setcc(cc) =>
      if c.flags.Known? then Write(c, Reg(RAX, Byte), Bool(Holds(cc, c.flags))) else c.(ok := false)
    case Cdqe => c.(rax := Sext32(c.rax))
    case Cqo => c.(rdx := if Signed(c.rax) < 0 then W - 1 else 0)
    case Cdq => c.(rdx := if Signed32(c.rax) < 0 then H - 1 else 0)
    case Imul2(r, l) => Clobber(SetGp(c, r, Truncate(Lower(Gp(c, r), SizeOf(l)) * Read(c, l), SizeOf(l))))
    case Mul1(l) => Clobber(MulWide(c, c.rax * Full(c, l)))
    case Imul1(l) => Clobber(MulWide(c, Signed(c.rax) * Signed(Full(c, l))))
    case Div(l) => Clobber(Divide(c, Read(c, l), SizeOf(l), false))
    case Idiv(l) => Clobber(Divide(c, Read(c, l), SizeOf(l), true))
    case Lea(r, b, disp) => SetGp(c, r, Wrap(Gp(c, b) + disp))
  }

  function MulWide(c: Cpu, p: int): (c': Cpu) {
    c.(rax := Wrap(p), rdx := High(p))
  }

  /** The dividend RDX:RAX (EDX:EAX), read as unsigned or in two's complement. */
  function Dividend(c: Cpu, s: Size, signed: bool): (d: int) {
    var lo := Lower(c.rax, s);
    var hi := Lower(c.rdx, s);
    (if signed then SignedOf(hi, s) else hi) * Modulus(s) + lo
  }

  predicate Fits(q: int, s: Size, signed: bool) {
    if signed then -(Modulus(s) / 2) <= q < Modulus(s) / 2 else 0 <= q < Modulus(s)
  }

  /** DIV and IDIV; a zero divisor or a quotient that does not fit raises #DE. */
  function Divide(c: Cpu, b: u64, s: Size, signed: bool): (c': Cpu) {
    var d := Dividend(c, s, signed);
    var e := if signed then SignedOf(b, s) else b;
    if e == 0 || !Fits(TruncDiv(d, e), s, signed) then HandleFpe(c, b, s)
    else c.(rax := Truncate(TruncDiv(d, e), s), rdx := Truncate(TruncRem(d, e), s))
  }

  /** The SIGFPE handler: RISC-V's results for division by zero and for overflow. */
  function HandleFpe(c: Cpu, divisor: u64, s: Size): (c': Cpu) {
    var dividend := if s == Dword then Wrap32(c.rax) else c.rax;
    if divisor == 0 then c.(rax := Truncate(-1, s), rdx := dividend)
    else c.(rax := dividend, rdx := 0)
  }

  function Run(code: seq<Instr>, c: Cpu): (c': Cpu) {
    if code == [] then c else Run(code[1..], Exec(code[0], c))
  }
}
