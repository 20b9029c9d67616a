/** Code of a translated block: straight-line instructions, forward jumps, helpers and exits. */
module DbtBlock {
  import opened Wrappers
  import opened Words
  import opened Guest
  import opened X86
  import opened DbtEmit
  import opened RiscvStep
  import R = Riscv

  /** `Access` is the D-cache lookup on RSI with its slow path, `Call` a call into the
      interpreter with its trap check, `CallRead` and `CallWrite` such calls to read a CSR into RDX
      or write it from there; all carry the EBX word of their slow path.
      `Leave` is where control goes on to another block. */
  datatype Item =
    I(i: Instr)
  | Jcc(cc: Cond, skip: nat)
  | Access(width: Width, write: bool, ebx: nat)
  | LoadMem(width: Width, signed: bool)
  | StoreMem(width: Width)
  | LoadAx(width: Width)
  | Rmw(rmw: RmwOp, width: Width)
  | CmovCx(cc: Cond, width: Width)
  | Cmpxchg(width: Width)
  | Call(n: nat, ebx: nat)
  | CallRead(n: nat, ebx: nat)
  | CallWrite(n: nat, ebx: nat)
  | CallSystem(n: nat, ebx: nat)
  | Leave

  /** Locked operations on the memory RSI points to, with RAX. */
  datatype RmwOp = MemXchg | MemXadd | MemAlu(op: AluOp)

  /** A run falls off the end of the code, leaves the block, traps, or enters the handler for an
      address that is not aligned. */
  datatype Outcome = Fell(c: Cpu) | Left(c: Cpu) | Stopped(c: Cpu) | Misaligned(addr: u64, c: Cpu)

  // ----- the packed trap word -----

  function Low16(v: int): (r: nat)
    ensures r < 0x1_0000
  {
    v % 0x1_0000
  }

  function Sext16(v: int): (r: int) {
    var w := v % 0x1_0000;
    if w < 0x8000 then w else w - 0x1_0000
  }

  function GetEbx(pcCur: int, instret: int): (r: nat)
    ensures r < H
  {
    Low16(instret) * 0x1_0000 + Low16(pcCur)
  }

  /** `helper_trap`: add the sign-extended halves of EBX to pc and instret. */
  function Unwind(h: Hart, ebx: nat): (h': Hart) {
    h.(pc := Wrap(h.pc + Sext16(ebx)), instret := Wrap(h.instret + Sext16(ebx / 0x1_0000)))
  }

  /** The hart with its batched pc and instret increments applied. */
  function Ahead(h: Hart, pc: int, instret: int): (g: Hart) {
    h.(pc := Wrap(h.pc + pc), instret := Wrap(h.instret + instret))
  }

  lemma UnwindExact(h: Hart, pcCur: int, instret: int)
    requires -0x8000 <= pcCur < 0x8000 && -0x8000 <= instret < 0x8000
    ensures Unwind(h, GetEbx(pcCur, instret)) == Ahead(h, pcCur, instret)
  {
    hide Sext16, GetEbx;
    Unpacked(pcCur, instret);
  }

  lemma Unpacked(pcCur: int, instret: int)
    requires -0x8000 <= pcCur < 0x8000 && -0x8000 <= instret < 0x8000
    ensures Sext16(GetEbx(pcCur, instret)) == pcCur
    ensures Sext16(GetEbx(pcCur, instret) / 0x1_0000) == instret
  {
    var lo, hi := Low16(pcCur), Low16(instret);
    assert (hi * 0x1_0000 + lo) / 0x1_0000 == hi;
    assert (hi * 0x1_0000 + lo) % 0x1_0000 == lo;
  }

  // ----- execution -----

  /** What a helper call leaves in the registers that it may leave anything in. */
  datatype Junk = Junk(rax: u64, rcx: u64, rdx: u64)

  /** What each call of a block leaves; calls are told apart by how much code follows them. */
  type Leavings = nat -> Junk

  function Scratch(c: Cpu, junk: Junk): (c': Cpu) {
    c.(rax := junk.rax, rcx := junk.rcx, rdx := junk.rdx, flags := Undefined)
  }

  function EnterHandler(c: Cpu, ebx: nat): (o: Outcome) {
    Misaligned(c.rsi, c.(hart := Unwind(c.hart, ebx)))
  }

  function DoAccess(env: Env, c: Cpu, width: Width, write: bool, junk: Junk): (r: (Cpu, bool))
  {
    var (w', p) := env.translate(c.hart.world, c.rsi, write);
    var d := Scratch(c.(hart := c.hart.(world := w')), junk);
    if p.None? then (d, false) else (d.(rsi := p.value), true)
  }

  function DoCall(env: Env, c: Cpu, n: nat, junk: Junk): (r: (Cpu, bool))
  {
    var (h', trap) := env.helper(c.hart, n);
    (Scratch(c.(hart := h'), junk), trap)
  }

  function DoRead(env: Env, c: Cpu, n: nat, junk: Junk): (r: (Cpu, bool)) {
    var (h', v) := env.readCsr(c.hart, n);
    var d := Scratch(c.(hart := h'), junk);
    if v.None? then (d, true) else (d.(rdx := v.value), false)
  }

  function DoWrite(env: Env, c: Cpu, n: nat, junk: Junk): (r: (Cpu, bool)) {
    var (h', trap) := env.writeCsr(c.hart, n, c.rdx);
    (Scratch(c.(hart := h'), junk), trap)
  }

  function DoSystem(env: Env, c: Cpu, n: nat, junk: Junk): (r: (Cpu, bool))
  {
    var (h', trap) := env.system(c.hart, n);
    (Scratch(c.(hart := h'), junk), trap)
  }

  function SizeFor(w: Width): Size {
    match w
    case W8 => Byte
    case W16 => Word
    case W32 => Dword
    case W64 => Qword
  }

  /** The new memory value of a locked operation. */
  function RmwValue(rmw: RmwOp, m: u64, rax: u64, width: Width): (v: u64) {
    match rmw
    case MemXchg => Narrow(rax, width)
    case MemXadd => Narrow(AluResult(AddOp, Narrow(m, width), Narrow(rax, width), SizeFor(width)), width)
    case MemAlu(op) => Narrow(AluResult(op, Narrow(m, width), Narrow(rax, width), SizeFor(width)), width)
  }

  function DoRmw(env: Env, c: Cpu, rmw: RmwOp, width: Width): (c': Cpu) {
    var m := env.load(c.hart.world, c.rsi, width);
    var d := c.(hart := c.hart.(world := env.store(c.hart.world, c.rsi, width, RmwValue(rmw, m, c.rax, width))), flags := Undefined);
    if rmw.MemAlu? then d else d.(rax := Narrow(m, width))
  }

  /** CMOVcc RCX, RDX; the 32-bit form clears the upper half either way. */
  function DoCmov(c: Cpu, cc: Cond, width: Width): (c': Cpu) {
    if !c.flags.Known? then c.(ok := false)
    else c.(rcx := Narrow(if Holds(cc, c.flags) then c.rdx else c.rcx, width))
  }

  /** LOCK CMPXCHG with RCX. When memory no longer holds RAX the emitted loop retries; with no
      other hart running in between that cannot happen, and `ok` would be lost. */
  function DoCmpxchg(env: Env, c: Cpu, width: Width): (c': Cpu) {
    var m := env.load(c.hart.world, c.rsi, width);
    if Narrow(m, width) != Narrow(c.rax, width) then c.(ok := false)
    else c.(hart := c.hart.(world := env.store(c.hart.world, c.rsi, width, Narrow(c.rcx, width))), flags := Undefined)
  }

  function Trapped(r: (Cpu, bool), ebx: nat): (o: Outcome) {
    Stopped(r.0.(hart := Unwind(r.0.hart, ebx)))
  }

  /** Runs `code` from its start; `junk` tells what helpers leave in the scratch registers. */
  function RunBlock(env: Env, code: seq<Item>, c: Cpu, junk: Leavings): (o: Outcome)
    decreases |code|
  {
    if code == [] then Fell(c)
    else
      var rest := code[1..];
      match code[0]
      case I(i) => RunBlock(env, rest, Exec(i, c), junk)
      case Jcc(cc, skip) =>
        if !c.flags.Known? then RunBlock(env, rest, c.(ok := false), junk)
        else if Holds(cc, c.flags) && skip <= |rest| then RunBlock(env, rest[skip..], c, junk)
        else RunBlock(env, rest, c, junk)
      case Access(width, write, ebx) =>
        if c.rsi % Bytes(width) != 0 then EnterHandler(c, ebx)
        else
          var r := DoAccess(env, c, width, write, junk(|rest|));
          if r.1 then RunBlock(env, rest, r.0, junk) else Trapped(r, ebx)
      case LoadMem(width, signed) =>
        RunBlock(env, rest, c.(rax := Extend(env.load(c.hart.world, c.rsi, width), width, signed)), junk)
      case StoreMem(width) =>
        var w' := env.store(c.hart.world, c.rsi, width, Narrow(c.rdx, width));
        RunBlock(env, rest, c.(hart := c.hart.(world := w')), junk)
      case LoadAx(width) =>
        RunBlock(env, rest, c.(rax := Narrow(env.load(c.hart.world, c.rsi, width), width)), junk)
      case Rmw(rmw, width) => RunBlock(env, rest, DoRmw(env, c, rmw, width), junk)
      case CmovCx(cc, width) => RunBlock(env, rest, DoCmov(c, cc, width), junk)
      case Cmpxchg(width) => RunBlock(env, rest, DoCmpxchg(env, c, width), junk)
      case Call(n, ebx) =>
        var r := DoCall(env, c, n, junk(|rest|));
        if r.1 then Trapped(r, ebx) else RunBlock(env, rest, r.0, junk)
      case CallRead(n, ebx) =>
        var r := DoRead(env, c, n, junk(|rest|));
        if r.1 then Trapped(r, ebx) else RunBlock(env, rest, r.0, junk)
      case CallWrite(n, ebx) =>
        var r := DoWrite(env, c, n, junk(|rest|));
        if r.1 then Trapped(r, ebx) else RunBlock(env, rest, r.0, junk)
      case CallSystem(n, ebx) =>
        var r := DoSystem(env, c, n, junk(|rest|));
        if r.1 then Trapped(r, ebx) else RunBlock(env, rest, r.0, junk)
      case Leave => Left(c)
  }

  // ----- emission -----

  /** Straight-line code as items. */
  function Plain(code: Code): (r: seq<Item>)
    ensures |r| == |code|
    ensures forall k :: 0 <= k < |code| ==> r[k] == I(code[k])
  {
    seq(|code|, k requires 0 <= k < |code| => I(code[k]))
  }

  function CondOf(k: BranchKind): Cond {
    match k
    case Beq => Equal
    case Bne => NotEqual
    case Blt => Less
    case Bge => GreaterEqual
    case Bltu => Below
    case Bgeu => AboveEqual
  }

  /** The condition for the operands of CMP in the other order. */
  function Swap(cc: Cond): Cond {
    match cc
    case Less => Greater
    case GreaterEqual => LessEqual
    case Below => Above
    case AboveEqual => BelowEqual
    case _ => cc
  }

  function Negate(cc: Cond): Cond {
    match cc
    case Equal => NotEqual
    case NotEqual => Equal
    case Less => GreaterEqual
    case GreaterEqual => Less
    case LessEqual => Greater
    case Greater => LessEqual
    case Below => AboveEqual
    case AboveEqual => Below
    case BelowEqual => Above
    case Above => BelowEqual
  }

  function CompareCode(rs1: nat, rs2: nat): Code {
    if rs2 == 0 then [Cmp(Xr(rs1), Imm(0))]
    else if rs1 == 0 then [Cmp(Xr(rs2), Imm(0))]
    else [Mov(Rdx, L(Xr(rs1))), Cmp(Rdx, L(Xr(rs2)))]
  }

  function CompareCond(k: BranchKind, rs1: nat, rs2: nat): Cond {
    if rs2 != 0 && rs1 == 0 then Swap(CondOf(k)) else CondOf(k)
  }

  function AddTo(l: Loc, v: int): Code {
    if v == 0 then [] else [Alu(AddOp, l, Signext(v))]
  }

  /** RSI = address. */
  function AddressCode(rs1: nat, imm: int): Code {
    [Mov(Rsi, L(Xr(rs1)))] + (if imm == 0 then [] else [Alu(AddOp, Rsi, Signext(imm))])
  }

  function JalCode(rd: nat, imm: int, pc: int, len: nat, instret: int): Code {
    AddTo(Instret, instret + 1) +
    if rd != 0 then
      [Mov(Rax, L(Pc)), Lea(RDX, RAX, Wrap(pc + len))] + StoreReg(rd, RDX, Qword)
      + [Alu(AddOp, Rax, Signext(imm - len + (pc + len))), Mov(Pc, L(Rax))]
    else [Alu(AddOp, Pc, Signext(imm - len + (pc + len)))]
  }

  function JalrTail(rd: nat, pc: int, len: nat): Code {
    (if rd != 0 then
       [Mov(Rdx, L(Pc)), Alu(AddOp, Rdx, Signext(pc + len)), Mov(Xr(rd), L(Rdx))]
     else []) + [Mov(Pc, L(Rax))]
  }

  function JalrCode(rd: nat, rs1: nat, imm: int, pc: int, len: nat, instret: int): Code {
    AddTo(Instret, instret + 1)
    + [LoadReg(RAX, Qword, rs1)] + (if imm == 0 then [] else [Alu(AddOp, Rax, Signext(imm))])
    + [Alu(AndOp, Rax, Signext(-2))]
    + JalrTail(rd, pc, len)
  }

  predicate SingleInstruction(k: AmoKind, rd: nat) {
    k == AmoSwap || k == AmoAdd || (rd == 0 && (k == AmoAnd || k == AmoOr || k == AmoXor))
  }

  function AmoRmw(k: AmoKind, rd: nat): RmwOp {
    match k
    case AmoSwap => MemXchg
    case AmoAdd => if rd == 0 then MemAlu(AddOp) else MemXadd
    case AmoAnd => MemAlu(AndOp)
    case AmoOr => MemAlu(OrOp)
    case _ => MemAlu(XorOp)
  }

  /** The new value in RCX, from the current one in RCX and the operand in RDX. */
  function AmoAction(k: AmoKind, size: Size, width: Width): seq<Item> {
    var cx, dx := Reg(RCX, size), Reg(RDX, size);
    match k
    case AmoAnd => [I(Alu(AndOp, cx, L(dx)))]
    case AmoOr => [I(Alu(OrOp, cx, L(dx)))]
    case AmoXor => [I(Alu(XorOp, cx, L(dx)))]
    case AmoMin => [I(Cmp(dx, L(cx))), CmovCx(Less, width)]
    case AmoMax => [I(Cmp(dx, L(cx))), CmovCx(Greater, width)]
    case AmoMinu => [I(Cmp(dx, L(cx))), CmovCx(Below, width)]
    case _ => [I(Cmp(dx, L(cx))), CmovCx(Above, width)]
  }

  /** One locked instruction where x86 has one, else a compare-exchange loop. */
  function EmitAmo(k: AmoKind, rd: nat, rs2: nat, wide: bool): seq<Item> {
    var size, width := if wide then Qword else Dword, AmoWidth(wide);
    if SingleInstruction(k, rd) then
      Plain([LoadReg(RAX, size, rs2)]) + [Rmw(AmoRmw(k, rd), width)] + Plain(StoreReg(rd, RAX, size))
    else
      Plain([LoadReg(RDX, size, rs2)]) + [LoadAx(width)] + Plain([Mov(Reg(RCX, size), L(Reg(RAX, size)))])
      + AmoAction(k, size, width) + [Cmpxchg(width)] + Plain(StoreReg(rd, RAX, size))
  }

  /** The code for one instruction of length `len` at offset `pc` of its block, with `instret`
      instructions retired since the counters in the context were last brought up to date. */
  function EmitOp(op: Op, len: nat, pc: int, instret: int): seq<Item> {
    match op
    case OpImm(k, rd, rs1, imm) => Plain(EmitImm(k, rd, rs1, imm))
    case OpReg(k, rd, rs1, rs2) => Plain(EmitReg(k, rd, rs1, rs2))
    case Lui(rd, imm) => Plain(LoadImm(rd, imm))
    case Auipc(rd, imm) =>
      Plain([Mov(Rax, L(Pc)), Alu(AddOp, Rax, Signext(imm + pc))] + StoreReg(rd, RAX, Qword))
    case Fence => []
    case Load(rd, rs1, imm, width, signed) =>
      Plain(AddressCode(rs1, imm)) + [Access(width, false, GetEbx(pc, instret)), LoadMem(width, signed)]
      + Plain(StoreReg(rd, RAX, Qword))
    case Store(rs1, rs2, imm, width) =>
      Plain(AddressCode(rs1, imm)) + [Access(width, true, GetEbx(pc, instret)), I(Mov(Reg(RDX, SizeFor(width)), L(X(rs2, SizeFor(width))))), StoreMem(width)]
    case Amo(k, rd, rs1, rs2, wide) =>
      Plain([LoadReg(RSI, Qword, rs1)]) + [Access(AmoWidth(wide), true, GetEbx(pc, instret))] + EmitAmo(k, rd, rs2, wide)
    case Helper(n) => [Call(n, GetEbx(pc, instret))]
    case ReadCsr(rd, n) => [CallRead(n, GetEbx(pc, instret))] + Plain(StoreReg(rd, RDX, Qword))
    case WriteCsr(rs1, n) => Plain([LoadReg(RDX, Qword, rs1)]) + [CallWrite(n, GetEbx(pc, instret))]
    case WriteCsrImm(imm, n) => Plain([Mov(Rdx, Signext(imm))]) + [CallWrite(n, GetEbx(pc, instret))]
    case Branch(k, rs1, rs2, imm) =>
      var taken := Plain([Alu(AddOp, Pc, Signext(pc + imm))] + AddTo(Instret, instret + 1)) + [Leave];
      Plain(CompareCode(rs1, rs2)) + [Jcc(Negate(CompareCond(k, rs1, rs2)), |taken|)] + taken
    case Jal(rd, imm) => Plain(JalCode(rd, imm, pc, len, instret)) + [Leave]
    case Jalr(rd, rs1, imm) => Plain(JalrCode(rd, rs1, imm, pc, len, instret)) + [Leave]
    case System(n) =>
      Plain(AddTo(Pc, pc + len) + AddTo(Instret, instret + 1))
      + [CallSystem(n, GetEbx(0 - len, -1)), Leave]
  }

  /** A branch over exactly one instruction: the second runs only when the branch is not taken. */
  function EmitFused(k: BranchKind, rs1: nat, rs2: nat, blen: nat, op: Op, len: nat, pc: int, instret: int): seq<Item> {
    var body := [I(Alu(AddOp, Instret, Imm(1)))] + EmitOp(op, len, pc + blen, instret);
    Plain(CompareCode(rs1, rs2)) + [Jcc(CompareCond(k, rs1, rs2), |body|)] + body
  }

  function EmitEnd(pc: int, instret: int): seq<Item> {
    Plain(AddTo(Pc, pc) + AddTo(Instret, instret)) + [Leave]
  }

  /** An instruction that straddles the page end: the counters are brought past it first, and its
      code, filled in when its second half is known, is compiled as if at offset -4. */
  function EmitCross(op: Op, pc: int, instret: int): seq<Item> {
    Plain(AddTo(Pc, pc + 4) + AddTo(Instret, instret + 1)) + EmitOp(op, 4, -4, -1) + [Leave]
  }
}
