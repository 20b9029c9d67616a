/** The interpreter's step function for one instruction, and runs of it. */
module RiscvStep {
  import opened Wrappers
  import opened Words
  import opened Guest
  import opened Riscv

  datatype BranchKind = Beq | Bne | Blt | Bge | Bltu | Bgeu

  predicate Taken(k: BranchKind, a: u64, b: u64) {
    match k
    case Beq => a == b
    case Bne => a != b
    case Blt => Signed(a) < Signed(b)
    case Bge => Signed(a) >= Signed(b)
    case Bltu => a < b
    case Bgeu => a >= b
  }

  datatype AmoKind = AmoSwap | AmoAdd | AmoAnd | AmoOr | AmoXor | AmoMin | AmoMax | AmoMinu | AmoMaxu

  /** What an atomic operation leaves in memory, on 64-bit or on 32-bit values. */
  function AmoValue(k: AmoKind, current: u64, src: u64, wide: bool): (r: u64) {
    if wide then
      match k
      case AmoSwap => src
      case AmoAdd => Wrap(current + src)
      case AmoAnd => Words.And(current, src)
      case AmoOr => Words.Or(current, src)
      case AmoXor => Words.Xor(current, src)
      case AmoMin => if Signed(src) < Signed(current) then src else current
      case AmoMax => if Signed(src) > Signed(current) then src else current
      case AmoMinu => if src < current then src else current
      case AmoMaxu => if src > current then src else current
    else
      var a, b := Wrap32(current), Wrap32(src);
      match k
      case AmoSwap => b
      case AmoAdd => Wrap32(a + b)
      case AmoAnd => Wrap32(Words.And(a, b))
      case AmoOr => Wrap32(Words.Or(a, b))
      case AmoXor => Wrap32(Words.Xor(a, b))
      case AmoMin => if Signed32(b) < Signed32(a) then b else a
      case AmoMax => if Signed32(b) > Signed32(a) then b else a
      case AmoMinu => if b < a then b else a
      case AmoMaxu => if b > a then b else a
  }

  function AmoWidth(wide: bool): Width { if wide then W64 else W32 }

  /** `Helper` stands for the instructions that translated code runs by calling the interpreter
      in place; `System` for those that first bring pc and instret up to date. The CSR instructions
      that only read or only write have code of their own. */
  datatype Op =
    OpImm(ik: ImmKind, rd: nat, rs1: nat, imm: int)
  | OpReg(rk: RegKind, rd: nat, rs1: nat, rs2: nat)
  | Lui(rd: nat, imm: int)
  | Auipc(rd: nat, imm: int)
  | Fence
  | Load(rd: nat, rs1: nat, imm: int, width: Width, signed: bool)
  | Store(rs1: nat, rs2: nat, imm: int, width: Width)
  | Amo(ak: AmoKind, rd: nat, rs1: nat, rs2: nat, wide: bool)
  | Helper(n: nat)
  | ReadCsr(rd: nat, n: nat)
  | WriteCsr(rs1: nat, n: nat)
  | WriteCsrImm(imm: int, n: nat)
  | Branch(bk: BranchKind, rs1: nat, rs2: nat, imm: int)
  | Jal(rd: nat, imm: int)
  | Jalr(rd: nat, rs1: nat, imm: int)
  | System(n: nat)

  datatype Width = W8 | W16 | W32 | W64

  function Bytes(w: Width): (b: nat)
    ensures b >= 1
  {
    match w
    case W8 => 1
    case W16 => 2
    case W32 => 4
    case W64 => 8
  }

  predicate ValidOp(op: Op) {
    match op
    case OpImm(k, rd, rs1, imm) => rd < 32 && rs1 < 32 && ValidImm(k, imm)
    case OpReg(_, rd, rs1, rs2) => rd < 32 && rs1 < 32 && rs2 < 32
    case Lui(rd, _) => rd < 32
    case Auipc(rd, _) => rd < 32
    case Load(rd, rs1, _, _, _) => rd < 32 && rs1 < 32
    case Store(rs1, rs2, _, _) => rs1 < 32 && rs2 < 32
    case Amo(_, rd, rs1, rs2, _) => rd < 32 && rs1 < 32 && rs2 < 32
    case ReadCsr(rd, _) => rd < 32
    case WriteCsr(rs1, _) => rs1 < 32
    case WriteCsrImm(imm, _) => 0 <= imm < 32
    case Branch(_, rs1, rs2, _) => rs1 < 32 && rs2 < 32
    case Jal(rd, _) => rd < 32
    case Jalr(rd, rs1, _) => rd < 32 && rs1 < 32
    case _ => true
  }

  type pos = n: nat | n > 0 witness 1

  /** The parts of the emulator an instruction may call on, for one hart. `insn` is what the
      instruction at an address is found to be when it is fetched once more. */
  datatype Env = Env(
    lineSize: pos,
    insn: (World, u64) -> (World, Option<Insn>),
    translate: (World, u64, bool) -> (World, Option<u64>),
    load: (World, u64, Width) -> u64,
    store: (World, u64, Width, u64) -> World,
    helper: (Hart, nat) -> (Hart, bool),
    readCsr: (Hart, nat) -> (Hart, Option<u64>),
    writeCsr: (Hart, nat, u64) -> (Hart, bool),
    system: (Hart, nat) -> (Hart, bool))

  /** Calls into the interpreter keep x0 zero, and a trapping one leaves pc and instret alone. */
  ghost predicate Sound(env: Env) {
    && (forall h: Hart, n: nat :: Valid(h) ==> Valid(env.helper(h, n).0))
    && (forall h: Hart, n: nat :: Valid(h) ==> Valid(env.readCsr(h, n).0))
    && (forall h: Hart, n: nat, v: u64 :: Valid(h) ==> Valid(env.writeCsr(h, n, v).0))
    && (forall h: Hart, n: nat :: Valid(h) ==> Valid(env.system(h, n).0))
    && (forall h: Hart, n: nat :: env.system(h, n).1 ==>
          env.system(h, n).0.pc == h.pc && env.system(h, n).0.instret == h.instret)
  }

  function SetCounters(h: Hart, pc: u64, instret: u64): (g: Hart) { h.(pc := pc, instret := instret) }

  /** The helper neither looks at pc and instret nor changes them. */
  ghost predicate Blind(env: Env, n: nat) {
    forall h: Hart, pc: u64, instret: u64 ::
      env.helper(SetCounters(h, pc, instret), n) == (SetCounters(env.helper(h, n).0, pc, instret), env.helper(h, n).1)
  }

  ghost predicate BlindRead(env: Env, n: nat) {
    forall h: Hart, pc: u64, instret: u64 ::
      env.readCsr(SetCounters(h, pc, instret), n) == (SetCounters(env.readCsr(h, n).0, pc, instret), env.readCsr(h, n).1)
  }

  ghost predicate BlindWrite(env: Env, n: nat) {
    forall h: Hart, pc: u64, instret: u64, v: u64 ::
      env.writeCsr(SetCounters(h, pc, instret), n, v) == (SetCounters(env.writeCsr(h, n, v).0, pc, instret), env.writeCsr(h, n, v).1)
  }

  /** An instruction whose translation may run with pc and instret lagging behind. */
  ghost predicate Batchable(env: Env, op: Op) {
    match op
    case Helper(n) => Blind(env, n)
    case ReadCsr(_, n) => BlindRead(env, n)
    case WriteCsr(_, n) => BlindWrite(env, n)
    case WriteCsrImm(_, n) => BlindWrite(env, n)
    case _ => true
  }

  /** Why an instruction stops: a trap whose cause the emulator has recorded in the world, or an
      address that is not aligned, with the cause that is raised for it. */
  datatype Reason = Trap | AddressMisaligned(cause: nat, addr: u64)

  datatype StepResult = Next(h: Hart) | Stop(reason: Reason, h: Hart)

  /** Retire an instruction of the given length that falls through. */
  function Retire(h: Hart, len: nat): (h': Hart) {
    h.(pc := Wrap(h.pc + len), instret := Wrap(h.instret + 1))
  }

  function JumpTo(h: Hart, pc: u64): (h': Hart) {
    h.(pc := pc, instret := Wrap(h.instret + 1))
  }

  function Extend(v: u64, w: Width, signed: bool): (r: u64) {
    match w
    case W8 => if signed && v % 0x100 >= 0x80 then Wrap(v % 0x100 - 0x100) else v % 0x100
    case W16 => if signed && v % 0x1_0000 >= 0x8000 then Wrap(v % 0x1_0000 - 0x1_0000) else v % 0x1_0000
    case W32 => if signed then Sext32(v) else Wrap32(v)
    case W64 => v
  }

  function Narrow(v: u64, w: Width): (r: u64) {
    match w
    case W8 => v % 0x100
    case W16 => v % 0x1_0000
    case W32 => Wrap32(v)
    case W64 => v
  }

  /** Where a load, store or atomic accesses memory. */
  function AddressOf(h: Hart, op: Op): (addr: u64) {
    match op
    case Load(_, rs1, imm, _, _) => Wrap(ReadX(h, rs1) + imm)
    case Store(rs1, _, imm, _) => Wrap(ReadX(h, rs1) + imm)
    case Amo(_, _, rs1, _, _) => ReadX(h, rs1)
    case _ => 0
  }

  function WidthOf(op: Op): Width {
    match op
    case Load(_, _, _, width, _) => width
    case Store(_, _, _, width) => width
    case Amo(_, _, _, _, wide) => AmoWidth(wide)
    case _ => W8
  }

  predicate Aligned(h: Hart, op: Op) { AddressOf(h, op) % Bytes(WidthOf(op)) == 0 }

  /** A load of one memory word, whatever its alignment. */
  function DoLoad(env: Env, h: Hart, rd: nat, addr: u64, w: Width, signed: bool, len: nat): (r: StepResult) {
    var (w', p) := env.translate(h.world, addr, false);
    if p.None? then Stop(Trap, h.(world := w'))
    else Next(Retire(WriteX(h.(world := w'), rd, Extend(env.load(w', p.value, w), w, signed)), len))
  }

  function DoStore(env: Env, h: Hart, rs2: nat, addr: u64, w: Width, len: nat): (r: StepResult) {
    var (w', p) := env.translate(h.world, addr, true);
    if p.None? then Stop(Trap, h.(world := w'))
    else Next(Retire(h.(world := env.store(w', p.value, w, Narrow(ReadX(h, rs2), w))), len))
  }

  /** One instruction of length `len` at `h.pc`. */
  function Step(env: Env, h: Hart, op: Op, len: nat): (r: StepResult)
    requires ValidOp(op)
  {
    match op
    case OpImm(k, rd, rs1, imm) => Next(Retire(WriteX(h, rd, ImmValue(k, ReadX(h, rs1), imm)), len))
    case OpReg(k, rd, rs1, rs2) => Next(Retire(WriteX(h, rd, RegValue(k, ReadX(h, rs1), ReadX(h, rs2))), len))
    case Lui(rd, imm) => Next(Retire(WriteX(h, rd, Wrap(imm)), len))
    case Auipc(rd, imm) => Next(Retire(WriteX(h, rd, Wrap(h.pc + imm)), len))
    case Fence => Next(Retire(h, len))
    case Load(rd, rs1, imm, w, signed) =>
      var addr := Wrap(ReadX(h, rs1) + imm);
      if addr % Bytes(w) != 0 then Stop(AddressMisaligned(4, addr), h) else DoLoad(env, h, rd, addr, w, signed, len)
    case Store(rs1, rs2, imm, w) =>
      var addr := Wrap(ReadX(h, rs1) + imm);
      if addr % Bytes(w) != 0 then Stop(AddressMisaligned(5, addr), h) else DoStore(env, h, rs2, addr, w, len)
    case Amo(k, rd, rs1, rs2, wide) =>
      var addr, w := ReadX(h, rs1), AmoWidth(wide);
      if addr % Bytes(w) != 0 then Stop(AddressMisaligned(5, addr), h)
      else
        var (w', p) := env.translate(h.world, addr, true);
        if p.None? then Stop(Trap, h.(world := w'))
        else
          var current := env.load(w', p.value, w);
          var h' := h.(world := env.store(w', p.value, w, AmoValue(k, current, ReadX(h, rs2), wide)));
          Next(Retire(WriteX(h', rd, Extend(current, w, true)), len))
    case Helper(n) =>
      var (h', trap) := env.helper(Retire(h, len), n);
      if trap then Stop(Trap, SetCounters(h', h.pc, h.instret)) else Next(h')
    case ReadCsr(rd, n) =>
      var (h', v) := env.readCsr(Retire(h, len), n);
      if v.None? then Stop(Trap, SetCounters(h', h.pc, h.instret)) else Next(WriteX(h', rd, v.value))
    case WriteCsr(rs1, n) =>
      var (h', trap) := env.writeCsr(Retire(h, len), n, ReadX(h, rs1));
      if trap then Stop(Trap, SetCounters(h', h.pc, h.instret)) else Next(h')
    case WriteCsrImm(imm, n) =>
      var (h', trap) := env.writeCsr(Retire(h, len), n, Wrap(imm));
      if trap then Stop(Trap, SetCounters(h', h.pc, h.instret)) else Next(h')
    case Branch(k, rs1, rs2, imm) =>
      if Taken(k, ReadX(h, rs1), ReadX(h, rs2)) then Next(JumpTo(h, Wrap(h.pc + imm))) else Next(Retire(h, len))
    case Jal(rd, imm) => Next(JumpTo(WriteX(h, rd, Wrap(h.pc + len)), Wrap(h.pc + imm)))
    case Jalr(rd, rs1, imm) =>
      var target := Wrap(ReadX(h, rs1) + imm);
      Next(JumpTo(WriteX(h, rd, Wrap(h.pc + len)), target - target % 2))
    case System(n) =>
      var (h', trap) := env.system(Retire(h, len), n);
      if trap then Stop(Trap, SetCounters(h', h.pc, h.instret)) else Next(h')
  }

  /** An access traps for its address exactly when it is not aligned, and no other instruction does. */
  lemma MisalignedTraps(env: Env, h: Hart, op: Op, len: nat)
    requires ValidOp(op)
    ensures var r := Step(env, h, op, len);
      && ((r.Stop? && r.reason.AddressMisaligned?) <==> !Aligned(h, op))
      && (!Aligned(h, op) ==> r == Stop(AddressMisaligned(if op.Load? then 4 else 5, AddressOf(h, op)), h))
  {
    hide Wrap, ImmValue, RegValue, AmoValue, Extend;
    assert AddressOf(h, op) % 1 == 0;
  }

  datatype Insn = Insn(op: Op, len: nat)

  predicate ValidInsn(i: Insn) { ValidOp(i.op) && (i.len == 2 || i.len == 4) }

  /** What the decoder finds at each program counter. */
  type Fetch = f: u64 -> Insn | forall pc: u64 :: ValidInsn(f(pc)) witness (pc: u64) => Insn(Fence, 4)

  /** The interpreter, run for at most `n` instructions or until one of them stops. */
  function Steps(env: Env, fetch: Fetch, r: StepResult, n: nat): (r': StepResult)
    decreases n
  {
    if n == 0 || r.Stop? then r
    else
      var i := fetch(r.h.pc);
      Steps(env, fetch, Step(env, r.h, i.op, i.len), n - 1)
  }

  lemma {:induction false} StepsCompose(env: Env, fetch: Fetch, r: StepResult, m: nat, n: nat)
    ensures Steps(env, fetch, Steps(env, fetch, r, m), n) == Steps(env, fetch, r, m + n)
    decreases m
  {
    hide Step;
    if m > 0 && r.Next? {
      var i := fetch(r.h.pc);
      StepsCompose(env, fetch, Step(env, r.h, i.op, i.len), m - 1, n);
    }
  }

  /** Every access of the next `n` instructions, up to the first that stops, is aligned. */
  predicate AllAligned(env: Env, fetch: Fetch, r: StepResult, n: nat)
    decreases n
  {
    n == 0 || r.Stop? ||
    var i := fetch(r.h.pc);
    Aligned(r.h, i.op) && AllAligned(env, fetch, Step(env, r.h, i.op, i.len), n - 1)
  }

  predicate StopsMisaligned(r: StepResult) { r.Stop? && r.reason.AddressMisaligned? }

  /** A run traps for an address exactly if one is not aligned, and then with cause 4 or 5. */
  lemma {:induction false} AlignedRun(env: Env, fetch: Fetch, r: StepResult, n: nat)
    requires r.Stop? ==> r.reason.Trap?
    ensures StopsMisaligned(Steps(env, fetch, r, n)) <==> !AllAligned(env, fetch, r, n)
    ensures StopsMisaligned(Steps(env, fetch, r, n)) ==> Steps(env, fetch, r, n).reason.cause < 6
    decreases n
  {
    hide Step, Aligned;
    if n > 0 && r.Next? {
      var i := fetch(r.h.pc);
      MisalignedTraps(env, r.h, i.op, i.len);
      var next := Step(env, r.h, i.op, i.len);
      if Aligned(r.h, i.op) {
        AlignedRun(env, fetch, next, n - 1);
      } else {
        assert Steps(env, fetch, next, n - 1) == next;
      }
    }
  }
}
