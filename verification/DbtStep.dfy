/** The code emitted for one instruction does what one `step` does, counters included. */
module DbtStep {
  import opened Words
  import opened Guest
  import opened X86
  import opened DbtEmit
  import opened DbtOps
  import opened DbtOps32
  import opened DbtMulDiv
  import opened DbtBlock
  import opened RiscvStep
  import opened Misalign
  import R = Riscv

  // ----- every OP-IMM, OP, OP-32 and M instruction -----

  lemma ImmRuns(k: R.ImmKind, rd: nat, rs1: nat, imm: int, c: Cpu)
    requires Ready(c) && rd < 32 && rs1 < 32 && R.ValidImm(k, imm)
    ensures Sets(Run(EmitImm(k, rd, rs1, imm), c), c, rd, R.ImmValue(k, ReadX(c.hart, rs1), imm))
  {
    hide Run, Sets, Addi, ShiftImm, Slti, Sltiu, Xori, Ori, Andi, Addiw, ShiftImm32, Sext32, Words.Xor, Words.Or, Words.And;
    match k
    case Addi => AddiRuns(rd, rs1, imm, c);
    case Slli => ShiftImmRuns(ShlOp, rd, rs1, imm, c);
    case Slti => SltiRuns(rd, rs1, imm, c);
    case Sltiu => SltiuRuns(rd, rs1, imm, c);
    case Xori => XoriRuns(rd, rs1, imm, c);
    case Srli => ShiftImmRuns(ShrOp, rd, rs1, imm, c);
    case Srai => ShiftImmRuns(SarOp, rd, rs1, imm, c);
    case Ori => OriRuns(rd, rs1, imm, c);
    case Andi => AndiRuns(rd, rs1, imm, c);
    case Addiw => AddiwRuns(rd, rs1, imm, c);
    case Slliw => ShiftImm32Runs(ShlOp, rd, rs1, imm, c);
    case Srliw => ShiftImm32Runs(ShrOp, rd, rs1, imm, c);
    case Sraiw => ShiftImm32Runs(SarOp, rd, rs1, imm, c);
  }

  lemma RegRuns(k: R.RegKind, rd: nat, rs1: nat, rs2: nat, c: Cpu)
    requires Ready(c) && rd < 32 && rs1 < 32 && rs2 < 32
    ensures Sets(Run(EmitReg(k, rd, rs1, rs2), c), c, rd, R.RegValue(k, ReadX(c.hart, rs1), ReadX(c.hart, rs2)))
  {
    if k.Div? || k.Divu? || k.Rem? || k.Remu? || k.Divw? || k.Divuw? || k.Remw? || k.Remuw? {
      DivisionRuns(k, rd, rs1, rs2, c);
    } else if k.Mul? || k.Mulh? || k.Mulhsu? || k.Mulhu? || k.Mulw? {
      MultiplyRuns(k, rd, rs1, rs2, c);
    } else {
      IntegerRuns(k, rd, rs1, rs2, c);
    }
  }

  lemma IntegerRuns(k: R.RegKind, rd: nat, rs1: nat, rs2: nat, c: Cpu)
    requires Ready(c) && rd < 32 && rs1 < 32 && rs2 < 32
    requires k.Add? || k.Sub? || k.Sll? || k.Slt? || k.Sltu? || k.Xor? || k.Srl? || k.Sra? || k.Or? || k.And?
      || k.Addw? || k.Subw? || k.Sllw? || k.Srlw? || k.Sraw?
    ensures Sets(Run(EmitReg(k, rd, rs1, rs2), c), c, rd, R.RegValue(k, ReadX(c.hart, rs1), ReadX(c.hart, rs2)))
  {
    hide Run, Sets, DbtEmit.Add, Sub, ShiftReg, Slt, Sltu, DbtEmit.Xor, DbtEmit.Or, DbtEmit.And, Addw, Subw, ShiftReg32;
    hide Sext32, Words.Xor, Words.Or, Words.And;
    match k
    case Add => AddRuns(rd, rs1, rs2, c);
    case Sub => SubRuns(rd, rs1, rs2, c);
    case Sll => ShiftRegRuns(ShlOp, rd, rs1, rs2, c);
    case Slt => SltRuns(rd, rs1, rs2, c);
    case Sltu => SltuRuns(rd, rs1, rs2, c);
    case Xor => XorRuns(rd, rs1, rs2, c);
    case Srl => ShiftRegRuns(ShrOp, rd, rs1, rs2, c);
    case Sra => ShiftRegRuns(SarOp, rd, rs1, rs2, c);
    case Or => OrRuns(rd, rs1, rs2, c);
    case And => AndRuns(rd, rs1, rs2, c);
    case Addw => AddwRuns(rd, rs1, rs2, c);
    case Subw => SubwRuns(rd, rs1, rs2, c);
    case Sllw => ShiftReg32Runs(ShlOp, rd, rs1, rs2, c);
    case Srlw => ShiftReg32Runs(ShrOp, rd, rs1, rs2, c);
    case Sraw => ShiftReg32Runs(SarOp, rd, rs1, rs2, c);
  }

  lemma MultiplyRuns(k: R.RegKind, rd: nat, rs1: nat, rs2: nat, c: Cpu)
    requires Ready(c) && rd < 32 && rs1 < 32 && rs2 < 32
    requires k.Mul? || k.Mulh? || k.Mulhsu? || k.Mulhu? || k.Mulw?
    ensures Sets(Run(EmitReg(k, rd, rs1, rs2), c), c, rd, R.RegValue(k, ReadX(c.hart, rs1), ReadX(c.hart, rs2)))
  {
    hide Run, Sets, Mul, Mulh, Mulhsu, Mulw, High, Sext32, Wrap, Signed, Signed32;
    match k
    case Mul => MulRuns(rd, rs1, rs2, c);
    case Mulh => MulhRuns(rd, rs1, rs2, false, c);
    case Mulhsu => MulhsuRuns(rd, rs1, rs2, c);
    case Mulhu => MulhRuns(rd, rs1, rs2, true, c);
    case Mulw => MulwRuns(rd, rs1, rs2, c);
  }

  lemma DivisionRuns(k: R.RegKind, rd: nat, rs1: nat, rs2: nat, c: Cpu)
    requires Ready(c) && rd < 32 && rs1 < 32 && rs2 < 32
    requires k.Div? || k.Divu? || k.Rem? || k.Remu? || k.Divw? || k.Divuw? || k.Remw? || k.Remuw?
    ensures Sets(Run(EmitReg(k, rd, rs1, rs2), c), c, rd, R.RegValue(k, ReadX(c.hart, rs1), ReadX(c.hart, rs2)))
  {
    hide Run, Sets, DivRem, DivRem32, R.RegValue, Quotient, Remainder;
    var a, b := ReadX(c.hart, rs1), ReadX(c.hart, rs2);
    if k.Div? || k.Divu? || k.Rem? || k.Remu? {
      QuotientIs(a, b);
      DivRemRuns(rd, rs1, rs2, k.Divu? || k.Remu?, k.Rem? || k.Remu?, c);
    } else {
      Quotient32Is(a, b);
      Remainder32Is(a, b);
      DivRem32Runs(rd, rs1, rs2, k.Divuw? || k.Remuw?, k.Remw? || k.Remuw?, c);
    }
  }

  // ----- code inside a block -----

  lemma {:induction false} PlainRuns(env: Env, code: Code, rest: seq<Item>, c: Cpu, junk: Leavings)
    ensures RunBlock(env, Plain(code) + rest, c, junk) == RunBlock(env, rest, Run(code, c), junk)
    decreases |code|
  {
    hide Exec;
    if code == [] {
      assert Plain(code) + rest == rest;
    } else {
      var all := Plain(code) + rest;
      assert all[0] == I(code[0]);
      assert all[1..] == Plain(code[1..]) + rest;
      PlainRuns(env, code[1..], rest, Exec(code[0], c), junk);
    }
  }

  lemma AheadWrite(h: Hart, pc: int, instret: int, rd: nat, v: u64, len: nat)
    ensures Retire(WriteX(Ahead(h, pc, instret), rd, v), len) == Ahead(WriteX(h, rd, v), pc + len, instret + 1)
    ensures Retire(Ahead(h, pc, instret), len) == Ahead(h, pc + len, instret + 1)
    ensures ReadX(Ahead(h, pc, instret), rd) == ReadX(h, rd)
  {
    WrapSum(h.pc, pc, len);
    WrapSum(h.instret, instret, 1);
  }

  lemma WrapSum(a: u64, b: int, d: int)
    ensures Wrap(Wrap(a + b) + d) == Wrap(a + b + d)
    ensures Wrap(Wrap(a + b) + d) == Wrap(a + (b + d))
  {
  }

  /** What running the code of one instruction, then `rest`, amounts to: a trap, control leaving
      the block, or `rest` run on a hart whose pending counters cover the instruction. Where `step`
      traps for an address that is not aligned, the code stands at the entry of the handler. */
  predicate Follows(env: Env, o: Outcome, rest: seq<Item>, junk: Leavings, r: StepResult, c: Cpu, d: Cpu, pc: int, instret: int)
  {
    match r
    case Stop(Trap, g) => o == Stopped(d) && d.hart == g && d.ok
    case Stop(AddressMisaligned(_, addr), g) => o == Misaligned(addr, d) && d.hart == g && d.ok
    case Next(g) =>
      (o == Left(d) && d.hart == g && d.ok)
      || (o == RunBlock(env, rest, d, junk) && Ready(d) && Ahead(d.hart, pc, instret) == g && d.hart.pc == c.hart.pc)
  }

  /** Code that only writes a guest register. */
  lemma WriteFollows(env: Env, code: Code, rest: seq<Item>, c: Cpu, junk: Leavings, pc: int, instret: int, rd: nat, v: u64, len: nat)
    requires Ready(c) && Sets(Run(code, c), c, rd, v)
    ensures Follows(env, RunBlock(env, Plain(code) + rest, c, junk), rest, junk,
                    Next(Retire(WriteX(Ahead(c.hart, pc, instret), rd, v), len)), c, Run(code, c), pc + len, instret + 1)
  {
    hide Run, RunBlock, Plain;
    PlainRuns(env, code, rest, c, junk);
    AheadWrite(c.hart, pc, instret, rd, v, len);
    hide Retire, Ahead;
  }

  lemma AddToRuns(l: Loc, v: int, c: Cpu)
    requires l == Pc || l == Instret
    ensures Run(AddTo(l, v), c).hart ==
      (if l == Pc then c.hart.(pc := Wrap(c.hart.pc + v)) else c.hart.(instret := Wrap(c.hart.instret + v)))
    ensures Run(AddTo(l, v), c).ok == c.ok
    ensures Run(AddTo(l, v), c).rax == c.rax
  {
    hide AluResult, Wrap;
    AluImm(c.hart.pc, v);
    AluImm(c.hart.instret, v);
    if v == 0 {
      assert Run([], c) == c;
    } else {
      Run1(Alu(AddOp, l, Signext(v)), c);
    }
  }

  lemma CountersRun(pc: int, instret: int, c: Cpu)
    ensures var d := Run(AddTo(Pc, pc) + AddTo(Instret, instret), c);
      d.hart == Ahead(c.hart, pc, instret) && d.ok == c.ok
  {
    hide Run, AddTo, Wrap;
    RunAppend(AddTo(Pc, pc), AddTo(Instret, instret), c);
    AddToRuns(Pc, pc, c);
    AddToRuns(Instret, instret, Run(AddTo(Pc, pc), c));
  }

  // ----- loads and stores -----

  lemma AddressRuns(rs1: nat, imm: int, c: Cpu)
    requires Ready(c) && rs1 < 32
    ensures var d := Run(AddressCode(rs1, imm), c);
      d.hart == c.hart && d.ok && d.rsi == Wrap(ReadX(c.hart, rs1) + imm)
  {
    hide Run, AluResult, Wrap;
    AluImm(ReadX(c.hart, rs1), imm);
    var mov := Mov(Rsi, L(Xr(rs1)));
    if imm == 0 {
      assert AddressCode(rs1, imm) == [mov];
      Run1(mov, c);
    } else {
      assert AddressCode(rs1, imm) == [mov, Alu(AddOp, Rsi, Signext(imm))];
      Run2(mov, Alu(AddOp, Rsi, Signext(imm)), c);
    }
  }

  lemma First(env: Env, i: Item, rest: seq<Item>, c: Cpu, junk: Leavings)
    ensures ([i] + rest)[0] == i && ([i] + rest)[1..] == rest && [i] + rest != []
  {
  }

  lemma AccessRuns(env: Env, width: Width, write: bool, ebx: nat, rest: seq<Item>, c: Cpu, junk: Leavings)
    ensures RunBlock(env, [Access(width, write, ebx)] + rest, c, junk) ==
      if c.rsi % Bytes(width) != 0 then EnterHandler(c, ebx)
      else
        var r := DoAccess(env, c, width, write, junk(|rest|));
        if r.1 then RunBlock(env, rest, r.0, junk) else Trapped(r, ebx)
  {
    hide Exec, DoAccess, EnterHandler, Trapped;
    First(env, Access(width, write, ebx), rest, c, junk);
  }

  lemma LoadMemRuns(env: Env, width: Width, signed: bool, rest: seq<Item>, c: Cpu, junk: Leavings)
    ensures RunBlock(env, [LoadMem(width, signed)] + rest, c, junk) ==
      RunBlock(env, rest, c.(rax := Extend(env.load(c.hart.world, c.rsi, width), width, signed)), junk)
  {
    hide Exec, Extend;
    First(env, LoadMem(width, signed), rest, c, junk);
  }

  lemma StoreMemRuns(env: Env, width: Width, rest: seq<Item>, c: Cpu, junk: Leavings)
    ensures RunBlock(env, [StoreMem(width)] + rest, c, junk) ==
      RunBlock(env, rest, c.(hart := c.hart.(world := env.store(c.hart.world, c.rsi, width, Narrow(c.rdx, width)))), junk)
  {
    hide Exec, Narrow;
    First(env, StoreMem(width), rest, c, junk);
  }

  lemma EmptyFalls(env: Env, d: Cpu, junk: Leavings)
    ensures RunBlock(env, [], d, junk) == Fell(d)
  {
  }

  lemma LeaveRuns(env: Env, rest: seq<Item>, c: Cpu, junk: Leavings)
    ensures RunBlock(env, [Leave] + rest, c, junk) == Left(c)
  {
    First(env, Leave, rest, c, junk);
  }

  predicate InRange(pc: int, instret: int) {
    -0x8000 <= pc < 0x8000 && -0x8000 <= instret < 0x8000
  }

  lemma LoadRuns(env: Env, op: Op, len: nat, rest: seq<Item>, c: Cpu, junk: Leavings, pc: int, instret: int) returns (d: Cpu)
    requires Ready(c) && op.Load? && ValidOp(op) && InRange(pc, instret)
    ensures Follows(env, RunBlock(env, EmitOp(op, len, pc, instret) + rest, c, junk), rest, junk,
                    Step(env, Ahead(c.hart, pc, instret), op, len), c, d, pc + len, instret + 1)
  {
    hide RunBlock, Run, Plain, AddressCode, StoreReg, Extend, Unwind, GetEbx, Retire, Bytes, Wrap;
    var ebx := GetEbx(pc, instret);
    var address, store := AddressCode(op.rs1, op.imm), StoreReg(op.rd, RAX, Qword);
    var tail := [LoadMem(op.width, op.signed)] + (Plain(store) + rest);
    assert EmitOp(op, len, pc, instret) + rest == Plain(address) + ([Access(op.width, false, ebx)] + tail);
    PlainRuns(env, address, [Access(op.width, false, ebx)] + tail, c, junk);
    AddressRuns(op.rs1, op.imm, c);
    var c1 := Run(address, c);
    AccessRuns(env, op.width, false, ebx, tail, c1, junk);
    var r := DoAccess(env, c1, op.width, false, junk(|tail|));
    UnwindExact(c.hart, pc, instret);
    UnwindExact(r.0.hart, pc, instret);
    if c1.rsi % Bytes(op.width) != 0 {
      d := c1.(hart := Unwind(c1.hart, ebx));
    } else if !r.1 {
      d := r.0.(hart := Unwind(r.0.hart, ebx));
    } else {
      LoadMemRuns(env, op.width, op.signed, Plain(store) + rest, r.0, junk);
      var v := Extend(env.load(r.0.hart.world, r.0.rsi, op.width), op.width, op.signed);
      var c2 := r.0.(rax := v);
      PlainRuns(env, store, rest, c2, junk);
      StoreRegRuns(op.rd, RAX, Qword, c2);
      d := Run(store, c2);
      AheadWrite(c2.hart, pc, instret, op.rd, v, len);
    }
  }

  /** The narrow move into RDX keeps the bytes that are stored. */
  lemma StoreValue(w: Width, rs2: nat, c: Cpu)
    requires |c.hart.x| == 32 && rs2 < 32
    ensures var d := Exec(Mov(Reg(RDX, SizeFor(w)), L(X(rs2, SizeFor(w)))), c);
      d.hart == c.hart && d.ok == c.ok && d.rsi == c.rsi && Narrow(d.rdx, w) == Narrow(ReadX(c.hart, rs2), w)
  {
    hide Narrow, Merge, Lower;
    NarrowMerge(c.rdx, ReadX(c.hart, rs2), w);
  }

  lemma NarrowMerge(prev: u64, v: u64, w: Width)
    ensures var s := SizeFor(w);
      Narrow(if s == Byte || s == Word then Merge(prev, Lower(v, s), s) else Lower(Lower(v, s), s), w) == Narrow(v, w)
  {
    MergeByte(prev, v);
    MergeWord(prev, v);
    Halved(v);
    hide Merge;
    match w
    case W8 =>
    case W16 =>
    case W32 =>
    case W64 =>
  }

  lemma MergeWord(p: u64, v: u64)
    ensures Merge(p, v % 0x1_0000, Word) % 0x1_0000 == v % 0x1_0000
  {
  }

  lemma InstrRuns(env: Env, i: Instr, rest: seq<Item>, c: Cpu, junk: Leavings)
    ensures RunBlock(env, [I(i)] + rest, c, junk) == RunBlock(env, rest, Exec(i, c), junk)
  {
    hide Exec;
    First(env, I(i), rest, c, junk);
  }

  lemma StoreRuns(env: Env, op: Op, len: nat, rest: seq<Item>, c: Cpu, junk: Leavings, pc: int, instret: int) returns (d: Cpu)
    requires Ready(c) && op.Store? && ValidOp(op) && InRange(pc, instret)
    ensures Follows(env, RunBlock(env, EmitOp(op, len, pc, instret) + rest, c, junk), rest, junk,
                    Step(env, Ahead(c.hart, pc, instret), op, len), c, d, pc + len, instret + 1)
  {
    hide RunBlock, Run, Plain, AddressCode, Exec, Narrow, Unwind, GetEbx, Retire, Bytes, Wrap;
    var ebx := GetEbx(pc, instret);
    var address := AddressCode(op.rs1, op.imm);
    var mov := Mov(Reg(RDX, SizeFor(op.width)), L(X(op.rs2, SizeFor(op.width))));
    var tail := [I(mov)] + ([StoreMem(op.width)] + rest);
    assert EmitOp(op, len, pc, instret) + rest == Plain(address) + ([Access(op.width, true, ebx)] + tail);
    PlainRuns(env, address, [Access(op.width, true, ebx)] + tail, c, junk);
    AddressRuns(op.rs1, op.imm, c);
    var c1 := Run(address, c);
    AccessRuns(env, op.width, true, ebx, tail, c1, junk);
    var r := DoAccess(env, c1, op.width, true, junk(|tail|));
    UnwindExact(c.hart, pc, instret);
    UnwindExact(r.0.hart, pc, instret);
    if c1.rsi % Bytes(op.width) != 0 {
      d := c1.(hart := Unwind(c1.hart, ebx));
    } else if !r.1 {
      d := r.0.(hart := Unwind(r.0.hart, ebx));
    } else {
      InstrRuns(env, mov, [StoreMem(op.width)] + rest, r.0, junk);
      StoreValue(op.width, op.rs2, r.0);
      var c2 := Exec(mov, r.0);
      StoreMemRuns(env, op.width, rest, c2, junk);
      d := c2.(hart := c2.hart.(world := env.store(c2.hart.world, c2.rsi, op.width, Narrow(c2.rdx, op.width))));
      AheadWrite(d.hart, pc, instret, 0, 0, len);
    }
  }

  // ----- calls into the interpreter -----

  /** Giving a hart `k` with the counters of `h` those of the harts ahead of `h` brings it ahead. */
  lemma BlindAhead(h: Hart, k: Hart, pc: int, instret: int, len: nat)
    ensures SetCounters(h, h.pc, h.instret) == h
    ensures var g, g' := Ahead(h, pc, instret), Ahead(h, pc + len, instret + 1);
      && g.x == h.x && SetCounters(h, g'.pc, g'.instret) == g'
      && (SetCounters(k, h.pc, h.instret) == k ==>
            && k.pc == h.pc && SetCounters(k, g'.pc, g'.instret) == Ahead(k, pc + len, instret + 1)
            && SetCounters(SetCounters(k, g'.pc, g'.instret), g.pc, g.instret) == Ahead(k, pc, instret))
  {
  }

  lemma HelperRuns(env: Env, n: nat, len: nat, rest: seq<Item>, c: Cpu, junk: Leavings, pc: int, instret: int) returns (d: Cpu)
    requires Ready(c) && InRange(pc, instret) && Sound(env) && Blind(env, n)
    ensures Follows(env, RunBlock(env, EmitOp(Helper(n), len, pc, instret) + rest, c, junk), rest, junk,
                    Step(env, Ahead(c.hart, pc, instret), Helper(n), len), c, d, pc + len, instret + 1)
  {
    hide RunBlock, Unwind, GetEbx, Retire, Wrap, Ahead, SetCounters;
    var ebx := GetEbx(pc, instret);
    CallRuns(env, n, ebx, rest, c, junk);
    var r := DoCall(env, c, n, junk(|rest|));
    UnwindExact(r.0.hart, pc, instret);
    AheadWrite(c.hart, pc, instret, 0, 0, len);
    BlindAhead(c.hart, r.0.hart, pc, instret, len);
    d := if r.1 then r.0.(hart := Unwind(r.0.hart, ebx)) else r.0;
  }

  lemma CallRuns(env: Env, n: nat, ebx: nat, rest: seq<Item>, c: Cpu, junk: Leavings)
    ensures RunBlock(env, [Call(n, ebx)] + rest, c, junk) ==
      var r := DoCall(env, c, n, junk(|rest|));
      if r.1 then Trapped(r, ebx) else RunBlock(env, rest, r.0, junk)
  {
    hide Exec, DoCall, Trapped;
    First(env, Call(n, ebx), rest, c, junk);
  }

  lemma CallReadRuns(env: Env, n: nat, ebx: nat, rest: seq<Item>, c: Cpu, junk: Leavings)
    ensures RunBlock(env, [CallRead(n, ebx)] + rest, c, junk) ==
      var r := DoRead(env, c, n, junk(|rest|));
      if r.1 then Trapped(r, ebx) else RunBlock(env, rest, r.0, junk)
  {
    hide Exec, DoRead, Trapped;
    First(env, CallRead(n, ebx), rest, c, junk);
  }

  lemma CallWriteRuns(env: Env, n: nat, ebx: nat, rest: seq<Item>, c: Cpu, junk: Leavings)
    ensures RunBlock(env, [CallWrite(n, ebx)] + rest, c, junk) ==
      var r := DoWrite(env, c, n, junk(|rest|));
      if r.1 then Trapped(r, ebx) else RunBlock(env, rest, r.0, junk)
  {
    hide Exec, DoWrite, Trapped;
    First(env, CallWrite(n, ebx), rest, c, junk);
  }


  lemma ReadCsrRuns(env: Env, op: Op, len: nat, rest: seq<Item>, c: Cpu, junk: Leavings, pc: int, instret: int) returns (d: Cpu)
    requires Ready(c) && op.ReadCsr? && ValidOp(op) && InRange(pc, instret) && Sound(env) && BlindRead(env, op.n)
    ensures Follows(env, RunBlock(env, EmitOp(op, len, pc, instret) + rest, c, junk), rest, junk,
                    Step(env, Ahead(c.hart, pc, instret), op, len), c, d, pc + len, instret + 1)
  {
    hide RunBlock, Run, Plain, StoreReg, Unwind, GetEbx, Retire, Wrap;
    var ebx, store := GetEbx(pc, instret), StoreReg(op.rd, RDX, Qword);
    assert EmitOp(op, len, pc, instret) + rest == [CallRead(op.n, ebx)] + (Plain(store) + rest);
    CallReadRuns(env, op.n, ebx, Plain(store) + rest, c, junk);
    var r := DoRead(env, c, op.n, junk(|Plain(store) + rest|));
    UnwindExact(r.0.hart, pc, instret);
    AheadWrite(c.hart, pc, instret, 0, 0, len);
    BlindAhead(c.hart, r.0.hart, pc, instret, len);
    if r.1 {
      d := r.0.(hart := Unwind(r.0.hart, ebx));
    } else {
      PlainRuns(env, store, rest, r.0, junk);
      StoreRegRuns(op.rd, RDX, Qword, r.0);
      d := Run(store, r.0);
    }
  }

  /** The value goes to RDX from a register, or as a constant. */
  lemma WriteCsrRuns(env: Env, op: Op, len: nat, rest: seq<Item>, c: Cpu, junk: Leavings, pc: int, instret: int) returns (d: Cpu)
    requires Ready(c) && (op.WriteCsr? || op.WriteCsrImm?) && ValidOp(op) && InRange(pc, instret) && Sound(env) && BlindWrite(env, op.n)
    ensures Follows(env, RunBlock(env, EmitOp(op, len, pc, instret) + rest, c, junk), rest, junk,
                    Step(env, Ahead(c.hart, pc, instret), op, len), c, d, pc + len, instret + 1)
  {
    hide RunBlock, Run, Exec, Plain, LoadReg, Unwind, GetEbx, Retire, Wrap, Ahead, SetCounters;
    var ebx := GetEbx(pc, instret);
    var load := if op.WriteCsr? then LoadReg(RDX, Qword, op.rs1) else Mov(Rdx, Signext(op.imm));
    ToRdx(op, c);
    assert EmitOp(op, len, pc, instret) + rest == Plain([load]) + ([CallWrite(op.n, ebx)] + rest);
    PlainRuns(env, [load], [CallWrite(op.n, ebx)] + rest, c, junk);
    Run1(load, c);
    var c1 := Exec(load, c);
    CallWriteRuns(env, op.n, ebx, rest, c1, junk);
    var r := DoWrite(env, c1, op.n, junk(|rest|));
    UnwindExact(r.0.hart, pc, instret);
    AheadWrite(c.hart, pc, instret, 0, 0, len);
    BlindAhead(c.hart, r.0.hart, pc, instret, len);
    d := if r.1 then r.0.(hart := Unwind(r.0.hart, ebx)) else r.0;
  }

  lemma ToRdx(op: Op, c: Cpu)
    requires Ready(c) && (op.WriteCsr? || op.WriteCsrImm?) && ValidOp(op)
    ensures var load := if op.WriteCsr? then LoadReg(RDX, Qword, op.rs1) else Mov(Rdx, Signext(op.imm));
      var d := Exec(load, c);
      d.hart == c.hart && d.ok && d.rdx == if op.WriteCsr? then ReadX(c.hart, op.rs1) else Wrap(op.imm)
  {
    hide Wrap, AluResult;
    if op.WriteCsr? {
      LoadRegRuns(RDX, Qword, op.rs1, c);
    }
  }

  lemma AheadUndone(h: Hart, pc: int, instret: int, len: nat)
    ensures Ahead(Ahead(h, pc + len, instret + 1), 0 - len, -1) == Ahead(h, pc, instret)
  {
    WrapSum(h.pc, pc + len, 0 - len);
    WrapSum(h.instret, instret + 1, -1);
  }

  lemma CallSystemRuns(env: Env, n: nat, ebx: nat, rest: seq<Item>, c: Cpu, junk: Leavings)
    ensures RunBlock(env, [CallSystem(n, ebx)] + ([Leave] + rest), c, junk) ==
      var r := DoSystem(env, c, n, junk(|rest| + 1));
      if r.1 then Trapped(r, ebx) else Left(r.0)
  {
    hide Exec, DoSystem, Trapped;
    First(env, CallSystem(n, ebx), [Leave] + rest, c, junk);
    LeaveRuns(env, rest, DoSystem(env, c, n, junk(|rest| + 1)).0, junk);
  }

  /** The counters are brought past the instruction first; a trap takes them back. */
  lemma SystemRuns(env: Env, n: nat, len: nat, rest: seq<Item>, c: Cpu, junk: Leavings, pc: int, instret: int) returns (d: Cpu)
    requires Ready(c) && len <= 4 && Sound(env)
    ensures Follows(env, RunBlock(env, EmitOp(System(n), len, pc, instret) + rest, c, junk), rest, junk,
                    Step(env, Ahead(c.hart, pc, instret), System(n), len), c, d, pc + len, instret + 1)
  {
    hide Exec, Run, RunBlock, Plain, Unwind, GetEbx, Wrap, Ahead;
    var code := AddTo(Pc, pc + len) + AddTo(Instret, instret + 1);
    hide AddTo;
    var ebx := GetEbx(0 - len, -1);
    var tail := [CallSystem(n, ebx)] + ([Leave] + rest);
    assert EmitOp(System(n), len, pc, instret) + rest == Plain(code) + tail;
    PlainRuns(env, code, tail, c, junk);
    CountersRun(pc + len, instret + 1, c);
    var c1 := Run(code, c);
    AheadWrite(c.hart, pc, instret, 0, 0, len);
    CallSystemRuns(env, n, ebx, rest, c1, junk);
    var r := DoSystem(env, c1, n, junk(|rest| + 1));
    UnwindExact(r.0.hart, 0 - len, -1);
    AheadUndone(c.hart, pc, instret, len);
    TakenBack(c1.hart, r.0.hart, 0 - len, -1);
    d := if r.1 then r.0.(hart := Unwind(r.0.hart, ebx)) else r.0;
  }

  lemma TakenBack(h: Hart, k: Hart, pc: int, instret: int)
    ensures var g := Ahead(h, pc, instret);
      k.pc == h.pc && k.instret == h.instret ==> SetCounters(k, g.pc, g.instret) == Ahead(k, pc, instret)
  {
  }

  // ----- branches and jumps -----

  lemma SwapMeans(k: BranchKind, a: u64, b: u64)
    ensures Relation(CondOf(k), a, b) == Taken(k, a, b)
    ensures Relation(Swap(CondOf(k)), b, a) == Taken(k, a, b)
  {
  }

  lemma NegateMeans(cc: Cond, f: Flags)
    requires f.Known?
    ensures Holds(Negate(cc), f) == !Holds(cc, f)
  {
  }

  /** The comparison leaves flags on which the chosen condition says whether the branch is taken. */
  lemma CompareRuns(k: BranchKind, rs1: nat, rs2: nat, c: Cpu)
    requires Ready(c) && rs1 < 32 && rs2 < 32
    ensures var d := Run(CompareCode(rs1, rs2), c);
      d.hart == c.hart && d.ok && d.flags.Known?
      && Holds(CompareCond(k, rs1, rs2), d.flags) == Taken(k, ReadX(c.hart, rs1), ReadX(c.hart, rs2))
  {
    hide Run, Compare, Holds, Relation, Taken, Swap, CondOf;
    var a, b := ReadX(c.hart, rs1), ReadX(c.hart, rs2);
    SwapMeans(k, a, b);
    if rs2 == 0 {
      CompareHolds(CondOf(k), a, 0);
      Run1(Cmp(Xr(rs1), Imm(0)), c);
    } else if rs1 == 0 {
      CompareHolds(Swap(CondOf(k)), b, 0);
      Run1(Cmp(Xr(rs2), Imm(0)), c);
    } else {
      CompareHolds(CondOf(k), a, b);
      Run2(Mov(Rdx, L(Xr(rs1))), Cmp(Rdx, L(Xr(rs2))), c);
    }
  }

  /** A conditional jump over `body`. */
  lemma JccRuns(env: Env, cc: Cond, body: seq<Item>, rest: seq<Item>, c: Cpu, junk: Leavings)
    requires c.flags.Known?
    ensures RunBlock(env, [Jcc(cc, |body|)] + (body + rest), c, junk) ==
      if Holds(cc, c.flags) then RunBlock(env, rest, c, junk) else RunBlock(env, body + rest, c, junk)
  {
    hide Exec, Holds;
    First(env, Jcc(cc, |body|), body + rest, c, junk);
    assert (body + rest)[|body|..] == rest;
  }

  lemma TakenRuns(pc: int, imm: int, instret: int, c: Cpu)
    ensures var d := Run([Alu(AddOp, Pc, Signext(pc + imm))] + AddTo(Instret, instret + 1), c);
      d.hart == Ahead(c.hart, pc + imm, instret + 1) && d.ok == c.ok
  {
    hide Run, AddTo, Wrap, AluResult;
    AluImm(c.hart.pc, pc + imm);
    var add := Alu(AddOp, Pc, Signext(pc + imm));
    RunAppend([add], AddTo(Instret, instret + 1), c);
    Run1(add, c);
    AddToRuns(Instret, instret + 1, Exec(add, c));
  }

  lemma AheadJump(h: Hart, pc: int, instret: int, imm: int)
    ensures JumpTo(Ahead(h, pc, instret), Wrap(Ahead(h, pc, instret).pc + imm)) == Ahead(h, pc + imm, instret + 1)
  {
    WrapSum(h.pc, pc, imm);
    WrapSum(h.instret, instret, 1);
  }

  lemma BranchRuns(env: Env, op: Op, len: nat, rest: seq<Item>, c: Cpu, junk: Leavings, pc: int, instret: int) returns (d: Cpu)
    requires Ready(c) && op.Branch? && ValidOp(op)
    ensures Follows(env, RunBlock(env, EmitOp(op, len, pc, instret) + rest, c, junk), rest, junk,
                    Step(env, Ahead(c.hart, pc, instret), op, len), c, d, pc + len, instret + 1)
  {
    hide RunBlock, Run, Plain, Exec, Taken, CompareCode, CompareCond, Negate, Holds, Wrap, Retire, JumpTo;
    var jump := [Alu(AddOp, Pc, Signext(pc + op.imm))] + AddTo(Instret, instret + 1);
    var compare := CompareCode(op.rs1, op.rs2);
    var cc := CompareCond(op.bk, op.rs1, op.rs2);
    var body := Plain(jump) + [Leave];
    assert EmitOp(op, len, pc, instret) + rest == Plain(compare) + ([Jcc(Negate(cc), |body|)] + (body + rest));
    PlainRuns(env, compare, [Jcc(Negate(cc), |body|)] + (body + rest), c, junk);
    CompareRuns(op.bk, op.rs1, op.rs2, c);
    var c1 := Run(compare, c);
    NegateMeans(cc, c1.flags);
    JccRuns(env, Negate(cc), body, rest, c1, junk);
    AheadWrite(c.hart, pc, instret, 0, 0, len);
    if Holds(cc, c1.flags) {
      assert body + rest == Plain(jump) + ([Leave] + rest);
      PlainRuns(env, jump, [Leave] + rest, c1, junk);
      TakenRuns(pc, op.imm, instret, c1);
      d := Run(jump, c1);
      LeaveRuns(env, rest, d, junk);
      AheadJump(c.hart, pc, instret, op.imm);
    } else {
      d := c1;
    }
  }

  lemma LinkRuns(rd: nat, v: int, rest: Code, c: Cpu)
    requires Ready(c) && 0 < rd < 32
    ensures var d := Run([Mov(Rax, L(Pc)), Lea(RDX, RAX, Wrap(v))] + StoreReg(rd, RDX, Qword), c);
      d.hart == WriteX(c.hart, rd, Wrap(c.hart.pc + v)) && d.ok && d.rax == c.hart.pc
  {
    hide Run, Wrap;
    LinkSum(c.hart.pc, v);
    var i, j := Mov(Rax, L(Pc)), Lea(RDX, RAX, Wrap(v));
    var store := Mov(Xr(rd), L(Reg(RDX, Qword)));
    assert [i, j] + StoreReg(rd, RDX, Qword) == [i, j, store];
    Run3(i, j, store, c);
  }

  lemma LinkSum(a: u64, v: int)
    ensures Wrap(a + Wrap(v)) == Wrap(a + v)
  {
  }

  lemma JalCodeRuns(rd: nat, imm: int, pc: int, len: nat, instret: int, c: Cpu)
    requires Ready(c) && rd < 32
    ensures var d := Run(JalCode(rd, imm, pc, len, instret), c);
      d.ok && d.hart == Ahead(WriteX(c.hart, rd, Wrap(c.hart.pc + (pc + len))), pc + imm, instret + 1)
  {
    hide Run, Wrap, AddTo, AluResult;
    var count := AddTo(Instret, instret + 1);
    AddToRuns(Instret, instret + 1, c);
    var c1 := Run(count, c);
    AluImm(c.hart.pc, pc + imm);
    assert imm - len + (pc + len) == pc + imm;
    if rd == 0 {
      RunAppend(count, [Alu(AddOp, Pc, Signext(pc + imm))], c);
      Run1(Alu(AddOp, Pc, Signext(pc + imm)), c1);
    } else {
      var link := [Mov(Rax, L(Pc)), Lea(RDX, RAX, Wrap(pc + len))] + StoreReg(rd, RDX, Qword);
      var jump := [Alu(AddOp, Rax, Signext(pc + imm)), Mov(Pc, L(Rax))];
      assert JalCode(rd, imm, pc, len, instret) == count + (link + jump);
      RunAppend(count, link + jump, c);
      RunAppend(link, jump, c1);
      LinkRuns(rd, pc + len, jump, c1);
      hide StoreReg;
      Run2(Alu(AddOp, Rax, Signext(pc + imm)), Mov(Pc, L(Rax)), Run(link, c1));
    }
  }

  lemma JalRuns(env: Env, op: Op, len: nat, rest: seq<Item>, c: Cpu, junk: Leavings, pc: int, instret: int) returns (d: Cpu)
    requires Ready(c) && op.Jal? && ValidOp(op)
    ensures Follows(env, RunBlock(env, EmitOp(op, len, pc, instret) + rest, c, junk), rest, junk,
                    Step(env, Ahead(c.hart, pc, instret), op, len), c, d, pc + len, instret + 1)
  {
    hide RunBlock, Run, Plain, JalCode, Wrap;
    var code := JalCode(op.rd, op.imm, pc, len, instret);
    assert EmitOp(op, len, pc, instret) + rest == Plain(code) + ([Leave] + rest);
    PlainRuns(env, code, [Leave] + rest, c, junk);
    JalCodeRuns(op.rd, op.imm, pc, len, instret, c);
    d := Run(code, c);
    LeaveRuns(env, rest, d, junk);
    AheadJump(c.hart, pc, instret, op.imm);
    WrapSum(c.hart.pc, pc, len);
  }

  lemma TargetRuns(rs1: nat, imm: int, c: Cpu)
    requires Ready(c) && rs1 < 32
    ensures var t := Wrap(ReadX(c.hart, rs1) + imm);
      var d := Run([LoadReg(RAX, Qword, rs1)] + (if imm == 0 then [] else [Alu(AddOp, Rax, Signext(imm))])
                   + [Alu(AndOp, Rax, Signext(-2))], c);
      d.hart == c.hart && d.ok && d.rax == t - t % 2
  {
    hide Run, Wrap, AluResult, LoadReg;
    var a := ReadX(c.hart, rs1);
    var t := Wrap(a + imm);
    LoadRegRuns(RAX, Qword, rs1, c);
    AluImm(a, imm);
    AluEven(t);
    var load, mask := LoadReg(RAX, Qword, rs1), Alu(AndOp, Rax, Signext(-2));
    if imm == 0 {
      assert [load] + [] + [mask] == [load, mask];
      Run2(load, mask, c);
    } else {
      var add := Alu(AddOp, Rax, Signext(imm));
      assert [load] + [add] + [mask] == [load, add, mask];
      Run3(load, add, mask, c);
    }
  }

  lemma AluEven(t: u64)
    ensures AluResult(AndOp, t, Wrap(-2), Qword) == t - t % 2
  {
    AndEven(t);
  }

  lemma JalrTailRuns(rd: nat, pc: int, len: nat, c: Cpu)
    requires Ready(c) && rd < 32
    ensures var d := Run(JalrTail(rd, pc, len), c);
      d.ok && d.hart == WriteX(c.hart, rd, Wrap(c.hart.pc + (pc + len))).(pc := c.rax)
  {
    hide Run, Wrap, AluResult;
    AluImm(c.hart.pc, pc + len);
    var jump := Mov(Pc, L(Rax));
    if rd == 0 {
      assert [] + [jump] == [jump];
      Run1(jump, c);
    } else {
      var i, j, k := Mov(Rdx, L(Pc)), Alu(AddOp, Rdx, Signext(pc + len)), Mov(Xr(rd), L(Rdx));
      assert [i, j, k] + [jump] == [i, j, k, jump];
      Run4(i, j, k, jump, c);
    }
  }

  lemma JalrRuns(env: Env, op: Op, len: nat, rest: seq<Item>, c: Cpu, junk: Leavings, pc: int, instret: int) returns (d: Cpu)
    requires Ready(c) && op.Jalr? && ValidOp(op)
    ensures Follows(env, RunBlock(env, EmitOp(op, len, pc, instret) + rest, c, junk), rest, junk,
                    Step(env, Ahead(c.hart, pc, instret), op, len), c, d, pc + len, instret + 1)
  {
    hide RunBlock, Run, Plain, Wrap, AddTo, LoadReg, JalrTail, Exec;
    var count := AddTo(Instret, instret + 1);
    var aim := [LoadReg(RAX, Qword, op.rs1)] + (if op.imm == 0 then [] else [Alu(AddOp, Rax, Signext(op.imm))])
               + [Alu(AndOp, Rax, Signext(-2))];
    var tail := JalrTail(op.rd, pc, len);
    var code := JalrCode(op.rd, op.rs1, op.imm, pc, len, instret);
    assert code == count + (aim + tail);
    assert EmitOp(op, len, pc, instret) + rest == Plain(code) + ([Leave] + rest);
    PlainRuns(env, code, [Leave] + rest, c, junk);
    RunAppend(count, aim + tail, c);
    AddToRuns(Instret, instret + 1, c);
    var c1 := Run(count, c);
    RunAppend(aim, tail, c1);
    TargetRuns(op.rs1, op.imm, c1);
    var c2 := Run(aim, c1);
    JalrTailRuns(op.rd, pc, len, c2);
    d := Run(code, c);
    LeaveRuns(env, rest, d, junk);
    WrapSum(c.hart.pc, pc, len);
    WrapSum(c.hart.instret, instret, 1);
  }

  lemma AuipcRuns(rd: nat, imm: int, pc: int, c: Cpu)
    requires Ready(c) && rd < 32
    ensures Sets(Run([Mov(Rax, L(Pc)), Alu(AddOp, Rax, Signext(imm + pc))] + StoreReg(rd, RAX, Qword), c), c, rd,
                 Wrap(c.hart.pc + (imm + pc)))
  {
    hide Run, Wrap, AluResult;
    AluImm(c.hart.pc, imm + pc);
    StoreAfter2(Mov(Rax, L(Pc)), Alu(AddOp, Rax, Signext(imm + pc)), rd, RAX, Qword, c, Wrap(c.hart.pc + (imm + pc)));
  }

  lemma WritingRuns(env: Env, op: Op, len: nat, rest: seq<Item>, c: Cpu, junk: Leavings, pc: int, instret: int) returns (d: Cpu)
    requires Ready(c) && ValidOp(op)
    requires op.OpImm? || op.OpReg? || op.Lui? || op.Auipc? || op.Fence?
    ensures Follows(env, RunBlock(env, EmitOp(op, len, pc, instret) + rest, c, junk), rest, junk,
                    Step(env, Ahead(c.hart, pc, instret), op, len), c, d, pc + len, instret + 1)
  {
    hide RunBlock, Run, Exec, Sets, Plain, EmitImm, EmitReg, LoadImm, StoreReg, R.ImmValue, R.RegValue, Wrap, Retire, WriteX, Follows;
    var g := Ahead(c.hart, pc, instret);
    match op
    case OpImm(k, rd, rs1, imm) =>
      ImmRuns(k, rd, rs1, imm, c);
      AheadWrite(c.hart, pc, instret, rs1, 0, len);
      var v := R.ImmValue(k, ReadX(c.hart, rs1), imm);
      WriteFollows(env, EmitImm(k, rd, rs1, imm), rest, c, junk, pc, instret, rd, v, len);
      d := Run(EmitImm(k, rd, rs1, imm), c);
    case OpReg(k, rd, rs1, rs2) =>
      RegRuns(k, rd, rs1, rs2, c);
      AheadWrite(c.hart, pc, instret, rs1, 0, len);
      AheadWrite(c.hart, pc, instret, rs2, 0, len);
      var v := R.RegValue(k, ReadX(c.hart, rs1), ReadX(c.hart, rs2));
      WriteFollows(env, EmitReg(k, rd, rs1, rs2), rest, c, junk, pc, instret, rd, v, len);
      d := Run(EmitReg(k, rd, rs1, rs2), c);
    case Lui(rd, imm) =>
      LoadImmRuns(rd, imm, c);
      WriteFollows(env, LoadImm(rd, imm), rest, c, junk, pc, instret, rd, Wrap(imm), len);
      d := Run(LoadImm(rd, imm), c);
    case Auipc(rd, imm) =>
      var code := [Mov(Rax, L(Pc)), Alu(AddOp, Rax, Signext(imm + pc))] + StoreReg(rd, RAX, Qword);
      AuipcRuns(rd, imm, pc, c);
      WrapSum(c.hart.pc, pc, imm);
      WriteFollows(env, code, rest, c, junk, pc, instret, rd, Wrap(c.hart.pc + (imm + pc)), len);
      d := Run(code, c);
    case Fence =>
      d := FenceRuns(env, len, rest, c, junk, pc, instret);
  }

  lemma FenceRuns(env: Env, len: nat, rest: seq<Item>, c: Cpu, junk: Leavings, pc: int, instret: int) returns (d: Cpu)
    requires Ready(c)
    ensures Follows(env, RunBlock(env, EmitOp(Fence, len, pc, instret) + rest, c, junk), rest, junk,
                    Step(env, Ahead(c.hart, pc, instret), Fence, len), c, d, pc + len, instret + 1)
  {
    hide RunBlock, Retire;
    AheadWrite(c.hart, pc, instret, 0, 0, len);
    assert EmitOp(Fence, len, pc, instret) + rest == rest;
    d := c;
  }
}
