/** Exactly which instructions translated code runs as the interpreter would. */
module DbtExact {
  import opened Wrappers
  import opened Words
  import opened Guest
  import opened X86
  import opened DbtEmit
  import opened DbtOps
  import opened DbtBlock
  import opened DbtStep
  import opened DbtOp
  import opened RiscvStep
  import opened Misalign

  /** Running the code of the instruction, and the handler if it is entered, does what `step` does. */
  predicate Covers(env: Env, op: Op, len: nat, c: Cpu, junk: Leavings, pc: int, instret: int, d: Cpu)
    requires ValidOp(op)
  {
    var o, r := RunBlock(env, EmitOp(op, len, pc, instret), c, junk), Step(env, Ahead(c.hart, pc, instret), op, len);
    if o.Misaligned? then HandleMisalign(env, o.c.hart, o.addr) == r
    else Follows(env, o, [], junk, r, c, d, pc + len, instret + 1)
  }

  ghost predicate Translated(env: Env, op: Op, len: nat, c: Cpu, junk: Leavings, pc: int, instret: int)
    requires ValidOp(op)
  {
    exists d: Cpu :: Covers(env, op, len, c, junk, pc, instret, d)
  }

  lemma AheadAligned(h: Hart, op: Op, pc: int, instret: int)
    ensures Aligned(Ahead(h, pc, instret), op) == Aligned(h, op)
  {
    hide Wrap;
  }

  /** The code of any instruction that may lag behind, from any context and pending counters, does
      what `step` does if and only if the address it accesses, if any, is aligned. */
  lemma OpExact(env: Env, op: Op, len: nat, c: Cpu, junk: Leavings, pc: int, instret: int)
    requires Ready(c) && ValidOp(op) && len <= 4 && InRange(pc, instret) && Sound(env) && Batchable(env, op)
    ensures Translated(env, op, len, c, junk, pc, instret) <==> Aligned(c.hart, op)
  {
    hide RunBlock, EmitOp, Step, Ahead, Aligned, HandleMisalign, Sound, Batchable;
    var g := Ahead(c.hart, pc, instret);
    var o, r := RunBlock(env, EmitOp(op, len, pc, instret), c, junk), Step(env, g, op, len);
    AheadAligned(c.hart, op, pc, instret);
    MisalignedTraps(env, g, op, len);
    HandlerDiffers(env, g, op, len);
    var d := OpRuns(env, op, len, [], c, junk, pc, instret);
    assert EmitOp(op, len, pc, instret) + [] == EmitOp(op, len, pc, instret);
    EmptyFalls(env, d, junk);
    if Aligned(c.hart, op) {
      assert Covers(env, op, len, c, junk, pc, instret, d);
    }
  }

  /** LH from address 1: `step` traps with cause 4, the emitted code completes the load. */
  lemma OddHalfword(env: Env, c: Cpu, junk: Leavings)
    requires Ready(c) && ReadX(c.hart, 1) == 1 && Sound(env)
    ensures !Translated(env, Load(2, 1, 0, W16, true), 4, c, junk, 0, 0)
    ensures Step(env, c.hart, Load(2, 1, 0, W16, true), 4) == Stop(AddressMisaligned(4, 1), c.hart)
    ensures RunBlock(env, EmitOp(Load(2, 1, 0, W16, true), 4, 0, 0), c, junk).Misaligned?
  {
    hide RunBlock, EmitOp, Step, Ahead, Translated, Aligned, AddressOf, Sound;
    var op := Load(2, 1, 0, W16, true);
    OddAddress(c.hart);
    OpExact(env, op, 4, c, junk, 0, 0);
    var d := OpRuns(env, op, 4, [], c, junk, 0, 0);
    assert EmitOp(op, 4, 0, 0) + [] == EmitOp(op, 4, 0, 0);
    MisalignedTraps(env, c.hart, op, 4);
  }

  lemma OddAddress(h: Hart)
    requires ReadX(h, 1) == 1
    ensures var op := Load(2, 1, 0, W16, true); AddressOf(h, op) == 1 && !Aligned(h, op)
    ensures Ahead(h, 0, 0) == h
  {
  }

  // ----- minstret, which calls read and write in a lagging context -----

  /** Code that falls through translates its instruction exactly when catching up afterwards gives
      what the instruction gives after catching up. */
  lemma FallsThrough(env: Env, op: Op, len: nat, c: Cpu, junk: Leavings, pc: int, instret: int, d: Cpu, g: Hart)
    requires ValidOp(op) && RunBlock(env, EmitOp(op, len, pc, instret), c, junk) == Fell(d) && Ready(d) && d.hart.pc == c.hart.pc
    requires Step(env, Ahead(c.hart, pc, instret), op, len) == Next(g)
    ensures Translated(env, op, len, c, junk, pc, instret) <==> Ahead(d.hart, pc + len, instret + 1) == g
  {
    hide EmitOp, Step, Ahead, Ready;
    EmptyFalls(env, d, junk);
    if Ahead(d.hart, pc + len, instret + 1) == g {
      assert Covers(env, op, len, c, junk, pc, instret, d);
    }
    if e: Cpu :| Covers(env, op, len, c, junk, pc, instret, e) {
      EmptyFalls(env, e, junk);
    }
  }

  /** Reading minstret takes instret to count the instruction already. */
  ghost predicate ReadsMinstret(env: Env, n: nat) {
    forall h: Hart :: env.readCsr(h, n) == (h, Some(Wrap(h.instret - 1)))
  }

  ghost predicate WritesMinstret(env: Env, n: nat) {
    forall h: Hart, v: u64 :: env.writeCsr(h, n, v) == (h.(instret := v), false)
  }

  /** The forms that read and write at once: `update` gives the new value from the old one and the
      registers. */
  ghost predicate UpdatesMinstret(env: Env, n: nat, rd: nat, update: (u64, seq<u64>) -> u64) {
    forall h: Hart :: env.helper(h, n) == (Updated(h, rd, update), false)
  }

  lemma OffBy(v: u64, k: int)
    requires -0x8000 <= k <= 0x8000
    ensures Wrap(v + k) == v <==> k == 0
  {
  }

  /** The value read ahead is the value read behind plus the instructions between. */
  lemma CountAhead(h: Hart, pc: int, instret: int)
    ensures Wrap(Ahead(h, pc, instret).instret - 1) == Wrap(Wrap(h.instret - 1) + instret)
  {
    WrapSum(h.instret, instret, -1);
    WrapSum(h.instret, -1, instret);
  }

  lemma CountWritten(h: Hart, rd: nat, pc: int, instret: int)
    requires |h.x| == 32 && rd < 32 && -0x8000 <= instret <= 0x8000
    ensures var g := Ahead(h, pc, instret);
      Ahead(WriteX(h, rd, Wrap(h.instret - 1)), pc, instret) == WriteX(g, rd, Wrap(g.instret - 1)) <==> rd == 0 || instret == 0
  {
    var g, v := Ahead(h, pc, instret), Wrap(h.instret - 1);
    CountAhead(h, pc, instret);
    OffBy(v, instret);
    hide Wrap;
    if rd != 0 {
      assert WriteX(h, rd, v).x[rd] == v;
      assert WriteX(g, rd, Wrap(v + instret)).x[rd] == Wrap(v + instret);
    }
  }

  /** Compiled in place, a read of minstret is right only into x0, or when nothing is pending
      beyond the instruction itself, which is so only where it straddles two pages. */
  lemma MinstretRead(env: Env, n: nat, rd: nat, len: nat, c: Cpu, junk: Leavings, pc: int, instret: int)
    requires Ready(c) && ReadsMinstret(env, n) && rd < 32 && InRange(pc, instret)
    ensures Translated(env, ReadCsr(rd, n), len, c, junk, pc, instret) <==> rd == 0 || instret == -1
  {
    hide RunBlock, Translated, Plain, StoreReg, Run, GetEbx, Ahead, Wrap, Retire;
    var ebx, store := GetEbx(pc, instret), StoreReg(rd, RDX, Qword);
    assert EmitOp(ReadCsr(rd, n), len, pc, instret) == [CallRead(n, ebx)] + Plain(store);
    CallReadRuns(env, n, ebx, Plain(store), c, junk);
    var r := DoRead(env, c, n, junk(|Plain(store)|)).0;
    PlainRuns(env, store, [], r, junk);
    assert Plain(store) + [] == Plain(store);
    StoreRegRuns(rd, RDX, Qword, r);
    var d, g := Run(store, r), Ahead(c.hart, pc + len, instret + 1);
    EmptyFalls(env, d, junk);
    AheadWrite(c.hart, pc, instret, 0, 0, len);
    FallsThrough(env, ReadCsr(rd, n), len, c, junk, pc, instret, d, WriteX(g, rd, Wrap(g.instret - 1)));
    CountWritten(c.hart, rd, pc + len, instret + 1);
  }

  /** A write, of a register or a constant, is right only in the second case. */
  lemma MinstretWrite(env: Env, op: Op, len: nat, c: Cpu, junk: Leavings, pc: int, instret: int)
    requires Ready(c) && (op.WriteCsr? || op.WriteCsrImm?) && ValidOp(op) && WritesMinstret(env, op.n) && InRange(pc, instret)
    ensures Translated(env, op, len, c, junk, pc, instret) <==> instret == -1
  {
    hide RunBlock, Translated, Plain, LoadReg, Run, Exec, GetEbx, Retire, Wrap, Ahead;
    var ebx, n := GetEbx(pc, instret), op.n;
    var load := if op.WriteCsr? then LoadReg(RDX, Qword, op.rs1) else Mov(Rdx, Signext(op.imm));
    assert EmitOp(op, len, pc, instret) == Plain([load]) + [CallWrite(n, ebx)];
    PlainRuns(env, [load], [CallWrite(n, ebx)], c, junk);
    Run1(load, c);
    ToRdx(op, c);
    var c1 := Exec(load, c);
    assert [CallWrite(n, ebx)] + [] == [CallWrite(n, ebx)];
    CallWriteRuns(env, n, ebx, [], c1, junk);
    var d := DoWrite(env, c1, n, junk(0)).0;
    EmptyFalls(env, d, junk);
    AheadWrite(c.hart, pc, instret, 0, 0, len);
    var g, v := Ahead(c.hart, pc + len, instret + 1), c1.rdx;
    CountSet(c.hart, v, pc, instret, len);
    FallsThrough(env, op, len, c, junk, pc, instret, d, g.(instret := v));
  }

  lemma CountSet(h: Hart, v: u64, pc: int, instret: int, len: nat)
    requires InRange(pc, instret)
    ensures Ahead(h, pc, instret).x == h.x
    ensures Ahead(h.(instret := v), pc + len, instret + 1) == Ahead(h, pc + len, instret + 1).(instret := v) <==> instret == -1
  {
    OffBy(v, instret + 1);
  }

  /** Updating moves along with the count: `k` more before give `k` more after. */
  predicate MovesAlong(update: (u64, seq<u64>) -> u64, count: u64, x: seq<u64>, k: int) {
    Wrap(update(count, x) + k) == update(Wrap(count + k), x)
  }

  lemma CallFalls(env: Env, n: nat, len: nat, c: Cpu, junk: Leavings, pc: int, instret: int)
    requires !env.helper(c.hart, n).1
    ensures RunBlock(env, EmitOp(Helper(n), len, pc, instret), c, junk) == Fell(DoCall(env, c, n, junk(0)).0)
  {
    hide RunBlock, GetEbx;
    var ebx := GetEbx(pc, instret);
    assert EmitOp(Helper(n), len, pc, instret) == [Call(n, ebx)] + [];
    CallRuns(env, n, ebx, [], c, junk);
    EmptyFalls(env, DoCall(env, c, n, junk(0)).0, junk);
  }

  lemma StepsAhead(env: Env, n: nat, len: nat, h: Hart, pc: int, instret: int)
    requires !env.helper(Ahead(h, pc + len, instret + 1), n).1
    ensures Step(env, Ahead(h, pc, instret), Helper(n), len) == Next(env.helper(Ahead(h, pc + len, instret + 1), n).0)
  {
    hide Ahead, Retire;
    AheadWrite(h, pc, instret, 0, 0, len);
  }

  function Updated(h: Hart, rd: nat, update: (u64, seq<u64>) -> u64): Hart {
    WriteX(h.(instret := update(Wrap(h.instret - 1), h.x)), rd, Wrap(h.instret - 1))
  }

  lemma UpdatedPlain(h: Hart, rd: nat, update: (u64, seq<u64>) -> u64)
    requires Valid(h)
    ensures Valid(Updated(h, rd, update)) && Updated(h, rd, update).pc == h.pc
  {
    hide Wrap;
  }

  /** The forms that do both go through the interpreter: right if the value read is, and the new
      value moves along with the old one. */
  lemma MinstretUpdate(env: Env, n: nat, rd: nat, update: (u64, seq<u64>) -> u64, len: nat, c: Cpu, junk: Leavings, pc: int, instret: int)
    requires Ready(c) && UpdatesMinstret(env, n, rd, update) && rd < 32 && InRange(pc, instret)
    ensures Translated(env, Helper(n), len, c, junk, pc, instret) <==>
      (rd == 0 || instret == -1) && MovesAlong(update, Wrap(c.hart.instret - 1), c.hart.x, instret + 1)
  {
    hide RunBlock, EmitOp, Step, Translated, Wrap, Ahead, Updated;
    var h := c.hart;
    CallFalls(env, n, len, c, junk, pc, instret);
    StepsAhead(env, n, len, h, pc, instret);
    UpdatedPlain(h, rd, update);
    FallsThrough(env, Helper(n), len, c, junk, pc, instret, DoCall(env, c, n, junk(0)).0, Updated(Ahead(h, pc + len, instret + 1), rd, update));
    UpdateWritten(h, rd, update, pc + len, instret + 1);
  }

  lemma UpdateWritten(h: Hart, rd: nat, update: (u64, seq<u64>) -> u64, pc: int, instret: int)
    requires |h.x| == 32 && rd < 32 && -0x8000 <= instret <= 0x8000
    ensures Ahead(Updated(h, rd, update), pc, instret) == Updated(Ahead(h, pc, instret), rd, update) <==>
      (rd == 0 || instret == 0) && MovesAlong(update, Wrap(h.instret - 1), h.x, instret)
  {
    var g, u := Ahead(h, pc, instret), Wrap(h.instret - 1);
    CountAhead(h, pc, instret);
    OffBy(u, instret);
    hide Wrap;
    if rd != 0 {
      assert Updated(h, rd, update).x[rd] == u;
      assert Updated(g, rd, update).x[rd] == Wrap(u + instret);
    }
  }

  // ----- environments in which they fail -----

  /** An emulator whose only CSR is minstret, and whose only instruction of its own is CSRRW rd, minstret, x0. */
  function CountingEnv(rd: nat): Env {
    Env(64, (w: World, pc: u64) => (w, None), (w: World, a: u64, write: bool) => (w, None),
        (w: World, p: u64, width: Width) => 0, (w: World, p: u64, width: Width, v: u64) => w,
        (h: Hart, n: nat) => (WriteX(h.(instret := 0), rd, Wrap(h.instret - 1)), false),
        (h: Hart, n: nat) => (h, Some(Wrap(h.instret - 1))),
        (h: Hart, n: nat, v: u64) => (h.(instret := v), false),
        (h: Hart, n: nat) => (h, false))
  }

  lemma CountingFacts(rd: nat)
    ensures var env := CountingEnv(rd);
      && Sound(env) && ReadsMinstret(env, 0) && WritesMinstret(env, 0) && UpdatesMinstret(env, 0, rd, (v: u64, x: seq<u64>) => 0)
  {
    hide Wrap;
  }

  /** CSRR rd, minstret and CSRW minstret, rs1 and CSRRW rd, minstret, x0 at the start of a block. */
  lemma MinstretWitness(rd: nat, rs1: nat, c: Cpu, junk: Leavings)
    requires Ready(c) && 0 < rd < 32 && rs1 < 32
    ensures var env := CountingEnv(rd);
      && Sound(env) && ReadsMinstret(env, 0) && WritesMinstret(env, 0)
      && !Translated(env, ReadCsr(rd, 0), 4, c, junk, 0, 0)
      && !Translated(env, WriteCsr(rs1, 0), 4, c, junk, 0, 0)
      && !Translated(env, Helper(0), 4, c, junk, 0, 0)
  {
    hide Translated, CountingEnv, Sound, ReadsMinstret, WritesMinstret, UpdatesMinstret, Wrap;
    var env := CountingEnv(rd);
    CountingFacts(rd);
    MinstretRead(env, 0, rd, 4, c, junk, 0, 0);
    MinstretWrite(env, WriteCsr(rs1, 0), 4, c, junk, 0, 0);
    MinstretUpdate(env, 0, rd, (v: u64, x: seq<u64>) => 0, 4, c, junk, 0, 0);
  }
}
