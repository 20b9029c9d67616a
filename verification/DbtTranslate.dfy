/** Whole translated blocks. */
module DbtTranslate {
  import opened Words
  import opened Guest
  import opened X86
  import opened DbtOps
  import opened DbtBlock
  import opened DbtStep
  import opened DbtOp
  import opened RiscvStep
  import opened Misalign

  /** What the translator feeds the compiler: one instruction, or a branch over exactly one
      instruction fused with it. */
  datatype Unit =
    One(i: Insn)
  | Pair(b: Insn, i: Insn)

  predicate ValidUnit(u: Unit) {
    match u
    case One(i) => ValidInsn(i)
    case Pair(b, i) => ValidInsn(b) && ValidInsn(i) && b.op.Branch? && b.op.imm == b.len + i.len
  }

  function UnitLen(u: Unit): (n: nat) {
    match u
    case One(i) => i.len
    case Pair(b, i) => b.len + i.len
  }

  function EmitUnit(u: Unit, pc: int, instret: int): seq<Item> {
    match u
    case One(i) => EmitOp(i.op, i.len, pc, instret)
    case Pair(b, i) =>
      if b.op.Branch? then EmitFused(b.op.bk, b.op.rs1, b.op.rs2, b.len, i.op, i.len, pc, instret) else []
  }

  /** After an unconditional jump or a system instruction nothing more is emitted. */
  predicate Closes(u: Unit) {
    u.One? && (u.i.op.Jal? || u.i.op.Jalr? || u.i.op.System?)
  }

  /** How a block ends: falling through to the next, with an instruction that straddles the page
      end, or with a unit that closes it. */
  datatype Ending = Open | Cross(op: Op) | Closed

  function EmitEnding(e: Ending, pc: int, instret: int): seq<Item> {
    match e
    case Open => EmitEnd(pc, instret)
    case Cross(op) => EmitCross(op, pc, instret)
    case Closed => []
  }

  /** The code of a block, from offset `pc` with `instret` instructions before. */
  function Compile(units: seq<Unit>, e: Ending, pc: int, instret: int): (code: seq<Item>) {
    if units == [] then EmitEnding(e, pc, instret)
    else EmitUnit(units[0], pc, instret) + Compile(units[1..], e, pc + UnitLen(units[0]), instret + 1)
  }

  /** A closed block has a last unit, and it is one that closes. */
  predicate Ends(units: seq<Unit>, e: Ending) {
    e.Closed? ==> units != [] && Closes(units[|units| - 1])
  }

  function TotalLen(units: seq<Unit>): (n: nat) {
    if units == [] then 0 else UnitLen(units[0]) + TotalLen(units[1..])
  }

  /** The guest program holds these units, one after another, from offset `pc` of the block. */
  predicate Laid(fetch: Fetch, base: u64, units: seq<Unit>, e: Ending, pc: int)
    decreases |units|
  {
    if units == [] then e.Cross? ==> fetch(Wrap(base + pc)) == Insn(e.op, 4)
    else At(fetch, base, units[0], pc) && Laid(fetch, base, units[1..], e, pc + UnitLen(units[0]))
  }

  predicate At(fetch: Fetch, base: u64, u: Unit, pc: int) {
    ValidUnit(u) &&
    match u
    case One(i) => fetch(Wrap(base + pc)) == i
    case Pair(b, i) => fetch(Wrap(base + pc)) == b && fetch(Wrap(base + pc + b.len)) == i
  }

  /** The instructions of a block may run with the counters lagging behind. A branch always may. */
  ghost predicate UnitBatchable(env: Env, u: Unit) { Batchable(env, u.i.op) }
  ghost predicate EndingBatchable(env: Env, e: Ending) { e.Cross? ==> Batchable(env, e.op) }

  // ----- fused pairs -----

  lemma InstretRuns(c: Cpu)
    ensures var d := Exec(Alu(AddOp, Instret, Imm(1)), c);
      d.hart == c.hart.(instret := Wrap(c.hart.instret + 1)) && d.ok == c.ok
  {
    hide AluResult, Wrap;
    AluSum(c.hart.instret, 1);
  }

  lemma AheadCounted(h: Hart, pc: int, instret: int, blen: nat)
    ensures Ahead(h.(instret := Wrap(h.instret + 1)), pc + blen, instret) == Ahead(h, pc + blen, instret + 1)
    ensures Retire(Ahead(h, pc, instret), blen) == Ahead(h, pc + blen, instret + 1)
  {
    WrapSum(h.instret, 1, instret);
    AheadWrite(h, pc, instret, 0, 0, blen);
  }

  /** A fused pair is its two instructions: one step when the branch is taken, which lands just
      past the pair, and two when it is not. */
  lemma PairRuns(env: Env, b: Insn, i: Insn, rest: seq<Item>, c: Cpu, junk: Leavings, pc: int, instret: int) returns (d: Cpu)
    requires Ready(c) && ValidUnit(Pair(b, i)) && Sound(env) && Batchable(env, i.op)
    requires InRange(pc, instret) && InRange(pc + b.len, instret)
    ensures var g := Ahead(c.hart, pc, instret);
      var first := Step(env, g, b.op, b.len);
      var taken := Taken(b.op.bk, ReadX(c.hart, b.op.rs1), ReadX(c.hart, b.op.rs2));
      first.Next? && (!taken ==> first.h.pc == Wrap(c.hart.pc + pc + b.len))
      && Follows(env, RunBlock(env, EmitUnit(Pair(b, i), pc, instret) + rest, c, junk), rest, junk,
                 if taken then first else Step(env, first.h, i.op, i.len), c, d,
                 pc + b.len + i.len, instret + 1)
  {
    hide RunBlock, Plain, Run, Exec, EmitOp, CompareCode, CompareCond, Holds, Taken, Wrap, Retire, JumpTo, Batchable;
    var k, rs1, rs2 := b.op.bk, b.op.rs1, b.op.rs2;
    var compare, cc := CompareCode(rs1, rs2), CompareCond(k, rs1, rs2);
    var count := I(Alu(AddOp, Instret, Imm(1)));
    var code := EmitOp(i.op, i.len, pc + b.len, instret);
    var body := [count] + code;
    assert EmitUnit(Pair(b, i), pc, instret) + rest == Plain(compare) + ([Jcc(cc, |body|)] + (body + rest));
    PlainRuns(env, compare, [Jcc(cc, |body|)] + (body + rest), c, junk);
    CompareRuns(k, rs1, rs2, c);
    var c1 := Run(compare, c);
    JccRuns(env, cc, body, rest, c1, junk);
    AheadCounted(c.hart, pc, instret, b.len);
    AheadJump(c.hart, pc, instret, b.op.imm);
    assert c.hart.pc + pc + b.len == c.hart.pc + (pc + b.len);
    if Holds(cc, c1.flags) {
      d := c1;
      assert pc + b.op.imm == pc + b.len + i.len;
    } else {
      hide Step, Follows;
      d := SecondRuns(env, i, rest, c1, junk, pc + b.len, instret);
      FollowsSame(env, RunBlock(env, body + rest, c1, junk), rest, junk, Step(env, Ahead(c.hart, pc + b.len, instret + 1), i.op, i.len),
                  c1, c, d, pc + b.len + i.len, instret + 1);
    }
  }

  /** The second instruction of a pair, after instret has been stepped in the context. */
  lemma SecondRuns(env: Env, i: Insn, rest: seq<Item>, c: Cpu, junk: Leavings, pc: int, instret: int) returns (d: Cpu)
    requires Ready(c) && ValidInsn(i) && Sound(env) && Batchable(env, i.op) && InRange(pc, instret)
    ensures Follows(env, RunBlock(env, [I(Alu(AddOp, Instret, Imm(1)))] + EmitOp(i.op, i.len, pc, instret) + rest, c, junk), rest, junk,
                    Step(env, Ahead(c.hart, pc, instret + 1), i.op, i.len), c, d, pc + i.len, instret + 1)
  {
    hide RunBlock, Exec, EmitOp, Step, Follows, Wrap, Sound, Batchable;
    var count := Alu(AddOp, Instret, Imm(1));
    var code := EmitOp(i.op, i.len, pc, instret);
    assert [I(count)] + code + rest == [I(count)] + (code + rest);
    InstrRuns(env, count, code + rest, c, junk);
    InstretRuns(c);
    AheadCounted(c.hart, pc, instret, 0);
    var c2 := Exec(count, c);
    d := OpRuns(env, i.op, i.len, rest, c2, junk, pc, instret);
    FollowsSame(env, RunBlock(env, code + rest, c2, junk), rest, junk, Step(env, Ahead(c.hart, pc, instret + 1), i.op, i.len),
                c2, c, d, pc + i.len, instret + 1);
  }

  lemma FollowsSame(env: Env, o: Outcome, rest: seq<Item>, junk: Leavings, r: StepResult, c: Cpu, c': Cpu, d: Cpu, pc: int, instret: int)
    requires c.hart.pc == c'.hart.pc
    ensures Follows(env, o, rest, junk, r, c, d, pc, instret) == Follows(env, o, rest, junk, r, c', d, pc, instret)
  {
    hide RunBlock, Ahead;
  }

  // ----- blocks -----

  predicate Shut(code: seq<Item>) {
    code != [] && code[|code| - 1] == Leave && forall k :: 0 <= k < |code| ==> !code[k].Jcc?
  }

  lemma {:induction false} ShutLeaves(env: Env, code: seq<Item>, c: Cpu, junk: Leavings)
    requires Shut(code)
    ensures !RunBlock(env, code, c, junk).Fell?
    decreases |code|
  {
    hide Exec, DoAccess, DoCall, DoRead, DoWrite, DoSystem, DoRmw, DoCmov, DoCmpxchg;
    var rest := code[1..];
    if rest != [] {
      assert Shut(rest);
      match code[0]
      case I(i) => ShutLeaves(env, rest, Exec(i, c), junk);
      case Access(width, write, ebx) => ShutLeaves(env, rest, DoAccess(env, c, width, write, junk(|rest|)).0, junk);
      case LoadMem(width, signed) =>
        ShutLeaves(env, rest, c.(rax := Extend(env.load(c.hart.world, c.rsi, width), width, signed)), junk);
      case StoreMem(width) =>
        ShutLeaves(env, rest, c.(hart := c.hart.(world := env.store(c.hart.world, c.rsi, width, Narrow(c.rdx, width)))), junk);
      case LoadAx(width) =>
        ShutLeaves(env, rest, c.(rax := Narrow(env.load(c.hart.world, c.rsi, width), width)), junk);
      case Rmw(rmw, width) => ShutLeaves(env, rest, DoRmw(env, c, rmw, width), junk);
      case CmovCx(cc, width) => ShutLeaves(env, rest, DoCmov(c, cc, width), junk);
      case Cmpxchg(width) => ShutLeaves(env, rest, DoCmpxchg(env, c, width), junk);
      case Call(n, ebx) => ShutLeaves(env, rest, DoCall(env, c, n, junk(|rest|)).0, junk);
      case CallRead(n, ebx) => ShutLeaves(env, rest, DoRead(env, c, n, junk(|rest|)).0, junk);
      case CallWrite(n, ebx) => ShutLeaves(env, rest, DoWrite(env, c, n, junk(|rest|)).0, junk);
      case CallSystem(n, ebx) => ShutLeaves(env, rest, DoSystem(env, c, n, junk(|rest|)).0, junk);
      case Leave =>
    }
  }

  lemma ClosesShut(u: Unit, pc: int, instret: int)
    requires Closes(u)
    ensures Shut(EmitUnit(u, pc, instret))
  {
    hide JalCode, JalrCode, AddTo, Plain;
  }

  /** One unit of a block is one or two steps of the interpreter. */
  lemma UnitRuns(env: Env, fetch: Fetch, u: Unit, rest: seq<Item>, c: Cpu, junk: Leavings, pc: int, instret: int) returns (n: nat, d: Cpu)
    requires Ready(c) && Sound(env) && UnitBatchable(env, u) && At(fetch, c.hart.pc, u, pc)
    requires InRange(pc, instret) && pc + UnitLen(u) < 0x8000
    ensures 1 <= n <= 2
    ensures Follows(env, RunBlock(env, EmitUnit(u, pc, instret) + rest, c, junk), rest, junk,
                    Steps(env, fetch, Next(Ahead(c.hart, pc, instret)), n), c, d, pc + UnitLen(u), instret + 1)
  {
    hide RunBlock, EmitOp, EmitFused, Step, Steps, Follows, Sound, Batchable, Taken;
    var g := Ahead(c.hart, pc, instret);
    OneStep(env, fetch, g);
    match u
    case One(i) =>
      n := 1;
      d := OpRuns(env, i.op, i.len, rest, c, junk, pc, instret);
    case Pair(b, i) =>
      n, d := PairSteps(env, fetch, b, i, rest, c, junk, pc, instret);
  }

  lemma PairSteps(env: Env, fetch: Fetch, b: Insn, i: Insn, rest: seq<Item>, c: Cpu, junk: Leavings, pc: int, instret: int) returns (n: nat, d: Cpu)
    requires Ready(c) && Sound(env) && Batchable(env, i.op) && At(fetch, c.hart.pc, Pair(b, i), pc)
    requires InRange(pc, instret) && pc + b.len + i.len < 0x8000
    ensures 1 <= n <= 2
    ensures Follows(env, RunBlock(env, EmitUnit(Pair(b, i), pc, instret) + rest, c, junk), rest, junk,
                    Steps(env, fetch, Next(Ahead(c.hart, pc, instret)), n), c, d, pc + b.len + i.len, instret + 1)
  {
    hide RunBlock, EmitUnit, Step, Steps, Follows, Sound, Batchable, Taken, Wrap;
    var g := Ahead(c.hart, pc, instret);
    d := PairRuns(env, b, i, rest, c, junk, pc, instret);
    var first := Step(env, g, b.op, b.len);
    OneStep(env, fetch, g);
    if Taken(b.op.bk, ReadX(c.hart, b.op.rs1), ReadX(c.hart, b.op.rs2)) {
      n := 1;
    } else {
      n := 2;
      OneStep(env, fetch, first.h);
      StepsCompose(env, fetch, Next(g), 1, 1);
    }
  }

  lemma OneStep(env: Env, fetch: Fetch, g: Hart)
    ensures Steps(env, fetch, Next(g), 1) == Step(env, g, fetch(g.pc).op, fetch(g.pc).len)
  {
    hide Step;
    var r := Step(env, g, fetch(g.pc).op, fetch(g.pc).len);
    assert Steps(env, fetch, r, 0) == r;
  }

  /** A block run to its end, and `n` interpreter steps: same hart, same reason for stopping. Where
      the interpreter traps for an address that is not aligned, the block has run to the entry of
      the handler. */
  predicate Matches(o: Outcome, r: StepResult) {
    match o
    case Fell(_) => false
    case Left(d) => d.ok && r == Next(d.hart)
    case Stopped(d) => d.ok && r == Stop(Trap, d.hart)
    case Misaligned(addr, d) => d.ok && r.Stop? && r.h == d.hart && r.reason.AddressMisaligned? && r.reason.addr == addr
  }

  lemma EndRuns(env: Env, c: Cpu, junk: Leavings, pc: int, instret: int)
    requires Ready(c)
    ensures Matches(RunBlock(env, EmitEnd(pc, instret), c, junk), Next(Ahead(c.hart, pc, instret)))
  {
    var code := AddTo(Pc, pc) + AddTo(Instret, instret);
    hide Run, RunBlock, Plain, AddTo;
    CountersRun(pc, instret, c);
    PlainRuns(env, code, [Leave], c, junk);
    assert [Leave] == [Leave] + [];
    LeaveRuns(env, [], Run(code, c), junk);
  }

  lemma CrossRuns(env: Env, fetch: Fetch, op: Op, c: Cpu, junk: Leavings, pc: int, instret: int)
    requires Ready(c) && Sound(env) && Batchable(env, op) && ValidOp(op)
    requires fetch(Wrap(c.hart.pc + pc)) == Insn(op, 4)
    ensures Matches(RunBlock(env, EmitCross(op, pc, instret), c, junk),
                    Steps(env, fetch, Next(Ahead(c.hart, pc, instret)), 1))
  {
    var count := AddTo(Pc, pc + 4) + AddTo(Instret, instret + 1);
    hide Run, RunBlock, Plain, AddTo, Step, Steps, Sound, Batchable, EmitOp, Follows, Matches, Wrap, Ahead;
    AheadPc(c.hart, pc, instret);
    AheadPc(c.hart, pc + 4, instret + 1);
    var code := EmitOp(op, 4, -4, -1);
    assert EmitCross(op, pc, instret) == Plain(count) + (code + [Leave]);
    PlainRuns(env, count, code + [Leave], c, junk);
    CountersRun(pc + 4, instret + 1, c);
    var c1 := Run(count, c);
    AheadUndone(c.hart, pc, instret, 4);
    var d := OpRuns(env, op, 4, [Leave], c1, junk, -4, -1);
    OneStep(env, fetch, Ahead(c.hart, pc, instret));
    FollowsLeaves(env, RunBlock(env, code + [Leave], c1, junk), junk, Step(env, Ahead(c.hart, pc, instret), op, 4), c1, d);
  }

  /** With nothing but an exit after it, an instruction ends the block either way. */
  lemma FollowsLeaves(env: Env, o: Outcome, junk: Leavings, r: StepResult, c: Cpu, d: Cpu)
    requires Follows(env, o, [Leave], junk, r, c, d, 0, 0)
    ensures Matches(o, r)
  {
    AheadZero(d.hart);
    assert [Leave] == [Leave] + [];
    LeaveRuns(env, [], d, junk);
    hide RunBlock, Ahead;
  }

  lemma AheadPc(h: Hart, pc: int, instret: int)
    ensures Ahead(h, pc, instret).pc == Wrap(h.pc + pc) && Ahead(h, pc, instret).x == h.x
  {
  }

  lemma AheadZero(h: Hart)
    ensures Ahead(h, 0, 0) == h
  {
  }

  lemma EndingRuns(env: Env, fetch: Fetch, e: Ending, c: Cpu, junk: Leavings, pc: int, instret: int) returns (n: nat)
    requires Ready(c) && Sound(env) && EndingBatchable(env, e) && !e.Closed? && Laid(fetch, c.hart.pc, [], e, pc)
    ensures n == if e.Cross? then 1 else 0
    ensures Matches(RunBlock(env, EmitEnding(e, pc, instret), c, junk),
                    Steps(env, fetch, Next(Ahead(c.hart, pc, instret)), n))
  {
    hide RunBlock, Matches, Steps, Sound, Batchable, EmitEnd, EmitCross, Ahead;
    match e
    case Open =>
      n := 0;
      NoSteps(env, fetch, Next(Ahead(c.hart, pc, instret)));
      EndRuns(env, c, junk, pc, instret);
    case Cross(op) =>
      n := 1;
      assert ValidInsn(fetch(Wrap(c.hart.pc + pc)));
      CrossRuns(env, fetch, op, c, junk, pc, instret);
  }

  lemma EmptyBlock(e: Ending, pc: int, instret: int)
    ensures Compile([], e, pc, instret) == EmitEnding(e, pc, instret)
  {
  }

  /** The facts about a nonempty block that its first unit needs. */
  lemma Unfold(fetch: Fetch, base: u64, units: seq<Unit>, e: Ending, pc: int, instret: int)
    requires units != [] && Laid(fetch, base, units, e, pc) && Ends(units, e)
    ensures var u, later := units[0], units[1..];
      && At(fetch, base, u, pc) && 2 <= UnitLen(u)
      && Laid(fetch, base, later, e, pc + UnitLen(u))
      && TotalLen(units) == UnitLen(u) + TotalLen(later)
      && Compile(units, e, pc, instret) == EmitUnit(u, pc, instret) + Compile(later, e, pc + UnitLen(u), instret + 1)
      && (later == [] && e.Closed? ==> Closes(u) && Compile(later, e, pc + UnitLen(u), instret + 1) == [])
      && (!(later == [] && e.Closed?) ==> Ends(later, e))
  {
    hide EmitUnit;
    if |units| > 1 {
      assert units[1..][|units| - 2] == units[|units| - 1];
    }
  }

  /**
   * The main theorem. Running the translated block, from a context that lags `pc` bytes and
   * `instret` instructions behind, is the same as stepping the guest's instructions one by one:
   * the registers, pc, instret and world agree when control leaves, and when the k-th
   * instruction stops, pc and instret stand exactly at it.
   */
  lemma {:induction false} BlockRuns(env: Env, fetch: Fetch, units: seq<Unit>, e: Ending, c: Cpu, junk: Leavings, pc: int, instret: int) returns (n: nat)
    requires Ready(c) && Sound(env) && Laid(fetch, c.hart.pc, units, e, pc) && Ends(units, e)
    requires (forall u <- units :: UnitBatchable(env, u)) && EndingBatchable(env, e)
    requires 0 <= instret <= pc && pc + TotalLen(units) < 0x8000
    ensures n <= 2 * |units| + 1 && (units != [] || e.Cross? ==> n >= 1)
    ensures Matches(RunBlock(env, Compile(units, e, pc, instret), c, junk),
                    Steps(env, fetch, Next(Ahead(c.hart, pc, instret)), n))
    decreases |units|
  {
    hide RunBlock, EmitUnit, EmitEnding, Step, Steps, Sound, UnitBatchable, EndingBatchable, Ahead, Matches, Follows, At, Continues, Compile, Laid, TotalLen;
    if units == [] {
      EmptyBlock(e, pc, instret);
      n := EndingRuns(env, fetch, e, c, junk, pc, instret);
    } else {
      Unfold(fetch, c.hart.pc, units, e, pc, instret);
      var u, later := units[0], units[1..];
      var pc', instret' := pc + UnitLen(u), instret + 1;
      var rest := Compile(later, e, pc', instret');
      var g := Ahead(c.hart, pc, instret);
      var m, d := UnitRuns(env, fetch, u, rest, c, junk, pc, instret);
      var o, r := RunBlock(env, EmitUnit(u, pc, instret) + rest, c, junk), Steps(env, fetch, Next(g), m);
      n := m;
      if later == [] && e.Closed? {
        ClosesLeaves(env, u, c, junk, pc, instret);
        FollowsEnds(env, o, rest, junk, r, c, d, pc', instret');
      } else if Continues(env, o, rest, junk, r, c, d, pc', instret') {
        ContinuesReady(env, o, rest, junk, r, c, d, pc', instret');
        var k := BlockRuns(env, fetch, later, e, d, junk, pc', instret');
        Joined(env, fetch, o, rest, junk, Next(g), c, d, pc', instret', m, k);
        n := m + k;
      } else {
        FollowsEnds(env, o, rest, junk, r, c, d, pc', instret');
      }
    }
  }

  /** What a run of a block comes to once the handler has done its part. */
  function Final(env: Env, o: Outcome): StepResult {
    match o
    case Stopped(d) => Stop(Trap, d.hart)
    case Misaligned(addr, d) => HandleMisalign(env, d.hart, addr)
    case _ => Next(o.c.hart)
  }

  lemma FinalResolves(env: Env, o: Outcome, r: StepResult)
    requires Matches(o, r)
    ensures Final(env, o) == Resolve(env, r)
  {
    hide HandleMisalign;
  }

  /**
   * Running the block, handler included, is stepping the guest's instructions one by one and then
   * handing an address that is not aligned to the handler; and it is the interpreter's run itself
   * if and only if all addresses are aligned.
   */
  lemma BlockExact(env: Env, fetch: Fetch, units: seq<Unit>, e: Ending, c: Cpu, junk: Leavings, pc: int, instret: int) returns (n: nat)
    requires Ready(c) && Sound(env) && Laid(fetch, c.hart.pc, units, e, pc) && Ends(units, e)
    requires (forall u <- units :: UnitBatchable(env, u)) && EndingBatchable(env, e)
    requires 0 <= instret <= pc && pc + TotalLen(units) < 0x8000
    ensures n <= 2 * |units| + 1 && (units != [] || e.Cross? ==> n >= 1)
    ensures var start := Next(Ahead(c.hart, pc, instret));
      var o := RunBlock(env, Compile(units, e, pc, instret), c, junk);
      var final := Final(env, o);
      && Matches(o, Steps(env, fetch, start, n)) && final == Resolve(env, Steps(env, fetch, start, n))
      && (final == Steps(env, fetch, start, n) <==> AllAligned(env, fetch, start, n))
  {
    hide RunBlock, Compile, Steps, Sound, UnitBatchable, EndingBatchable, Laid, Ahead, Matches, Final, AllAligned, HandleMisalign;
    n := BlockRuns(env, fetch, units, e, c, junk, pc, instret);
    var start := Next(Ahead(c.hart, pc, instret));
    var r := Steps(env, fetch, start, n);
    FinalResolves(env, RunBlock(env, Compile(units, e, pc, instret), c, junk), r);
    AlignedRun(env, fetch, start, n);
    if StopsMisaligned(r) {
      HandlerCause(env, r);
    }
  }

  /** The case of `Follows` in which the rest of the block is run. */
  predicate Continues(env: Env, o: Outcome, rest: seq<Item>, junk: Leavings, r: StepResult, c: Cpu, d: Cpu, pc: int, instret: int)
  {
    r.Next? && o == RunBlock(env, rest, d, junk) && Ready(d) && Ahead(d.hart, pc, instret) == r.h && d.hart.pc == c.hart.pc
  }

  lemma ContinuesReady(env: Env, o: Outcome, rest: seq<Item>, junk: Leavings, r: StepResult, c: Cpu, d: Cpu, pc: int, instret: int)
    requires Continues(env, o, rest, junk, r, c, d, pc, instret)
    ensures Ready(d) && d.hart.pc == c.hart.pc
  {
    hide RunBlock, Ahead;
  }

  /** The steps of the rest of a block follow those of its first unit. */
  lemma Joined(env: Env, fetch: Fetch, o: Outcome, rest: seq<Item>, junk: Leavings, start: StepResult, c: Cpu, d: Cpu, pc: int, instret: int, m: nat, k: nat)
    requires Continues(env, o, rest, junk, Steps(env, fetch, start, m), c, d, pc, instret)
    requires Matches(RunBlock(env, rest, d, junk), Steps(env, fetch, Next(Ahead(d.hart, pc, instret)), k))
    ensures Matches(o, Steps(env, fetch, start, m + k))
  {
    hide RunBlock, Ahead, Steps, Matches;
    StepsCompose(env, fetch, start, m, k);
  }

  lemma FollowsEnds(env: Env, o: Outcome, rest: seq<Item>, junk: Leavings, r: StepResult, c: Cpu, d: Cpu, pc: int, instret: int)
    requires Follows(env, o, rest, junk, r, c, d, pc, instret)
    ensures Matches(o, r) || Continues(env, o, rest, junk, r, c, d, pc, instret)
    ensures rest == [] && !o.Fell? ==> Matches(o, r)
  {
    EmptyFalls(env, d, junk);
    hide RunBlock;
  }

  lemma NoSteps(env: Env, fetch: Fetch, r: StepResult)
    ensures Steps(env, fetch, r, 0) == r
  {
    hide Step;
  }

  lemma ClosesLeaves(env: Env, u: Unit, c: Cpu, junk: Leavings, pc: int, instret: int)
    requires Closes(u)
    ensures !RunBlock(env, EmitUnit(u, pc, instret) + [], c, junk).Fell?
  {
    hide RunBlock, EmitUnit;
    ClosesShut(u, pc, instret);
    assert EmitUnit(u, pc, instret) + [] == EmitUnit(u, pc, instret);
    ShutLeaves(env, EmitUnit(u, pc, instret), c, junk);
  }
}
