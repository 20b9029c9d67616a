/** The atomic read-modify-write instructions. */
module DbtAmo {
  import opened Wrappers
  import opened Words
  import opened Guest
  import opened X86
  import opened DbtEmit
  import opened DbtOps
  import opened DbtOps32
  import opened DbtBlock
  import opened DbtStep
  import opened RiscvStep

  // ---- items

  lemma LoadAxRuns(env: Env, width: Width, rest: seq<Item>, c: Cpu, junk: Leavings)
    ensures RunBlock(env, [LoadAx(width)] + rest, c, junk) ==
      RunBlock(env, rest, c.(rax := Narrow(env.load(c.hart.world, c.rsi, width), width)), junk)
  {
    hide Exec, Narrow;
    First(env, LoadAx(width), rest, c, junk);
  }

  lemma RmwRuns(env: Env, rmw: RmwOp, width: Width, rest: seq<Item>, c: Cpu, junk: Leavings)
    ensures RunBlock(env, [Rmw(rmw, width)] + rest, c, junk) == RunBlock(env, rest, DoRmw(env, c, rmw, width), junk)
  {
    hide Exec, DoRmw;
    First(env, Rmw(rmw, width), rest, c, junk);
  }

  lemma CmovRuns(env: Env, cc: Cond, width: Width, rest: seq<Item>, c: Cpu, junk: Leavings)
    ensures RunBlock(env, [CmovCx(cc, width)] + rest, c, junk) == RunBlock(env, rest, DoCmov(c, cc, width), junk)
  {
    hide Exec, DoCmov;
    First(env, CmovCx(cc, width), rest, c, junk);
  }

  lemma CmpxchgRuns(env: Env, width: Width, rest: seq<Item>, c: Cpu, junk: Leavings)
    ensures RunBlock(env, [Cmpxchg(width)] + rest, c, junk) == RunBlock(env, rest, DoCmpxchg(env, c, width), junk)
  {
    hide Exec, DoCmpxchg;
    First(env, Cmpxchg(width), rest, c, junk);
  }

  // ---- values

  function SizeOfAmo(wide: bool): Size { if wide then Qword else Dword }

  lemma NarrowIs(v: u64, wide: bool)
    ensures Narrow(v, AmoWidth(wide)) == Lower(v, SizeOfAmo(wide))
    ensures Narrow(Narrow(v, AmoWidth(wide)), AmoWidth(wide)) == Narrow(v, AmoWidth(wide))
    ensures Stored(Narrow(v, AmoWidth(wide)), SizeOfAmo(wide)) == Extend(v, AmoWidth(wide), true)
  {
    LowerHalf(v);
    Halved(v);
  }

  /** The locked instruction stores what the operation says. */
  lemma RmwIs(k: AmoKind, rd: nat, current: u64, src: u64, wide: bool)
    requires SingleInstruction(k, rd)
    ensures RmwValue(AmoRmw(k, rd), current, Lower(src, SizeOfAmo(wide)), AmoWidth(wide)) == AmoValue(k, current, src, wide)
  {
    hide Words.And, Words.Or, Words.Xor, Wrap32, Wrap, Truncate;
    Halved(src);
    if wide {
      AluSum(current, src);
    } else {
      HalfAlu(current, src);
    }
  }

  /** Comparisons of 32-bit values. */
  lemma CompareHolds32(a: u64, b: u64)
    requires a < H && b < H
    ensures var f := Compare(a, b, Dword);
      && Holds(Below, f) == (a < b) && Holds(Above, f) == (a > b)
      && Holds(Less, f) == (Signed32(a) < Signed32(b)) && Holds(Greater, f) == (Signed32(a) > Signed32(b))
  {
    CompareFlags32(a, b);
    hide Compare, Signed32;
  }

  lemma CompareFlags32(a: u64, b: u64)
    requires a < H && b < H
    ensures var f := Compare(a, b, Dword);
      f.zf == (a == b) && f.cf == (a < b) && (f.sf != f.of) == (Signed32(a) < Signed32(b))
      && (Signed32(a) == Signed32(b) <==> a == b)
  {
    SmallSigned(a);
    SmallSigned(b);
    assert Truncate(a - b, Dword) == if a >= b then a - b else a - b + H;
    hide Signed32;
  }

  lemma SmallSigned(a: u64)
    requires a < H
    ensures Signed32(a) == SignedOf(a, Dword)
  {
  }

  predicate Chooses(k: AmoKind) { k == AmoMin || k == AmoMax || k == AmoMinu || k == AmoMaxu }

  function ChoiceCond(k: AmoKind): Cond
  {
    match k
    case AmoMin => Less
    case AmoMax => Greater
    case AmoMinu => Below
    case _ => Above
  }

  /** Comparing operand with current value, the chosen condition picks the operand exactly when
      the operation does. */
  lemma ChoiceIs(k: AmoKind, current: u64, src: u64, wide: bool)
    requires Chooses(k)
    ensures var a, b := Narrow(current, AmoWidth(wide)), Narrow(src, AmoWidth(wide));
      AmoValue(k, current, src, wide) == if Holds(ChoiceCond(k), Compare(b, a, SizeOfAmo(wide))) then b else a
  {
    hide Compare, Holds;
    if wide {
      CompareHolds(ChoiceCond(k), src, current);
    } else {
      hide Signed32;
      LowerHalf(current);
      LowerHalf(src);
      CompareHolds32(Wrap32(src), Wrap32(current));
    }
  }

  /** Registers other than RCX survive the action. */
  predicate OnlyCx(c: Cpu, d: Cpu) {
    d == c.(rcx := d.rcx, flags := d.flags)
  }

  lemma LogicAction(env: Env, k: AmoKind, wide: bool, current: u64, src: u64, rest: seq<Item>, c: Cpu, junk: Leavings) returns (d: Cpu)
    requires (k == AmoAnd || k == AmoOr || k == AmoXor)
    requires c.rcx == Narrow(current, AmoWidth(wide)) && c.rdx == Narrow(src, AmoWidth(wide))
    ensures RunBlock(env, AmoAction(k, SizeOfAmo(wide), AmoWidth(wide)) + rest, c, junk) == RunBlock(env, rest, d, junk)
    ensures OnlyCx(c, d) && Narrow(d.rcx, AmoWidth(wide)) == AmoValue(k, current, src, wide)
  {
    hide RunBlock, Words.And, Words.Or, Words.Xor;
    var size := SizeOfAmo(wide);
    var op := if k == AmoAnd then AndOp else if k == AmoOr then OrOp else XorOp;
    var i := Alu(op, Reg(RCX, size), L(Reg(RDX, size)));
    InstrRuns(env, i, rest, c, junk);
    Halved(current);
    Halved(src);
    d := Exec(i, c);
    Halved(AluResult(op, c.rcx, c.rdx, size));
  }

  lemma ChoiceAction(env: Env, k: AmoKind, wide: bool, current: u64, src: u64, rest: seq<Item>, c: Cpu, junk: Leavings) returns (d: Cpu)
    requires Chooses(k)
    requires c.rcx == Narrow(current, AmoWidth(wide)) && c.rdx == Narrow(src, AmoWidth(wide))
    ensures RunBlock(env, AmoAction(k, SizeOfAmo(wide), AmoWidth(wide)) + rest, c, junk) == RunBlock(env, rest, d, junk)
    ensures OnlyCx(c, d) && Narrow(d.rcx, AmoWidth(wide)) == AmoValue(k, current, src, wide)
  {
    hide RunBlock, Compare, Holds, AmoValue;
    var size, width := SizeOfAmo(wide), AmoWidth(wide);
    var i := Cmp(Reg(RDX, size), L(Reg(RCX, size)));
    var cc := ChoiceCond(k);
    assert AmoAction(k, size, width) + rest == [I(i)] + ([CmovCx(cc, width)] + rest);
    InstrRuns(env, i, [CmovCx(cc, width)] + rest, c, junk);
    Halved(current);
    Halved(src);
    var c1 := Exec(i, c);
    assert c1 == c.(flags := Compare(c.rdx, c.rcx, size));
    CmovRuns(env, cc, width, rest, c1, junk);
    d := DoCmov(c1, cc, width);
    ChoiceIs(k, current, src, wide);
    NarrowIs(current, wide);
    NarrowIs(src, wide);
  }

  /** The hart after the operation. */
  function AmoHart(env: Env, h: Hart, k: AmoKind, rd: nat, rs2: nat, wide: bool, addr: u64): Hart {
    var w := AmoWidth(wide);
    var current := env.load(h.world, addr, w);
    WriteX(h.(world := env.store(h.world, addr, w, AmoValue(k, current, ReadX(h, rs2), wide))), rd, Extend(current, w, true))
  }

  lemma SimpleAmo(env: Env, k: AmoKind, rd: nat, rs2: nat, wide: bool, rest: seq<Item>, c: Cpu, junk: Leavings) returns (d: Cpu)
    requires Ready(c) && rd < 32 && rs2 < 32 && SingleInstruction(k, rd)
    ensures RunBlock(env, EmitAmo(k, rd, rs2, wide) + rest, c, junk) == RunBlock(env, rest, d, junk)
    ensures d.ok && d.hart == AmoHart(env, c.hart, k, rd, rs2, wide, c.rsi)
  {
    hide RunBlock, Run, Exec, Plain, LoadReg, StoreReg, AmoValue, RmwValue, Extend, Narrow, Lower, Stored;
    var size, width := SizeOfAmo(wide), AmoWidth(wide);
    var load, rmw, store := LoadReg(RAX, size, rs2), AmoRmw(k, rd), StoreReg(rd, RAX, size);
    assert EmitAmo(k, rd, rs2, wide) + rest == Plain([load]) + ([Rmw(rmw, width)] + (Plain(store) + rest));
    PlainRuns(env, [load], [Rmw(rmw, width)] + (Plain(store) + rest), c, junk);
    Run1(load, c);
    LoadRegRuns(RAX, size, rs2, c);
    var c1 := Exec(load, c);
    RmwRuns(env, rmw, width, Plain(store) + rest, c1, junk);
    var current := env.load(c.hart.world, c.rsi, width);
    RmwIs(k, rd, current, ReadX(c.hart, rs2), wide);
    NarrowIs(current, wide);
    var c2 := DoRmw(env, c1, rmw, width);
    PlainRuns(env, store, rest, c2, junk);
    StoreRegRuns(rd, RAX, size, c2);
    d := Run(store, c2);
  }

  lemma LoopAmo(env: Env, k: AmoKind, rd: nat, rs2: nat, wide: bool, rest: seq<Item>, c: Cpu, junk: Leavings) returns (d: Cpu)
    requires Ready(c) && rd < 32 && rs2 < 32 && !SingleInstruction(k, rd)
    ensures RunBlock(env, EmitAmo(k, rd, rs2, wide) + rest, c, junk) == RunBlock(env, rest, d, junk)
    ensures d.ok && d.hart == AmoHart(env, c.hart, k, rd, rs2, wide, c.rsi)
  {
    hide RunBlock, Run, Exec, Plain, LoadReg, StoreReg, AmoAction, AmoValue, Extend, Narrow, Lower, Stored;
    var size, width := SizeOfAmo(wide), AmoWidth(wide);
    var src := ReadX(c.hart, rs2);
    var load, copy, store := LoadReg(RDX, size, rs2), Mov(Reg(RCX, size), L(Reg(RAX, size))), StoreReg(rd, RAX, size);
    var last := [Cmpxchg(width)] + (Plain(store) + rest);
    var action := AmoAction(k, size, width);
    assert EmitAmo(k, rd, rs2, wide) + rest == Plain([load]) + ([LoadAx(width)] + (Plain([copy]) + (action + last)));
    PlainRuns(env, [load], [LoadAx(width)] + (Plain([copy]) + (action + last)), c, junk);
    Run1(load, c);
    LoadRegRuns(RDX, size, rs2, c);
    var c1 := Exec(load, c);
    LoadAxRuns(env, width, Plain([copy]) + (action + last), c1, junk);
    var current := env.load(c.hart.world, c.rsi, width);
    var c2 := c1.(rax := Narrow(current, width));
    PlainRuns(env, [copy], action + last, c2, junk);
    Run1(copy, c2);
    NarrowIs(current, wide);
    NarrowIs(src, wide);
    CopyRuns(c2, size);
    NarrowIs(c2.rax, wide);
    var c3 := Exec(copy, c2);
    var c4;
    if Chooses(k) {
      c4 := ChoiceAction(env, k, wide, current, src, last, c3, junk);
    } else {
      c4 := LogicAction(env, k, wide, current, src, last, c3, junk);
    }
    CmpxchgRuns(env, width, Plain(store) + rest, c4, junk);
    var c5 := DoCmpxchg(env, c4, width);
    PlainRuns(env, store, rest, c5, junk);
    StoreRegRuns(rd, RAX, size, c5);
    d := Run(store, c5);
  }

  lemma CopyRuns(c: Cpu, size: Size)
    requires size == Dword || size == Qword
    ensures Exec(Mov(Reg(RCX, size), L(Reg(RAX, size))), c) == c.(rcx := Lower(Lower(c.rax, size), size))
    ensures Lower(Lower(c.rax, size), size) == Lower(c.rax, size)
  {
    Halved(c.rax);
  }

  // ----- the compare-exchange loop against other harts -----

  /** One pass of the loop, up to its compare-exchange. */
  function Pass(env: Env, k: AmoKind, wide: bool, c: Cpu, junk: Leavings): Cpu {
    var size := SizeOfAmo(wide);
    RunBlock(env, Plain([Mov(Reg(RCX, size), L(Reg(RAX, size)))]) + AmoAction(k, size, AmoWidth(wide)), c, junk).c
  }

  /** The loop, where `worlds` is what other harts have made of the world by each compare-exchange. */
  function Retry(env: Env, k: AmoKind, wide: bool, c: Cpu, worlds: seq<World>, junk: Leavings): Option<Cpu>
    decreases |worlds|
  {
    if worlds == [] then None
    else
      var d, w, width := Pass(env, k, wide, c, junk), worlds[0], AmoWidth(wide);
      var m := env.load(w, d.rsi, width);
      if Narrow(m, width) == Narrow(d.rax, width) then
        Some(d.(hart := d.hart.(world := env.store(w, d.rsi, width, Narrow(d.rcx, width))), flags := Undefined))
      else Retry(env, k, wide, d.(rax := Narrow(m, width), hart := d.hart.(world := w), flags := Undefined), worlds[1..], junk)
  }

  lemma PassRuns(env: Env, k: AmoKind, wide: bool, current: u64, src: u64, c: Cpu, junk: Leavings)
    requires Chooses(k) || k == AmoAnd || k == AmoOr || k == AmoXor
    requires c.rax == Narrow(current, AmoWidth(wide)) && c.rdx == Narrow(src, AmoWidth(wide))
    ensures var d := Pass(env, k, wide, c, junk);
      OnlyCx(c, d) && Narrow(d.rcx, AmoWidth(wide)) == AmoValue(k, current, src, wide)
  {
    hide RunBlock, Run, Exec, Plain, AmoAction, AmoValue, Narrow, Lower;
    var size, width := SizeOfAmo(wide), AmoWidth(wide);
    var copy, action := Mov(Reg(RCX, size), L(Reg(RAX, size))), AmoAction(k, size, width);
    PlainRuns(env, [copy], action, c, junk);
    Run1(copy, c);
    NarrowIs(current, wide);
    NarrowIs(c.rax, wide);
    CopyRuns(c, size);
    var c1 := Exec(copy, c);
    var d;
    assert action + [] == action;
    if Chooses(k) {
      d := ChoiceAction(env, k, wide, current, src, [], c1, junk);
    } else {
      d := LogicAction(env, k, wide, current, src, [], c1, junk);
    }
    EmptyFalls(env, d, junk);
  }

  /** Only the bytes of the operation count. */
  lemma AmoNarrow(k: AmoKind, a: u64, b: u64, src: u64, wide: bool)
    requires Narrow(a, AmoWidth(wide)) == Narrow(b, AmoWidth(wide))
    ensures AmoValue(k, a, src, wide) == AmoValue(k, b, src, wide)
  {
    hide Words.And, Words.Or, Words.Xor;
    LowerHalf(a);
    LowerHalf(b);
  }

  /** However often other harts interfere, a loop that ends has done the whole operation at one of
      its compare-exchanges: on what memory held there, returning exactly that. */
  lemma {:induction false} RetryAtomic(env: Env, k: AmoKind, wide: bool, current: u64, src: u64, c: Cpu, worlds: seq<World>, junk: Leavings) returns (n: nat)
    requires Chooses(k) || k == AmoAnd || k == AmoOr || k == AmoXor
    requires c.rax == Narrow(current, AmoWidth(wide)) && c.rdx == Narrow(src, AmoWidth(wide))
    requires Retry(env, k, wide, c, worlds, junk).Some?
    ensures n < |worlds|
    ensures var d, width := Retry(env, k, wide, c, worlds, junk).value, AmoWidth(wide);
      var m := env.load(worlds[n], c.rsi, width);
      && d.rax == Narrow(m, width) && d.ok == c.ok
      && d.hart == c.hart.(world := env.store(worlds[n], c.rsi, width, AmoValue(k, m, src, wide)))
    decreases |worlds|
  {
    hide Pass, AmoValue, Narrow;
    PassRuns(env, k, wide, current, src, c, junk);
    var d, w, width := Pass(env, k, wide, c, junk), worlds[0], AmoWidth(wide);
    var m := env.load(w, d.rsi, width);
    NarrowIs(current, wide);
    if Narrow(m, width) == Narrow(d.rax, width) {
      n := 0;
      AmoNarrow(k, current, m, src, wide);
    } else {
      var c' := d.(rax := Narrow(m, width), hart := d.hart.(world := w), flags := Undefined);
      var later := RetryAtomic(env, k, wide, m, src, c', worlds[1..], junk);
      n := later + 1;
    }
  }

  lemma AmoRuns(env: Env, op: Op, len: nat, rest: seq<Item>, c: Cpu, junk: Leavings, pc: int, instret: int) returns (d: Cpu)
    requires Ready(c) && op.Amo? && ValidOp(op) && InRange(pc, instret)
    ensures Follows(env, RunBlock(env, EmitOp(op, len, pc, instret) + rest, c, junk), rest, junk,
                    Step(env, Ahead(c.hart, pc, instret), op, len), c, d, pc + len, instret + 1)
  {
    hide RunBlock, Run, Exec, Plain, LoadReg, EmitAmo, AmoValue, Extend, Unwind, GetEbx, Retire, Bytes, Wrap, Lower;
    var ebx, width := GetEbx(pc, instret), AmoWidth(op.wide);
    var load := LoadReg(RSI, Qword, op.rs1);
    var body := EmitAmo(op.ak, op.rd, op.rs2, op.wide) + rest;
    assert EmitOp(op, len, pc, instret) + rest == Plain([load]) + ([Access(width, true, ebx)] + body);
    PlainRuns(env, [load], [Access(width, true, ebx)] + body, c, junk);
    Run1(load, c);
    LoadRegRuns(RSI, Qword, op.rs1, c);
    var c1 := Exec(load, c);
    QwordLower(ReadX(c.hart, op.rs1));
    AccessRuns(env, width, true, ebx, body, c1, junk);
    var r := DoAccess(env, c1, width, true, junk(|body|));
    UnwindExact(c.hart, pc, instret);
    UnwindExact(r.0.hart, pc, instret);
    if c1.rsi % Bytes(width) != 0 {
      d := c1.(hart := Unwind(c1.hart, ebx));
    } else if !r.1 {
      d := r.0.(hart := Unwind(r.0.hart, ebx));
    } else {
      if SingleInstruction(op.ak, op.rd) {
        d := SimpleAmo(env, op.ak, op.rd, op.rs2, op.wide, rest, r.0, junk);
      } else {
        d := LoopAmo(env, op.ak, op.rd, op.rs2, op.wide, rest, r.0, junk);
      }
      hide SingleInstruction;
      var current := env.load(r.0.hart.world, r.0.rsi, width);
      AheadWrite(d.hart, pc, instret, 0, 0, len);
    }
  }

  lemma QwordLower(v: u64)
    ensures Lower(v, Qword) == v
  {
  }
}
