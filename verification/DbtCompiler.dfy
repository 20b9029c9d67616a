/** The compiler object and the loop that feeds it one page of guest code. */
module DbtCompiler {
  import opened Words
  import opened Guest
  import opened X86
  import opened DbtOps
  import opened DbtBlock
  import opened DbtTranslate
  import opened RiscvStep
  import opened Misalign

  // ----- appending to a block -----

  lemma {:induction false} CompileSnoc(units: seq<Unit>, u: Unit, pc: int, instret: int)
    ensures Compile(units + [u], Closed, pc, instret) ==
      Compile(units, Closed, pc, instret) + EmitUnit(u, pc + TotalLen(units), instret + |units|)
    ensures TotalLen(units + [u]) == TotalLen(units) + UnitLen(u)
    decreases |units|
  {
    hide EmitUnit;
    var all := units + [u];
    if units == [] {
      assert all[1..] == [];
    } else {
      assert all[0] == units[0] && all[1..] == units[1..] + [u];
      CompileSnoc(units[1..], u, pc + UnitLen(units[0]), instret + 1);
    }
  }

  lemma EmptyTail(pc: int, instret: int)
    ensures EmitEnding(Closed, pc, instret) == [] && TotalLen([]) == 0
  {
  }

  lemma TotalLenHead(units: seq<Unit>)
    requires units != []
    ensures TotalLen(units) == UnitLen(units[0]) + TotalLen(units[1..])
  {
  }

  lemma {:induction false} CompileEnds(units: seq<Unit>, e: Ending, pc: int, instret: int, at: int, count: int)
    requires at == pc + TotalLen(units) && count == instret + |units|
    ensures Compile(units, e, pc, instret) == Compile(units, Closed, pc, instret) + EmitEnding(e, at, count)
    decreases |units|
  {
    hide EmitUnit, EmitEnding, TotalLen;
    EmptyTail(pc, instret);
    if units == [] {
      assert Compile(units, Closed, pc, instret) == [];
    } else {
      TotalLenHead(units);
      CompileEnds(units[1..], e, pc + UnitLen(units[0]), instret + 1, at, count);
    }
  }

  lemma CompileOpen(units: seq<Unit>)
    ensures Compile(units, Open, 0, 0) == Compile(units, Closed, 0, 0) + EmitEnd(TotalLen(units), |units|)
  {
    hide Compile, TotalLen, EmitEnd;
    CompileEnds(units, Open, 0, 0, TotalLen(units), |units|);
  }

  lemma CompileCross(units: seq<Unit>, op: Op)
    ensures Compile(units, Cross(op), 0, 0) == Compile(units, Closed, 0, 0) + EmitCross(op, TotalLen(units), |units|)
  {
    hide Compile, TotalLen, EmitCross;
    CompileEnds(units, Cross(op), 0, 0, TotalLen(units), |units|);
  }

  // ----- the guest program as a privilege level sees it -----

  /** What an instruction above the privilege level is compiled as. */
  const Illegal: Op := System(0)

  /** The privilege level each instruction needs; the illegal one needs none. */
  type Levels = level: Op -> nat | level(Illegal) == 0 witness (op: Op) => 0

  /** A guest program, and the level it is translated for. */
  datatype Program = Program(fetch: Fetch, level: Levels, prv: nat)

  function Checked(p: Program, i: Insn): (r: Insn)
    requires ValidInsn(i)
    ensures ValidInsn(r) && r.len == i.len && p.level(r.op) <= p.prv
  {
    if p.prv < p.level(i.op) then Insn(Illegal, i.len) else i
  }

  /** The instruction the translator takes at a program counter. */
  function Take(p: Program, pc: u64): (i: Insn)
    ensures ValidInsn(i) && i.len == p.fetch(pc).len
  {
    Checked(p, p.fetch(pc))
  }

  function Seen(p: Program): Fetch { (pc: u64) => Take(p, pc) }

  /** The unit at offset `pc`; the second instruction of a pair is taken as it is. */
  predicate FoundAt(p: Program, base: u64, u: Unit, pc: int) {
    ValidUnit(u) &&
    match u
    case One(i) => Take(p, Wrap(base + pc)) == i
    case Pair(b, i) => Take(p, Wrap(base + pc)) == b && p.fetch(Wrap(base + pc + b.len)) == i
  }

  predicate Found(p: Program, base: u64, units: seq<Unit>, e: Ending, pc: int)
    decreases |units|
  {
    if units == [] then e.Cross? ==> Take(p, Wrap(base + pc)) == Insn(e.op, 4)
    else FoundAt(p, base, units[0], pc) && Found(p, base, units[1..], e, pc + UnitLen(units[0]))
  }

  predicate Permitted(p: Program, u: Unit) { u.Pair? ==> p.level(u.i.op) <= p.prv }

  /** What is compiled is the program that the privilege level sees if and only if no fused pair
      has a second instruction above the level. */
  lemma {:induction false} PairsUnchecked(p: Program, base: u64, units: seq<Unit>, e: Ending, pc: int)
    requires Found(p, base, units, e, pc)
    ensures Laid(Seen(p), base, units, e, pc) <==> forall u <- units :: Permitted(p, u)
    decreases |units|
  {
    hide Wrap, FoundAt, At, Permitted, UnitLen, Take;
    if units != [] {
      var u := units[0];
      assert units == [u] + units[1..];
      PairsUnchecked(p, base, units[1..], e, pc + UnitLen(u));
      UnitUnchecked(p, base, u, pc);
    }
  }

  lemma UnitUnchecked(p: Program, base: u64, u: Unit, pc: int)
    requires FoundAt(p, base, u, pc)
    ensures At(Seen(p), base, u, pc) <==> Permitted(p, u)
  {
    hide Wrap;
  }

  /** A branch over SRET at address 0, in user mode. */
  function SretProgram(): Program {
    Program((pc: u64) => if pc == 4 then Insn(System(1), 4) else Insn(Branch(Beq, 0, 0, 8), 4),
            (op: Op) => if op == System(1) then 1 else 0, 0)
  }

  /** The branch is fused with the SRET, although the program seen has an illegal instruction there. */
  lemma UncheckedWitness()
    ensures var p := SretProgram();
      && NextUnit(p, 0, 0, 4096, true) == Pair(Insn(Branch(Beq, 0, 0, 8), 4), Insn(System(1), 4))
      && !Permitted(p, NextUnit(p, 0, 0, 4096, true)) && Seen(p)(4) == Insn(Illegal, 4)
  {
  }

  lemma {:induction false} FoundSnoc(p: Program, base: u64, units: seq<Unit>, u: Unit, pc: int)
    requires Found(p, base, units, Open, pc) && FoundAt(p, base, u, pc + TotalLen(units))
    ensures Found(p, base, units + [u], Open, pc)
    decreases |units|
  {
    hide FoundAt;
    var all := units + [u];
    if units == [] {
      assert all[1..] == [];
    } else {
      assert all[0] == units[0] && all[1..] == units[1..] + [u];
      FoundSnoc(p, base, units[1..], u, pc + UnitLen(units[0]));
    }
  }

  lemma {:induction false} FoundEnds(p: Program, base: u64, units: seq<Unit>, e: Ending, pc: int)
    requires Found(p, base, units, Open, pc)
    requires e.Cross? ==> Take(p, Wrap(base + (pc + TotalLen(units)))) == Insn(e.op, 4)
    ensures Found(p, base, units, e, pc)
    decreases |units|
  {
    hide FoundAt;
    if units != [] {
      FoundEnds(p, base, units[1..], e, pc + UnitLen(units[0]));
    }
  }

  class DbtCompiler {
    /** The code emitted so far. */
    var buffer: seq<Item>
    /** Offset of the current instruction, and of the one after it, from the context's pc. */
    var pcCur: int
    var pcEnd: int
    /** Instructions retired since the context's instret. */
    var instret: int

    /** What has been compiled. */
    ghost var units: seq<Unit>

    ghost predicate Valid()
      reads this
    {
      buffer == Compile(units, Closed, 0, 0) && pcCur == TotalLen(units) && instret == |units|
    }

    constructor ()
      ensures Valid() && units == []
    {
      buffer := [];
      pcCur := 0;
      pcEnd := 0;
      instret := 0;
      units := [];
    }

    method CompileOp(i: Insn)
      requires Valid()
      modifies this
      ensures Valid() && units == old(units) + [One(i)]
    {
      hide EmitOp, Compile, TotalLen;
      pcEnd := pcCur + i.len;
      buffer := buffer + EmitOp(i.op, i.len, pcCur, instret);
      pcCur := pcEnd;
      instret := instret + 1;
      CompileSnoc(units, One(i), 0, 0);
      units := units + [One(i)];
    }

    method CompileCondOp(b: Insn, i: Insn)
      requires Valid() && b.op.Branch?
      modifies this
      ensures Valid() && units == old(units) + [Pair(b, i)]
    {
      hide EmitFused, Compile, TotalLen;
      pcEnd := pcCur + b.len + i.len;
      buffer := buffer + EmitFused(b.op.bk, b.op.rs1, b.op.rs2, b.len, i.op, i.len, pcCur, instret);
      pcCur := pcEnd;
      instret := instret + 1;
      CompileSnoc(units, Pair(b, i), 0, 0);
      units := units + [Pair(b, i)];
    }

    /** Finish with a fall-through. */
    method End()
      requires Valid()
      modifies this
      ensures units == old(units) && buffer == Compile(units, Open, 0, 0)
    {
      hide EmitEnd, Compile, TotalLen;
      CompileOpen(units);
      buffer := buffer + EmitEnd(pcCur, instret);
    }

    /** Finish with an instruction that straddles the page end. */
    method EndCross(op: Op)
      requires Valid()
      modifies this
      ensures units == old(units) && buffer == Compile(units, Cross(op), 0, 0)
    {
      hide EmitCross, Compile, TotalLen;
      CompileCross(units, op);
      buffer := buffer + EmitCross(op, pcCur, instret);
    }
  }

  /** An instruction of four bytes whose second half would be on the next page. */
  predicate Straddles(i: Insn, at: int, room: int) {
    i.len == 4 && at + 2 == room
  }

  lemma EvenGap(at: int, room: int)
    requires at < room && at % 2 == 0 && room % 2 == 0
    ensures at + 2 <= room && (at + 2 == room || at + 4 <= room)
    ensures at + 2 == room || at + 4 == room || at + 6 <= room
    ensures at + 6 >= room || at + 8 <= room
    ensures at + 8 <= room || at + 6 == room || at + 4 == room || at + 2 == room
  {
  }

  /** The next unit: a branch over exactly one instruction of this page is fused with it. */
  function NextUnit(p: Program, base: u64, at: int, room: int, canFuse: bool): (u: Unit)
    requires 0 <= at < room && at % 2 == 0 && room % 2 == 0 && !Straddles(Take(p, Wrap(base + at)), at, room)
    ensures FoundAt(p, base, u, at)
    ensures at + UnitLen(u) <= room && UnitLen(u) % 2 == 0 && UnitLen(u) >= 2
  {
    EvenGap(at, room);
    var i := Take(p, Wrap(base + at));
    var next := at + i.len;
    if next != room && canFuse && i.op.Branch? then
      var j := p.fetch(Wrap(base + at + i.len));
      if i.op.imm == i.len + j.len && !Straddles(j, next, room) then Pair(i, j) else One(i)
    else One(i)
  }

  /** Compile one unit that the program holds at the compiler's position. */
  method Feed(compiler: DbtCompiler, p: Program, base: u64, u: Unit)
    requires compiler.Valid() && Found(p, base, compiler.units, Open, 0)
    requires FoundAt(p, base, u, compiler.pcCur)
    modifies compiler
    ensures compiler.Valid() && compiler.units == old(compiler.units) + [u]
    ensures Found(p, base, compiler.units, Open, 0)
    ensures compiler.pcCur == old(compiler.pcCur) + UnitLen(u)
  {
    hide EmitUnit, EmitEnding, Compile, TotalLen, FoundAt, Found;
    FoundSnoc(p, base, compiler.units, u, 0);
    CompileSnoc(compiler.units, u, 0, 0);
    AtBranch(p, base, u, compiler.pcCur);
    match u {
      case One(i) => compiler.CompileOp(i);
      case Pair(b, i) => compiler.CompileCondOp(b, i);
    }
  }

  /** `code` is the compiled form of the units found from `base` on, within one page. */
  predicate Translates(p: Program, base: u64, code: seq<Item>, units: seq<Unit>, e: Ending) {
    && code == Compile(units, e, 0, 0) && Found(p, base, units, e, 0) && Ends(units, e)
    && TotalLen(units) <= 4096 - base % 4096 && GoesOn(units, e, 4096 - base % 4096)
  }

  /** A unit after which the translator ends the block. */
  predicate Terminal(u: Unit) { Closes(u) || (u.One? && u.i.op.Branch?) }

  /** The block goes on as far as it can: to the first terminal unit, or to the end of the page. */
  predicate GoesOn(units: seq<Unit>, e: Ending, room: int) {
    && (forall k :: 0 <= k < |units| - 1 ==> !Terminal(units[k]))
    && match e
       case Open => units != [] && (TotalLen(units) == room || Terminal(units[|units| - 1]))
       case Cross(_) => TotalLen(units) + 2 == room && (units != [] ==> !Terminal(units[|units| - 1]))
       case Closed => units != [] && Terminal(units[|units| - 1])
  }

  /** Translate from `base` to the end of the block or of the page. */
  method TranslateCode(p: Program, base: u64, canFuse: bool) returns (code: seq<Item>, ghost units: seq<Unit>, ghost e: Ending)
    requires base % 2 == 0
    ensures Translates(p, base, code, units, e)
  {
    hide EmitUnit, EmitEnding, Compile, TotalLen, NextUnit, FoundAt, Found, Take, Wrap, UnitLen, Closes, Terminal, Going, Translates;
    var room := 4096 - base % 4096;
    var compiler := new DbtCompiler();
    var at := 0;
    Nothing(p, base);
    while true
      invariant compiler.Valid() && fresh(compiler)
      invariant at == compiler.pcCur && 0 <= at < room && at % 2 == 0
      invariant Found(p, base, compiler.units, Open, 0) && Going(compiler.units)
      decreases room - at
    {
      var i := Take(p, Wrap(base + at));
      if Straddles(i, at, room) {
        compiler.EndCross(i.op);
        FinishCross(p, base, compiler.buffer, compiler.units, i.op);
        return compiler.buffer, compiler.units, Cross(i.op);
      }
      var u := NextUnit(p, base, at, room, canFuse);
      ghost var before := compiler.units;
      Feed(compiler, p, base, u);
      at := at + UnitLen(u);
      if Closes(u) {
        FinishClosed(p, base, compiler.buffer, before, u);
        return compiler.buffer, before + [u], Closed;
      }
      if at == room || (u.One? && u.i.op.Branch?) {
        compiler.End();
        FinishOpen(p, base, compiler.buffer, before, u);
        return compiler.buffer, before + [u], Open;
      }
      GoingSnoc(before, u);
    }
  }

  /** No unit so far ends the block. */
  predicate Going(units: seq<Unit>) { forall k :: 0 <= k < |units| ==> !Terminal(units[k]) }

  lemma GoingSnoc(units: seq<Unit>, u: Unit)
    requires Going(units) && !Closes(u) && !(u.One? && u.i.op.Branch?)
    ensures Going(units + [u])
  {
  }

  lemma FinishCross(p: Program, base: u64, code: seq<Item>, units: seq<Unit>, op: Op)
    requires code == Compile(units, Cross(op), 0, 0) && Found(p, base, units, Open, 0) && Going(units)
    requires TotalLen(units) + 2 == 4096 - base % 4096
    requires Take(p, Wrap(base + TotalLen(units))) == Insn(op, 4)
    ensures Translates(p, base, code, units, Cross(op))
  {
    hide Compile, TotalLen, Found, Wrap, Terminal;
    FoundEnds(p, base, units, Cross(op), 0);
  }

  lemma FinishClosed(p: Program, base: u64, code: seq<Item>, units: seq<Unit>, u: Unit)
    requires code == Compile(units + [u], Closed, 0, 0) && Found(p, base, units + [u], Open, 0)
    requires Going(units) && Closes(u) && TotalLen(units + [u]) <= 4096 - base % 4096
    ensures Translates(p, base, code, units + [u], Closed)
  {
    hide Compile, TotalLen, Found, Closes;
    FoundEnds(p, base, units + [u], Closed, 0);
  }

  lemma FinishOpen(p: Program, base: u64, code: seq<Item>, units: seq<Unit>, u: Unit)
    requires code == Compile(units + [u], Open, 0, 0) && Found(p, base, units + [u], Open, 0)
    requires Going(units) && TotalLen(units + [u]) <= 4096 - base % 4096
    requires TotalLen(units + [u]) == 4096 - base % 4096 || (u.One? && u.i.op.Branch?)
    ensures Translates(p, base, code, units + [u], Open)
  {
    hide Compile, TotalLen, Found, Closes;
  }

  lemma AtBranch(p: Program, base: u64, u: Unit, at: int)
    requires FoundAt(p, base, u, at)
    ensures u.Pair? ==> u.b.op.Branch?
  {
  }

  lemma Nothing(p: Program, base: u64)
    ensures TotalLen([]) == 0 && Found(p, base, [], Open, 0) && Going([])
  {
  }

  /**
   * A translated block, entered at its first instruction, is a run of the interpreter over the
   * program that the privilege level sees, handed to the handler where it traps for an address.
   */
  lemma TranslationRuns(env: Env, p: Program, code: seq<Item>, units: seq<Unit>, e: Ending, c: Cpu, junk: Leavings) returns (n: nat)
    requires Ready(c) && Sound(env) && Translates(p, c.hart.pc, code, units, e) && forall u <- units :: Permitted(p, u)
    requires (forall u <- units :: UnitBatchable(env, u)) && EndingBatchable(env, e)
    ensures n >= 1 && Matches(RunBlock(env, code, c, junk), Steps(env, Seen(p), Next(c.hart), n))
    ensures var final := Final(env, RunBlock(env, code, c, junk));
      && final == Resolve(env, Steps(env, Seen(p), Next(c.hart), n))
      && (final == Steps(env, Seen(p), Next(c.hart), n) <==> AllAligned(env, Seen(p), Next(c.hart), n))
  {
    hide RunBlock, Steps, Compile, Laid, Found, Sound, Permitted, UnitBatchable, EndingBatchable, Matches, Final, AllAligned, HandleMisalign, Seen;
    PairsUnchecked(p, c.hart.pc, units, e, 0);
    AheadZero(c.hart);
    n := BlockExact(env, Seen(p), units, e, c, junk, 0, 0);
  }
}
