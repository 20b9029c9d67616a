/** Every instruction the translator compiles does what one `step` does. */
module DbtOp {
  import opened Words
  import opened Guest
  import opened X86
  import opened DbtOps
  import opened DbtBlock
  import opened DbtStep
  import opened DbtAmo
  import opened RiscvStep

  /** The main per-instruction result: the emitted code, from a hart whose context lags by
      `pc` bytes and `instret` instructions, does exactly what `step` does. */
  lemma OpRuns(env: Env, op: Op, len: nat, rest: seq<Item>, c: Cpu, junk: Leavings, pc: int, instret: int) returns (d: Cpu)
    requires Ready(c) && ValidOp(op) && len <= 4 && InRange(pc, instret) && Sound(env) && Batchable(env, op)
    ensures Follows(env, RunBlock(env, EmitOp(op, len, pc, instret) + rest, c, junk), rest, junk,
                    Step(env, Ahead(c.hart, pc, instret), op, len), c, d, pc + len, instret + 1)
  {
    hide RunBlock, EmitOp, Step, Follows, Ahead;
    match op
    case Load(_, _, _, _, _) => d := LoadRuns(env, op, len, rest, c, junk, pc, instret);
    case Store(_, _, _, _) => d := StoreRuns(env, op, len, rest, c, junk, pc, instret);
    case Amo(_, _, _, _, _) => d := AmoRuns(env, op, len, rest, c, junk, pc, instret);
    case Helper(n) => d := HelperRuns(env, n, len, rest, c, junk, pc, instret);
    case ReadCsr(_, _) => d := ReadCsrRuns(env, op, len, rest, c, junk, pc, instret);
    case WriteCsr(_, _) => d := WriteCsrRuns(env, op, len, rest, c, junk, pc, instret);
    case WriteCsrImm(_, _) => d := WriteCsrRuns(env, op, len, rest, c, junk, pc, instret);
    case System(n) => d := SystemRuns(env, n, len, rest, c, junk, pc, instret);
    case Branch(_, _, _, _) => d := BranchRuns(env, op, len, rest, c, junk, pc, instret);
    case Jal(_, _) => d := JalRuns(env, op, len, rest, c, junk, pc, instret);
    case Jalr(_, _, _) => d := JalrRuns(env, op, len, rest, c, junk, pc, instret);
    case _ => d := WritingRuns(env, op, len, rest, c, junk, pc, instret);
  }
}
