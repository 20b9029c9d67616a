/**
 The handler that translated code enters at a load, store or atomic whose address is not aligned:
 it fetches the instruction once more and completes loads and stores byte by byte.
 */
module Misalign {
  import opened Wrappers
  import opened Words
  import opened Guest
  import opened RiscvStep
  import opened Euclid

  // ---- bytes, low byte first

  function LeValue(bytes: seq<u64>): nat {
    if bytes == [] then 0 else bytes[0] % 0x100 + 0x100 * LeValue(bytes[1..])
  }

  function LeBytes(v: nat, n: nat): (bytes: seq<u64>)
    ensures |bytes| == n
    decreases n
  {
    if n == 0 then [] else [v % 0x100] + LeBytes(v / 0x100, n - 1)
  }

  /** The `n` bytes of memory from `p` on. */
  function BytesAt(env: Env, w: World, p: u64, n: nat): (bytes: seq<u64>)
    ensures |bytes| == n
    decreases n
  {
    if n == 0 then [] else [env.load(w, p, W8)] + BytesAt(env, w, Wrap(p + 1), n - 1)
  }

  function StoreBytes(env: Env, w: World, p: u64, bytes: seq<u64>): World
    decreases |bytes|
  {
    if bytes == [] then w else StoreBytes(env, env.store(w, p, W8, bytes[0]), Wrap(p + 1), bytes[1..])
  }

  /** Memory is an array of bytes, and wider accesses are several of them. */
  ghost predicate Bytewise(env: Env) {
    && (forall w: World, p: u64, width: Width :: env.load(w, p, width) == Wrap(LeValue(BytesAt(env, w, p, Bytes(width)))))
    && (forall w: World, p: u64, width: Width, v: u64 ::
          env.store(w, p, width, v) == StoreBytes(env, w, p, LeBytes(v, Bytes(width))))
  }

  // ---- copying through the level-0 cache

  function LineOf(env: Env, a: u64): u64 { a / env.lineSize }

  /** No line has this number, or so the copy loops take it. */
  function NoLine(a: u64): u64 { W - 1 - a }

  /** Read `n` bytes from `virt` on, translating again at each new line; `phys` is where the line
      numbered `line` goes on. */
  function CopyFrom(env: Env, w: World, virt: u64, phys: u64, line: u64, n: nat): (r: (World, Option<seq<u64>>))
    ensures r.1.Some? ==> |r.1.value| == n
    decreases n
  {
    if n == 0 then (w, Some([]))
    else
      var (w', p) := if LineOf(env, virt) != line then env.translate(w, virt, false) else (w, Some(phys));
      if p.None? then (w', None)
      else
        var (w'', more) := CopyFrom(env, w', Wrap(virt + 1), Wrap(p.value + 1), LineOf(env, virt), n - 1);
        (w'', Before([env.load(w', p.value, W8)], more))
  }

  function Before(bytes: seq<u64>, more: Option<seq<u64>>): Option<seq<u64>> {
    if more.None? then None else Some(bytes + more.value)
  }

  lemma BeforeAll(a: seq<u64>, b: seq<u64>, more: Option<seq<u64>>)
    ensures Before(a, Before(b, more)) == Before(a + b, more) && Before([], more) == more
  {
    if more.Some? {
      assert a + (b + more.value) == a + b + more.value && [] + more.value == more.value;
    }
  }

  /** Write bytes from `virt` on in the same way; false if a translation fails. */
  function CopyTo(env: Env, w: World, virt: u64, phys: u64, line: u64, bytes: seq<u64>): (r: (World, bool))
    decreases |bytes|
  {
    if bytes == [] then (w, true)
    else
      var (w', p) := if LineOf(env, virt) != line then env.translate(w, virt, true) else (w, Some(phys));
      if p.None? then (w', false)
      else CopyTo(env, env.store(w', p.value, W8, bytes[0]), Wrap(virt + 1), Wrap(p.value + 1), LineOf(env, virt), bytes[1..])
  }

  method CopyFromVirtAddr(env: Env, world: World, addr: u64, n: nat) returns (w: World, bytes: Option<seq<u64>>)
    ensures (w, bytes) == CopyFrom(env, world, addr, 0, NoLine(addr), n)
  {
    hide LineOf, Wrap, NoLine;
    var virt: u64, phys: u64, line: u64, slice: seq<u64> := addr, 0, NoLine(addr), [];
    w := world;
    ghost var goal := CopyFrom(env, world, addr, 0, NoLine(addr), n);
    BeforeAll([], [], goal.1);
    for i := 0 to n
      invariant |slice| == i
      invariant var rest := CopyFrom(env, w, virt, phys, line, n - i); goal == (rest.0, Before(slice, rest.1))
    {
      if LineOf(env, virt) != line {
        line := LineOf(env, virt);
        var t := env.translate(w, virt, false);
        w := t.0;
        if t.1.None? {
          return w, None;
        }
        phys := t.1.value;
      }
      BeforeAll(slice, [env.load(w, phys, W8)], CopyFrom(env, w, Wrap(virt + 1), Wrap(phys + 1), line, n - i - 1).1);
      slice := slice + [env.load(w, phys, W8)];
      virt, phys := Wrap(virt + 1), Wrap(phys + 1);
    }
    assert slice + [] == slice;
    bytes := Some(slice);
  }

  method CopyToVirtAddr(env: Env, world: World, addr: u64, slice: seq<u64>) returns (w: World, ok: bool)
    ensures (w, ok) == CopyTo(env, world, addr, 0, NoLine(addr), slice)
  {
    hide LineOf, Wrap, NoLine;
    var virt: u64, phys: u64, line: u64 := addr, 0, NoLine(addr);
    w := world;
    for i := 0 to |slice|
      invariant CopyTo(env, world, addr, 0, NoLine(addr), slice) == CopyTo(env, w, virt, phys, line, slice[i..])
    {
      assert slice[i..][1..] == slice[i + 1..];
      if LineOf(env, virt) != line {
        line := LineOf(env, virt);
        var t := env.translate(w, virt, true);
        w := t.0;
        if t.1.None? {
          return w, false;
        }
        phys := t.1.value;
      }
      w := env.store(w, phys, W8, slice[i]);
      virt, phys := Wrap(virt + 1), Wrap(phys + 1);
    }
    ok := true;
  }

  // ---- the handler

  /** A register write without the test for x0. */
  function SetX(h: Hart, r: nat, v: u64): (h': Hart) {
    if r < |h.x| then h.(x := h.x[r := v]) else h
  }

  /** The value that a load finds byte by byte, if every line can be read. */
  function Gathered(env: Env, w: World, addr: u64, width: Width, signed: bool): (r: (World, Option<u64>)) {
    var (w', bytes) := CopyFrom(env, w, addr, 0, NoLine(addr), Bytes(width));
    (w', if bytes.None? then None else Some(Extend(Wrap(LeValue(bytes.value)), width, signed)))
  }

  /** Write the low bytes of `v`. */
  function Scattered(env: Env, w: World, addr: u64, width: Width, v: u64): (r: (World, bool)) {
    CopyTo(env, w, addr, 0, NoLine(addr), LeBytes(Narrow(v, width), Bytes(width)))
  }

  /** From a hart whose pc is at the instruction. Whatever is neither a load nor a store of more
      than a byte is taken for an atomic. */
  function HandleMisalign(env: Env, h: Hart, addr: u64): (r: StepResult) {
    var (w, found) := env.insn(h.world, h.pc);
    if found.None? then Stop(Trap, h.(world := w))
    else Complete(env, h.(world := w), addr, found.value)
  }

  function Complete(env: Env, h: Hart, addr: u64, i: Insn): (r: StepResult) {
    if i.op.Load? && i.op.width != W8 then
      var (w, v) := Gathered(env, h.world, addr, i.op.width, i.op.signed);
      if v.None? then Stop(Trap, h.(world := w)) else Next(Retire(SetX(h.(world := w), i.op.rd, v.value), i.len))
    else if i.op.Store? && i.op.width != W8 then
      var (w, ok) := Scattered(env, h.world, addr, i.op.width, ReadX(h, i.op.rs2));
      if ok then Next(Retire(h.(world := w), i.len)) else Stop(Trap, h.(world := w))
    else Stop(AddressMisaligned(6, addr), h)
  }

  /** What the interpreter's result becomes when an address that is not aligned goes to the handler. */
  function Resolve(env: Env, r: StepResult): StepResult {
    if StopsMisaligned(r) then HandleMisalign(env, r.h, r.reason.addr) else r
  }

  /** Of the causes for such an address the handler raises only the one for atomics. */
  lemma HandlerCause(env: Env, r: StepResult)
    requires StopsMisaligned(r) && r.reason.cause < 6
    ensures Resolve(env, r) != r
  {
    hide Gathered, Scattered;
  }

  /** The handler never does what the interpreter does with such an address. */
  lemma HandlerDiffers(env: Env, h: Hart, op: Op, len: nat)
    requires ValidOp(op)
    ensures Resolve(env, Step(env, h, op, len)) == Step(env, h, op, len) <==> Aligned(h, op)
  {
    hide Step, Aligned, HandleMisalign;
    MisalignedTraps(env, h, op, len);
    if !Aligned(h, op) {
      HandlerCause(env, Step(env, h, op, len));
    }
  }

  /** A load into x0 that finds something else than zero. */
  predicate Spoils(env: Env, w: World, addr: u64, i: Insn) {
    i.op.Load? && i.op.width != W8 && i.op.rd == 0 &&
    var v := Gathered(env, w, addr, i.op.width, i.op.signed).1;
    v.Some? && v.value != 0
  }

  /** The zero register survives exactly unless a completed load into x0 finds something else. */
  lemma ZeroSurvives(env: Env, h: Hart, addr: u64)
    requires Valid(h)
    ensures var (w, found) := env.insn(h.world, h.pc);
      Valid(HandleMisalign(env, h, addr).h) <==> !(found.Some? && Spoils(env, w, addr, found.value))
  {
    var (w, found) := env.insn(h.world, h.pc);
    if found.Some? {
      CompleteZero(env, h.(world := w), addr, found.value);
    }
    hide Complete, Spoils;
  }

  lemma CompleteZero(env: Env, h: Hart, addr: u64, i: Insn)
    requires Valid(h)
    ensures Valid(Complete(env, h, addr, i).h) <==> !Spoils(env, h.world, addr, i)
  {
    hide Gathered, Scattered, Wrap;
  }

  // ---- within one line, and across two

  /** The `n` bytes from `a` on are in one line. */
  predicate InLine(env: Env, a: u64, n: nat) {
    a + n <= W && a % env.lineSize + n <= env.lineSize
  }

  lemma InLineRest(env: Env, a: u64, n: nat)
    requires InLine(env, a, n) && n > 1
    ensures InLine(env, Wrap(a + 1), n - 1) && LineOf(env, Wrap(a + 1)) == LineOf(env, a)
  {
    DivModUnique(a + 1, env.lineSize, a / env.lineSize, a % env.lineSize + 1);
  }

  /** Reading on from within a line takes the bytes of memory one after another. */
  lemma {:induction false} ReadsOn(env: Env, w: World, virt: u64, phys: u64, n: nat)
    requires InLine(env, virt, n)
    ensures CopyFrom(env, w, virt, phys, LineOf(env, virt), n) == (w, Some(BytesAt(env, w, phys, n)))
    decreases n
  {
    hide LineOf, InLine, Wrap;
    if n > 1 {
      InLineRest(env, virt, n);
      ReadsOn(env, w, Wrap(virt + 1), Wrap(phys + 1), n - 1);
    } else if n == 1 {
      assert CopyFrom(env, w, Wrap(virt + 1), Wrap(phys + 1), LineOf(env, virt), 0) == (w, Some([]));
      assert BytesAt(env, w, Wrap(phys + 1), 0) == [];
    }
  }

  /** Writing on from within a line stores the first `k` bytes one after another. */
  lemma {:induction false} WritesOn(env: Env, w: World, virt: u64, phys: u64, bytes: seq<u64>, k: nat)
    requires k <= |bytes| && InLine(env, virt, k)
    ensures CopyTo(env, w, virt, phys, LineOf(env, virt), bytes) ==
      CopyTo(env, StoreBytes(env, w, phys, bytes[..k]), Wrap(virt + k), Wrap(phys + k), LineOf(env, virt), bytes[k..])
    decreases k
  {
    hide LineOf, InLine, Wrap;
    if k == 0 {
      assert bytes[..0] == [] && bytes[0..] == bytes;
      WrapNothing(virt);
      WrapNothing(phys);
    } else {
      var w' := env.store(w, phys, W8, bytes[0]);
      assert bytes[..k][1..] == bytes[1..][..k - 1] && bytes[1..][k - 1..] == bytes[k..];
      WrapStep(virt, k);
      WrapStep(phys, k);
      if k > 1 {
        InLineRest(env, virt, k);
        WritesOn(env, w', Wrap(virt + 1), Wrap(phys + 1), bytes[1..], k - 1);
      } else {
        assert StoreBytes(env, w', Wrap(phys + 1), []) == w';
      }
    }
  }

  lemma WrapNothing(v: u64)
    ensures Wrap(v + 0) == v
  {
  }

  lemma WrapStep(v: u64, k: nat)
    requires k > 0
    ensures Wrap(Wrap(v + 1) + (k - 1)) == Wrap(v + k)
  {
  }

  /** The first line is translated, unless its number is taken for no line. */
  predicate FindsLine(env: Env, a: u64) { LineOf(env, a) != NoLine(a) }

  /** Within one line the handler loads what a single load from the translated address would,
      except for the missing test of x0. */
  lemma LoadInLine(env: Env, h: Hart, addr: u64, i: Insn)
    requires Bytewise(env) && i.op.Load? && i.op.width != W8 && i.op.rd != 0 && i.op.rd < |h.x|
    requires InLine(env, addr, Bytes(i.op.width)) && FindsLine(env, addr)
    ensures Complete(env, h, addr, i) == DoLoad(env, h, i.op.rd, addr, i.op.width, i.op.signed, i.len)
  {
    hide Extend, LeValue, Retire;
    var (w, p) := env.translate(h.world, addr, false);
    if p.Some? {
      var n := Bytes(i.op.width);
      ReadsOn(env, w, addr, p.value, n);
      FirstRead(env, h.world, addr, n);
    }
  }

  /** The first byte that is read finds its line. */
  lemma FirstRead(env: Env, w: World, addr: u64, n: nat)
    requires n > 0 && FindsLine(env, addr)
    ensures var (w', p) := env.translate(w, addr, false);
      CopyFrom(env, w, addr, 0, NoLine(addr), n) ==
      if p.None? then (w', None) else CopyFrom(env, w', addr, p.value, LineOf(env, addr), n)
  {
    hide LineOf, NoLine, Wrap;
  }

  lemma FirstWrite(env: Env, w: World, addr: u64, bytes: seq<u64>)
    requires bytes != [] && FindsLine(env, addr)
    ensures var (w', p) := env.translate(w, addr, true);
      CopyTo(env, w, addr, 0, NoLine(addr), bytes) ==
      if p.None? then (w', false) else CopyTo(env, w', addr, p.value, LineOf(env, addr), bytes)
  {
    hide LineOf, NoLine, Wrap;
  }

  /** The same for stores. */
  lemma StoreInLine(env: Env, h: Hart, addr: u64, i: Insn)
    requires Bytewise(env) && i.op.Store? && i.op.width != W8
    requires InLine(env, addr, Bytes(i.op.width)) && FindsLine(env, addr)
    ensures Complete(env, h, addr, i) == DoStore(env, h, i.op.rs2, addr, i.op.width, i.len)
  {
    hide LeBytes, Retire, Narrow, Wrap, LineOf;
    var bytes := LeBytes(Narrow(ReadX(h, i.op.rs2), i.op.width), Bytes(i.op.width));
    FirstWrite(env, h.world, addr, bytes);
    var (w, p) := env.translate(h.world, addr, true);
    if p.Some? {
      WritesOn(env, w, addr, p.value, bytes, |bytes|);
      assert bytes[..|bytes|] == bytes && bytes[|bytes|..] == [];
    }
  }

  /** A store that runs into a line that cannot be written traps, with its first bytes written. */
  lemma TornStore(env: Env, h: Hart, addr: u64, i: Insn, k: nat, first: World, p: u64)
    requires i.op.Store? && i.op.width != W8 && 0 < k < Bytes(i.op.width) && FindsLine(env, addr)
    requires InLine(env, addr, k) && LineOf(env, Wrap(addr + k)) != LineOf(env, addr)
    requires env.translate(h.world, addr, true) == (first, Some(p))
    requires var bytes := LeBytes(Narrow(ReadX(h, i.op.rs2), i.op.width), Bytes(i.op.width));
      env.translate(StoreBytes(env, first, p, bytes[..k]), Wrap(addr + k), true).1.None?
    ensures var bytes := LeBytes(Narrow(ReadX(h, i.op.rs2), i.op.width), Bytes(i.op.width));
      Complete(env, h, addr, i) ==
      Stop(Trap, h.(world := env.translate(StoreBytes(env, first, p, bytes[..k]), Wrap(addr + k), true).0))
  {
    hide LeBytes, Retire, Narrow, Wrap, LineOf, StoreBytes;
    var bytes := LeBytes(Narrow(ReadX(h, i.op.rs2), i.op.width), Bytes(i.op.width));
    FirstWrite(env, h.world, addr, bytes);
    WritesOn(env, first, addr, p, bytes, k);
  }

  /** Where a line's number is taken for no line, its first byte is read from physical address 0. */
  lemma LineMistaken(env: Env, w: World, addr: u64)
    requires !FindsLine(env, addr)
    ensures CopyFrom(env, w, addr, 0, NoLine(addr), 1) == (w, Some([env.load(w, 0, W8)]))
  {
    hide LineOf, NoLine;
    assert CopyFrom(env, w, Wrap(addr + 1), Wrap(0 + 1), LineOf(env, addr), 0) == (w, Some([]));
    assert [env.load(w, 0, W8)] + [] == [env.load(w, 0, W8)];
  }

  /** With lines of 64 bytes this odd address has such a line. */
  lemma MistakenWitness(env: Env)
    requires env.lineSize == 64
    ensures !FindsLine(env, 0xfc0f_c0fc_0fc0_fc0f)
  {
  }

  /** Memory full of ones, and a load into x0 wherever an instruction is looked for. */
  function OnesEnv(): Env {
    Env(64, (w: World, pc: u64) => (w, Some(Insn(RiscvStep.Load(0, 1, 0, W16, false), 4))), (w: World, a: u64, write: bool) => (w, Some(a)),
        (w: World, p: u64, width: Width) => 1, (w: World, p: u64, width: Width, v: u64) => w,
        (h: Hart, n: nat) => (h, false), (h: Hart, n: nat) => (h, None), (h: Hart, n: nat, v: u64) => (h, false), (h: Hart, n: nat) => (h, false))
  }

  lemma ZeroSpoiled(h: Hart)
    requires Valid(h)
    ensures !Valid(HandleMisalign(OnesEnv(), h, 1).h)
  {
    var env := OnesEnv();
    ReadsOn(env, h.world, 1, 1, 2);
    FirstRead(env, h.world, 1, 2);
    assert BytesAt(env, h.world, 1, 2) == [1, 1] by {
      assert BytesAt(env, h.world, 2, 1) == [1] + BytesAt(env, h.world, 3, 0);
    }
    assert LeValue([1, 1]) == 257 by {
      assert [1, 1][1..] == [1] && [1][1..] == [];
      assert LeValue([1]) == 1;
    }
    ZeroSurvives(env, h, 1);
  }
}
