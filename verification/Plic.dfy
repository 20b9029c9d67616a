/** The platform-level interrupt controller: 31 sources, any number of contexts. */
module Plic {
  import opened Wrappers
  import opened Powers

  const SOURCES: nat := 32

  /** The registers. Bit masks are sets of source numbers; bit 0 of an enable mask has no source. */
  datatype Regs = Regs(
    priority: seq<nat>,
    pending: set<nat>,
    claimed: set<nat>,
    enable: seq<set<nat>>,
    threshold: seq<nat>)

  predicate Shaped(r: Regs) {
    |r.priority| == SOURCES && |r.threshold| == |r.enable|
  }

  predicate Source(irq: nat) { 0 < irq < SOURCES }

  predicate Claimable(r: Regs, ctx: nat, irq: nat)
    requires Shaped(r) && ctx < |r.enable|
  {
    Source(irq) && irq in r.pending && irq !in r.claimed && irq in r.enable[ctx]
  }

  /** A source above the threshold of the context is waiting. */
  ghost predicate Pending(r: Regs, ctx: nat)
    requires Shaped(r) && ctx < |r.enable|
  {
    exists irq: nat :: Claimable(r, ctx, irq) && r.priority[irq] > r.threshold[ctx]
  }

  /** What a claim must answer: the highest priority, and among equals the lowest number. */
  ghost predicate IsBest(r: Regs, ctx: nat, irq: nat)
    requires Shaped(r) && ctx < |r.enable|
  {
    if irq == 0 then forall k: nat :: Claimable(r, ctx, k) ==> r.priority[k] == 0
    else
      && Claimable(r, ctx, irq) && r.priority[irq] > 0
      && (forall k: nat :: Claimable(r, ctx, k) ==> r.priority[k] <= r.priority[irq])
      && (forall k: nat :: Claimable(r, ctx, k) && k < irq ==> r.priority[k] < r.priority[irq])
  }

  lemma BestUnique(r: Regs, ctx: nat, a: nat, b: nat)
    requires Shaped(r) && ctx < |r.enable| && IsBest(r, ctx, a) && IsBest(r, ctx, b)
    ensures a == b
  {
  }

  /** A raised pin promises that the claim will find something. */
  lemma PinPromises(r: Regs, ctx: nat, irq: nat)
    requires Shaped(r) && ctx < |r.enable| && Pending(r, ctx) && IsBest(r, ctx, irq)
    ensures irq != 0 && r.priority[irq] > r.threshold[ctx]
  {
    var k: nat :| Claimable(r, ctx, k) && r.priority[k] > r.threshold[ctx];
  }

  datatype Step =
    | Trigger(irq: nat)
    | Claim(ctx: nat, irq: nat)
    | Complete(irq: nat)
    | SetPriority(irq: nat, value: nat)
    | SetEnable(ctx: nat, mask: set<nat>)
    | SetThreshold(ctx: nat, value: nat)

  function Claimed(r: Regs, irq: nat): Regs {
    if irq == 0 then r else r.(pending := r.pending - {irq}, claimed := r.claimed + {irq})
  }

  ghost predicate NextRegs(r: Regs, r': Regs, step: Step) {
    Shaped(r) &&
    match step
    case Trigger(irq) => Source(irq) && r' == r.(pending := r.pending + {irq})
    case Claim(ctx, irq) => ctx < |r.enable| && IsBest(r, ctx, irq) && r' == Claimed(r, irq)
    case Complete(irq) => irq < SOURCES && r' == r.(claimed := r.claimed - {irq})
    case SetPriority(irq, value) => Source(irq) && r' == r.(priority := r.priority[irq := value % 8])
    case SetEnable(ctx, mask) => ctx < |r.enable| && r' == r.(enable := r.enable[ctx := mask])
    case SetThreshold(ctx, value) => ctx < |r.enable| && r' == r.(threshold := r.threshold[ctx := value % 8])
  }

  // ---- register addresses

  /** The sources of a 32-bit mask. */
  function BitsOf(value: nat): set<nat> {
    set i: nat | i < SOURCES && Shr(value, i) % 2 == 1
  }

  /** What a register write asks for, or nothing: accesses of another size, to read-only or
      unused addresses, or to sources or contexts that do not exist are ignored, except that the
      number of a source to complete is taken modulo 32, as the shift by it is. */
  function WriteStep(contexts: nat, addr: nat, value: nat, size: nat): (step: Option<Step>) {
    var v := value % 0x1_0000_0000;
    if size != 4 then None
    else if addr <= 0xffc then
      if Source(addr / 4) then Some(SetPriority(addr / 4, v)) else None
    else if 0x2000 <= addr < 0x20_0000 then
      var ctx, irq := (addr - 0x2000) / 0x80, addr % 0x80 * 8;
      if ctx >= contexts || irq >= 32 then None else Some(SetEnable(ctx, BitsOf(v)))
    else if addr >= 0x20_0000 then
      var ctx, offset := (addr - 0x20_0000) / 0x1000, addr % 0x1000;
      if ctx >= contexts then None
      else if offset == 0 then Some(SetThreshold(ctx, v))
      else if offset == 4 then Some(Complete(v % SOURCES))
      else None
    else None
  }

  class PlicInner {
    var regs: Regs
    /** The level of the interrupt line of each context. */
    var pins: seq<bool>
    /** The level each source last had. */
    var levels: seq<bool>

    ghost predicate Shape()
      reads this
    {
      Shaped(regs) && |pins| == |regs.enable| && |levels| == SOURCES
    }

    /** Every line shows whether its context has something to claim. */
    ghost predicate Valid()
      reads this
    {
      Shape() && forall ctx: nat :: ctx < |pins| ==> (pins[ctx] <==> Pending(regs, ctx))
    }

    constructor (contexts: nat)
      ensures Valid() && |pins| == contexts
    {
      regs := Regs(seq(SOURCES, _ => 0), {}, {}, seq(contexts, _ => {}), seq(contexts, _ => 0));
      pins := seq(contexts, _ => false);
      levels := seq(SOURCES, _ => false);
    }

    method PendingFor(ctx: nat) returns (level: bool)
      requires Shape() && ctx < |pins|
      ensures level <==> Pending(regs, ctx)
    {
      for irq := 1 to SOURCES
        invariant forall k: nat :: k < irq && Claimable(regs, ctx, k) ==> regs.priority[k] <= regs.threshold[ctx]
      {
        var enabled := irq in regs.pending && irq !in regs.claimed && irq in regs.enable[ctx];
        if enabled && regs.priority[irq] > regs.threshold[ctx] {
          assert Claimable(regs, ctx, irq);
          return true;
        }
      }
      return false;
    }

    method RecomputePending()
      requires Shape()
      modifies this`pins
      ensures Valid() && |pins| == |old(pins)|
    {
      for ctx := 0 to |regs.enable|
        invariant Shape() && |pins| == |old(pins)|
        invariant forall k: nat :: k < ctx ==> (pins[k] <==> Pending(regs, k))
      {
        var level := PendingFor(ctx);
        pins := pins[ctx := level];
      }
    }

    /** The line of a source changes level; only a rising edge counts. */
    method SetLevel(irq: nat, level: bool)
      requires Valid() && Source(irq)
      modifies this
      ensures Valid() && levels == old(levels)[irq := level]
      ensures if level && !old(levels)[irq] then NextRegs(old(regs), regs, Step.Trigger(irq)) else regs == old(regs)
    {
      var prev := levels[irq];
      levels := levels[irq := level];
      if level && !prev {
        Trigger(irq);
      }
    }

    method Trigger(irq: nat)
      requires Valid() && Source(irq)
      modifies this`regs, this`pins
      ensures Valid() && NextRegs(old(regs), regs, Step.Trigger(irq))
    {
      regs := regs.(pending := regs.pending + {irq});
      RecomputePending();
    }

    method Claim(ctx: nat) returns (irq: nat)
      requires Valid() && ctx < |pins|
      modifies this
      ensures Valid() && IsBest(old(regs), ctx, irq) && NextRegs(old(regs), regs, Step.Claim(ctx, irq))
      ensures old(pins)[ctx] ==> irq != 0
    {
      irq := 0;
      var prio := 0;
      for i := 1 to SOURCES
        invariant irq < i
        invariant prio == if irq == 0 then 0 else regs.priority[irq]
        invariant irq != 0 ==> Claimable(regs, ctx, irq) && prio > 0
        invariant forall k: nat :: k < i && Claimable(regs, ctx, k) ==> regs.priority[k] <= prio
        invariant forall k: nat :: k < irq && Claimable(regs, ctx, k) ==> regs.priority[k] < prio
      {
        var enabled := i in regs.pending && i !in regs.claimed && i in regs.enable[ctx];
        if enabled && regs.priority[i] > prio {
          irq, prio := i, regs.priority[i];
        }
      }
      assert IsBest(regs, ctx, irq);
      if pins[ctx] {
        PinPromises(regs, ctx, irq);
      }
      if irq != 0 {
        regs := Claimed(regs, irq);
        RecomputePending();
      }
    }

    /** A write of a source number to the claim register. */
    method Complete(irq: nat)
      requires Valid() && irq < SOURCES
      modifies this`regs, this`pins
      ensures Valid() && |pins| == |old(pins)| && NextRegs(old(regs), regs, Step.Complete(irq))
    {
      regs := regs.(claimed := regs.claimed - {irq});
      RecomputePending();
    }

    method SetPriority(irq: nat, value: nat)
      requires Valid() && Source(irq)
      modifies this`regs, this`pins
      ensures Valid() && |pins| == |old(pins)| && NextRegs(old(regs), regs, Step.SetPriority(irq, value))
    {
      regs := regs.(priority := regs.priority[irq := value % 8]);
      RecomputePending();
    }

    method SetEnable(ctx: nat, mask: set<nat>)
      requires Valid() && ctx < |pins|
      modifies this`regs, this`pins
      ensures Valid() && |pins| == |old(pins)| && NextRegs(old(regs), regs, Step.SetEnable(ctx, mask))
    {
      regs := regs.(enable := regs.enable[ctx := mask]);
      RecomputePending();
    }

    method SetThreshold(ctx: nat, value: nat)
      requires Valid() && ctx < |pins|
      modifies this`regs, this`pins
      ensures Valid() && |pins| == |old(pins)| && NextRegs(old(regs), regs, Step.SetThreshold(ctx, value))
    {
      regs := regs.(threshold := regs.threshold[ctx := value % 8]);
      RecomputePending();
    }

    /** A write to the controller's registers. */
    method Write(addr: nat, value: nat, size: nat)
      requires Valid()
      modifies this`regs, this`pins
      ensures Valid() && |pins| == |old(pins)|
      ensures var step := WriteStep(|old(pins)|, addr, value, size);
        if step.Some? then NextRegs(old(regs), regs, step.value) else regs == old(regs)
    {
      if size != 4 {
        return;
      }
      var v := value % 0x1_0000_0000;
      if addr <= 0xffc {
        var irq := addr / 4;
        if irq == 0 || irq >= SOURCES {
          return;
        }
        SetPriority(irq, v);
      } else if addr < 0x2000 {
        return;
      } else if addr < 0x20_0000 {
        var ctx, irq := (addr - 0x2000) / 0x80, addr % 0x80 * 8;
        if ctx >= |regs.enable| || irq >= 32 {
          return;
        }
        SetEnable(ctx, BitsOf(v));
      } else {
        var ctx, offset := (addr - 0x20_0000) / 0x1000, addr % 0x1000;
        if ctx >= |regs.enable| {
          return;
        }
        if offset == 0 {
          SetThreshold(ctx, v);
        } else if offset == 4 {
          Complete(v % SOURCES);
        }
      }
    }
  }

  // ---- whole runs

  predicate Shape0(r: Regs) { Shaped(r) && r.pending == {} && r.claimed == {} }

  ghost predicate IsRun(run: seq<Regs>, steps: seq<Step>) {
    && |run| == |steps| + 1 && Shape0(run[0])
    && forall i :: 0 <= i < |steps| ==> NextRegs(run[i], run[i + 1], steps[i])
  }

  predicate NoCompletion(steps: seq<Step>, irq: nat, i: nat, j: nat)
    requires i <= j <= |steps|
  {
    forall k :: i <= k < j ==> steps[k] != Complete(irq)
  }

  predicate NoClaim(steps: seq<Step>, irq: nat, i: nat, j: nat)
    requires i <= j <= |steps|
  {
    forall k :: i <= k < j ==> !(steps[k].Claim? && steps[k].irq == irq)
  }

  lemma {:induction false} StaysClaimed(run: seq<Regs>, steps: seq<Step>, irq: nat, i: nat, j: nat)
    requires IsRun(run, steps) && i <= j <= |steps| && irq in run[i].claimed && NoCompletion(steps, irq, i, j)
    ensures irq in run[j].claimed
    decreases j
  {
    if i < j {
      StaysClaimed(run, steps, irq, i, j - 1);
      assert NextRegs(run[j - 1], run[j], steps[j - 1]);
    }
  }

  /** Between two claims of the same source there is a completion of it. */
  lemma ClaimedOnce(run: seq<Regs>, steps: seq<Step>, i: nat, j: nat)
    requires IsRun(run, steps) && i < j < |steps| && steps[i].Claim? && steps[j].Claim?
    requires steps[i].irq == steps[j].irq != 0
    ensures !NoCompletion(steps, steps[i].irq, i + 1, j)
  {
    var irq := steps[i].irq;
    assert NextRegs(run[i], run[i + 1], steps[i]) && NextRegs(run[j], run[j + 1], steps[j]);
    if NoCompletion(steps, irq, i + 1, j) {
      StaysClaimed(run, steps, irq, i + 1, j);
    }
  }

  /** An edge is remembered until the source is claimed, even if it comes while an earlier one
      is being handled; so after completion it can be claimed by any context that enables it. */
  lemma {:induction false} EdgeKept(run: seq<Regs>, steps: seq<Step>, irq: nat, i: nat, j: nat)
    requires IsRun(run, steps) && i < j <= |steps| && steps[i] == Trigger(irq) && NoClaim(steps, irq, i + 1, j)
    ensures irq in run[j].pending
    decreases j
  {
    assert NextRegs(run[j - 1], run[j], steps[j - 1]);
    if i + 1 < j {
      EdgeKept(run, steps, irq, i, j - 1);
    }
  }

  lemma EdgeClaimable(run: seq<Regs>, steps: seq<Step>, irq: nat, i: nat, j: nat, ctx: nat)
    requires IsRun(run, steps) && i + 1 < j <= |steps| && steps[i] == Trigger(irq) && NoClaim(steps, irq, i + 1, j)
    requires steps[j - 1] == Complete(irq) && ctx < |run[j].enable| && irq in run[j].enable[ctx] && Shaped(run[j])
    ensures Claimable(run[j], ctx, irq)
  {
    EdgeKept(run, steps, irq, i, j);
    assert NextRegs(run[i], run[i + 1], steps[i]) && NextRegs(run[j - 1], run[j], steps[j - 1]);
  }

  /** Claims and edges of a source up to step `n`. */
  function Claims(steps: seq<Step>, irq: nat, n: nat): nat
    requires n <= |steps|
  {
    if n == 0 then 0
    else Claims(steps, irq, n - 1) + (if steps[n - 1].Claim? && steps[n - 1].irq == irq then 1 else 0)
  }

  function Edges(steps: seq<Step>, irq: nat, n: nat): nat
    requires n <= |steps|
  {
    if n == 0 then 0 else Edges(steps, irq, n - 1) + (if steps[n - 1] == Trigger(irq) then 1 else 0)
  }

  /** No source is claimed more often than it was triggered, one of which may still be pending. */
  lemma {:induction false} ClaimsNeedEdges(run: seq<Regs>, steps: seq<Step>, irq: nat, n: nat)
    requires IsRun(run, steps) && n <= |steps| && irq != 0
    ensures Claims(steps, irq, n) + (if irq in run[n].pending then 1 else 0) <= Edges(steps, irq, n)
    decreases n
  {
    if n > 0 {
      ClaimsNeedEdges(run, steps, irq, n - 1);
      assert NextRegs(run[n - 1], run[n], steps[n - 1]);
    }
  }
}
