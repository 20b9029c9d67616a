/**
 Coherence of the translated-code caches with memory.

 Any number of harts share memory, the set CODE_PROT of pages that hold translated code, and
 its lock. Each hart has a level-0 data cache whose writable lines let a store bypass every
 check, a map from physical program counters to translated blocks, and a queue of pending
 invalidations. Guest stores (tag check and write together) are single steps, as lockstep
 execution makes them; protecting a page hart by hart, translating, writing by direct memory
 access and queueing its invalidations hart by hart are all separate, interleaved steps; a
 translator reads the code byte by byte before it inserts the block.
 */
module Coherence {
  const PAGE_SIZE: nat := 4096
  const LINES: nat := 1024

  type Memory = nat -> nat

  function Page(a: nat): nat {
    a / PAGE_SIZE
  }

  /** Memory after `bytes` are written from `addr` on. */
  function Write(mem: Memory, addr: nat, bytes: seq<nat>): Memory {
    (a: nat) => if addr <= a < addr + |bytes| then bytes[a - addr] else mem(a)
  }

  /** A level-0 data cache line: which virtual line it caches, where that is, and whether stores may use it. */
  datatype Line = Empty | Line(vline: nat, page: nat, writable: bool)

  /** Pages `first` up to, not including, `limit`. */
  datatype Range = Range(first: nat, limit: nat) {
    predicate Has(page: nat) {
      first <= page < limit
    }
  }

  /** Privilege level and physical program counter: the key of a translated block. */
  datatype Key = Key(prv: nat, pc: nat)

  datatype Phase =
    | Running
    | Protecting(key: Key, next: nat)
    | Translating(key: Key, code: seq<nat>)
    | Draining
    | Exited

  datatype Hart = Hart(
    lines: seq<Line>,
    blocks: map<Key, seq<nat>>,
    tasks: seq<Range>,
    alert: bool,
    shutdown: bool,
    phase: Phase)

  datatype Lock = Free | ByHart(hart: nat) | ByDma(range: Range, hit: bool, next: nat)

  datatype State = State(harts: seq<Hart>, prot: set<nat>, lock: Lock, mem: Memory, dma: multiset<Range>)

  // ---- effects of the operations

  function ProtectLine(l: Line, page: nat): Line {
    if l.Line? && l.page == page then l.(writable := false) else l
  }

  /** `protect_code`: every line of the page loses its write permission. */
  function ProtectLines(lines: seq<Line>, page: nat): (r: seq<Line>)
    ensures |r| == |lines|
    ensures forall i :: 0 <= i < |lines| ==> r[i] == ProtectLine(lines[i], page)
  {
    seq(|lines|, i requires 0 <= i < |lines| => ProtectLine(lines[i], page))
  }

  function Queue(h: Hart, r: Range): Hart {
    h.(tasks := h.tasks + [r], alert := true)
  }

  predicate InTasks(tasks: seq<Range>, page: nat) {
    exists i :: 0 <= i < |tasks| && tasks[i].Has(page)
  }

  /** Running the queued invalidations discards the blocks whose pages they cover. */
  function Drain(h: Hart): Hart {
    h.(blocks := map k | k in h.blocks && !InTasks(h.tasks, Page(k.pc)) :: h.blocks[k],
       tasks := [], phase := Running)
  }

  function Unprotect(prot: set<nat>, r: Range): set<nat> {
    set p | p in prot && !r.Has(p)
  }

  /** `icache_invalidate`: unprotect the pages and, if any was protected, queue the range on every hart. */
  function Invalidate(s: State, r: Range): State {
    var hit := exists p :: p in s.prot && r.Has(p);
    var harts := if hit then seq(|s.harts|, i requires 0 <= i < |s.harts| => Queue(s.harts[i], r)) else s.harts;
    s.(prot := Unprotect(s.prot, r), harts := harts)
  }

  /** The page loop of `icache_invalidate` over CODE_PROT. */
  method RemovePages(prot: set<nat>, r: Range) returns (left: set<nat>, hit: bool)
    requires r.first <= r.limit
    ensures left == Unprotect(prot, r)
    ensures hit <==> exists p :: p in prot && r.Has(p)
  {
    left, hit := prot, false;
    for page := r.first to r.limit
      invariant left == Unprotect(prot, Range(r.first, page))
      invariant hit <==> exists p :: p in prot && Range(r.first, page).Has(p)
    {
      if page in left {
        assert Range(r.first, page + 1).Has(page);
        hit := true;
      }
      left := left - {page};
    }
  }

  function SetHart(s: State, h: nat, hart: Hart): State
    requires h < |s.harts|
  {
    s.(harts := s.harts[h := hart])
  }

  function SetLine(h: Hart, l: Line): Hart
    requires l.Line? && |h.lines| == LINES
  {
    h.(lines := h.lines[l.vline % LINES := l])
  }

  /** Is the written range non-empty and inside one page? */
  predicate Within(addr: nat, len: nat, page: nat) {
    len > 0 && Page(addr) == page && Page(addr + len - 1) == page
  }

  // ---- steps

  datatype Step =
    | StoreHit(h: nat, vline: nat, addr: nat, bytes: seq<nat>)
    | StoreMiss(h: nat, vline: nat, page: nat, addr: nat, bytes: seq<nat>)
    | LoadMiss(h: nat, vline: nat, page: nat)
    | Flush(h: nat, which: set<nat>)
    | BeginProtect(h: nat, key: Key)
    | ProtectHart(h: nat)
    | EndProtect(h: nat)
    | ReadByte(h: nat)
    | Insert(h: nat, rollover: bool)
    | DmaWrite(addr: nat, bytes: seq<nat>)
    | DmaBegin(r: Range)
    | DmaPush
    | DmaEnd
    | TakeAlarm(h: nat)
    | DrainTasks(h: nat)
    | RaiseAlarm(h: nat, stop: bool)

  ghost predicate Next(s: State, s': State, step: Step) {
    match step
    case StoreHit(h, vline, addr, bytes) =>
      && h < |s.harts| && s.harts[h].phase.Running? && |s.harts[h].lines| == LINES
      && var l := s.harts[h].lines[vline % LINES];
         && l.Line? && l.vline == vline && l.writable && Within(addr, |bytes|, l.page)
         && s' == s.(mem := Write(s.mem, addr, bytes))
    case StoreMiss(h, vline, page, addr, bytes) =>
      && h < |s.harts| && s.harts[h].phase.Running? && |s.harts[h].lines| == LINES
      && s.lock.Free? && Within(addr, |bytes|, page)
      && var inserted := SetHart(s, h, SetLine(s.harts[h], Line(vline, page, true)));
         s' == Invalidate(inserted, Range(page, page + 1)).(mem := Write(s.mem, addr, bytes))
    case LoadMiss(h, vline, page) =>
      && h < |s.harts| && s.harts[h].phase.Running? && |s.harts[h].lines| == LINES
      && s' == SetHart(s, h, SetLine(s.harts[h], Line(vline, page, false)))
    case Flush(h, which) =>
      && h < |s.harts|
      && var ls := s.harts[h].lines;
         s' == SetHart(s, h, s.harts[h].(lines :=
           seq(|ls|, i requires 0 <= i < |ls| => if i in which then Empty else ls[i])))
    case BeginProtect(h, key) =>
      && h < |s.harts| && s.harts[h].phase.Running? && s.lock.Free? && key !in s.harts[h].blocks
      && s' == (if Page(key.pc) in s.prot then SetHart(s, h, s.harts[h].(phase := Translating(key, [])))
                else SetHart(s, h, s.harts[h].(phase := Protecting(key, 0)))
                     .(prot := s.prot + {Page(key.pc)}, lock := ByHart(h)))
    case ProtectHart(h) =>
      && h < |s.harts| && s.harts[h].phase.Protecting? && s.harts[h].phase.next < |s.harts|
      && var p, i := s.harts[h].phase, s.harts[h].phase.next;
         var s1 := SetHart(s, i, s.harts[i].(lines := ProtectLines(s.harts[i].lines, Page(p.key.pc))));
         s' == SetHart(s1, h, s1.harts[h].(phase := Protecting(p.key, i + 1)))
    case EndProtect(h) =>
      && h < |s.harts| && s.harts[h].phase.Protecting? && s.harts[h].phase.next == |s.harts|
      && s' == SetHart(s, h, s.harts[h].(phase := Translating(s.harts[h].phase.key, []))).(lock := Free)
    case ReadByte(h) =>
      && h < |s.harts| && s.harts[h].phase.Translating?
      && var p := s.harts[h].phase;
         && Within(p.key.pc, |p.code| + 1, Page(p.key.pc))
         && s' == SetHart(s, h, s.harts[h].(phase := p.(code := p.code + [s.mem(p.key.pc + |p.code|)])))
    case Insert(h, rollover) =>
      && h < |s.harts| && s.harts[h].phase.Translating?
      && var p := s.harts[h].phase;
         && p.code != []
         && var kept := if rollover then map[] else s.harts[h].blocks;
            s' == SetHart(s, h, s.harts[h].(blocks := kept[p.key := p.code], phase := Running))
    case DmaWrite(addr, bytes) =>
      && s' == s.(mem := Write(s.mem, addr, bytes),
                  dma := s.dma + multiset{Range(Page(addr), Page(addr + |bytes| + PAGE_SIZE - 1))})
    case DmaBegin(r) =>
      && r in s.dma && s.lock.Free?
      && s' == s.(lock := ByDma(r, exists p :: p in s.prot && r.Has(p), 0),
                  prot := Unprotect(s.prot, r))
    case DmaPush =>
      && s.lock.ByDma? && s.lock.next < |s.harts|
      && var i := s.lock.next;
         s' == (if s.lock.hit then SetHart(s, i, Queue(s.harts[i], s.lock.range)) else s)
               .(lock := s.lock.(next := i + 1))
    case DmaEnd =>
      && s.lock.ByDma? && s.lock.next == |s.harts|
      && s' == s.(lock := Free, dma := s.dma - multiset{s.lock.range})
    case TakeAlarm(h) =>
      && h < |s.harts| && s.harts[h].phase.Running? && (s.harts[h].alert || s.harts[h].shutdown)
      && s' == SetHart(s, h, s.harts[h].(alert := false, shutdown := false,
                                         phase := if s.harts[h].shutdown then Exited else Draining))
    case DrainTasks(h) =>
      && h < |s.harts| && s.harts[h].phase.Draining?
      && s' == SetHart(s, h, Drain(s.harts[h]))
    case RaiseAlarm(h, stop) =>
      && h < |s.harts|
      && s' == SetHart(s, h, if stop then s.harts[h].(shutdown := true) else s.harts[h].(alert := true))
  }

  ghost predicate Init(s: State) {
    && s.prot == {} && s.lock.Free? && s.dma == multiset{}
    && forall h :: 0 <= h < |s.harts| ==>
         s.harts[h] == Hart(seq(LINES, i => Empty), map[], [], s.harts[h].alert, s.harts[h].shutdown, Running)
  }

  // ---- the invariant

  /** An invalidation of the page is queued on the hart, or about to be by the direct-memory-access writer. */
  predicate Covered(s: State, h: nat, page: nat)
    requires h < |s.harts|
  {
    || InTasks(s.harts[h].tasks, page)
    || (s.lock.ByDma? && s.lock.hit && s.lock.range.Has(page) && s.lock.next <= h)
  }

  predicate Fresh(mem: Memory, pc: nat, code: seq<nat>) {
    forall i :: 0 <= i < |code| ==> mem(pc + i) == code[i]
  }

  ghost predicate InFlight(s: State, page: nat) {
    exists r :: r in s.dma && r.Has(page)
  }

  /** The page is protected, or its blocks on this hart are on their way out. */
  predicate Guarded(s: State, h: nat, page: nat)
    requires h < |s.harts|
  {
    page in s.prot || Covered(s, h, page)
  }

  /** The lock holder that is taking write permission for `page` away has not yet reached hart `h`. */
  predicate BeingProtected(s: State, h: nat, page: nat) {
    && s.lock.ByHart? && s.lock.hart < |s.harts|
    && var p := s.harts[s.lock.hart].phase;
       p.Protecting? && Page(p.key.pc) == page && p.next <= h
  }

  /** No store can bypass the checks on a protected page. */
  ghost predicate LinesOk(s: State) {
    forall h, i :: 0 <= h < |s.harts| && 0 <= i < |s.harts[h].lines| ==>
      var l := s.harts[h].lines[i];
      l.Line? && l.writable && l.page in s.prot ==> BeingProtected(s, h, l.page)
  }

  /** The hart holds a translation of `code` at `pc`, finished or in the making. */
  ghost predicate Holds(x: Hart, pc: nat, code: seq<nat>) {
    || (exists k :: k in x.blocks && k.pc == pc && x.blocks[k] == code)
    || (x.phase.Translating? && x.phase.key.pc == pc && x.phase.code == code)
  }

  ghost predicate CodeOk(s: State, h: nat, pc: nat, code: seq<nat>)
    requires h < |s.harts|
  {
    && (code != [] ==> Within(pc, |code|, Page(pc)))
    && Guarded(s, h, Page(pc))
    && (Fresh(s.mem, pc, code) || Covered(s, h, Page(pc)) || InFlight(s, Page(pc)))
  }

  ghost predicate CodesOk(s: State) {
    forall h, pc: nat, code :: 0 <= h < |s.harts| && Holds(s.harts[h], pc, code) ==> CodeOk(s, h, pc, code)
  }

  ghost predicate PhaseOk(s: State, h: nat)
    requires h < |s.harts|
  {
    var x := s.harts[h];
    && |x.lines| == LINES
    && (x.phase.Protecting? <==> s.lock == ByHart(h))
    && (x.tasks != [] ==> x.alert || x.phase.Draining? || x.phase.Exited?)
  }

  ghost predicate PhasesOk(s: State) {
    forall h :: 0 <= h < |s.harts| ==> PhaseOk(s, h)
  }

  /** While a page is being protected, every translation of it, finished or in the making, is already on its way out. */
  ghost predicate HolderOk(s: State) {
    && (s.lock.ByHart? ==>
          && s.lock.hart < |s.harts|
          && var p := s.harts[s.lock.hart].phase;
             && p.Protecting? && p.next <= |s.harts| && Page(p.key.pc) in s.prot
             && forall h, pc: nat, code :: 0 <= h < |s.harts| && Holds(s.harts[h], pc, code) && Page(pc) == Page(p.key.pc) ==>
                  Covered(s, h, Page(pc)))
    && (s.lock.ByDma? ==>
          && s.lock.range in s.dma && s.lock.next <= |s.harts|
          && forall p :: p in s.prot ==> !s.lock.range.Has(p))
  }

  ghost predicate Inv(s: State) {
    LinesOk(s) && CodesOk(s) && PhasesOk(s) && HolderOk(s)
  }

  lemma InitInv(s: State)
    requires Init(s)
    ensures Inv(s)
  {
  }

  // ---- every step keeps the invariant

  lemma PageMono(a: int, b: int)
    ensures 0 <= a <= b ==> Page(a) <= Page(b)
  {
  }

  /** A write leaves a block of another page as it was. */
  lemma WriteElsewhere(mem: Memory, addr: nat, bytes: seq<nat>, pc: nat, code: seq<nat>)
    requires (code != [] ==> Within(pc, |code|, Page(pc))) && Fresh(mem, pc, code)
    requires |bytes| > 0 ==> Page(pc) < Page(addr) || Page(pc) > Page(addr + |bytes| - 1)
    ensures Fresh(Write(mem, addr, bytes), pc, code)
  {
    forall i | 0 <= i < |code|
      ensures Write(mem, addr, bytes)(pc + i) == code[i]
    {
      assert Page(pc + i) == Page(pc);
      PageMono(addr, pc + i);
      PageMono(pc + i, addr + |bytes| - 1);
    }
  }

  lemma StoreHitInv(s: State, s': State, h: nat, vline: nat, addr: nat, bytes: seq<nat>)
    requires Inv(s) && Next(s, s', StoreHit(h, vline, addr, bytes))
    ensures Inv(s')
  {
    var l := s.harts[h].lines[vline % LINES];
    forall g, pc: nat, code | 0 <= g < |s.harts| && Holds(s.harts[g], pc, code)
      ensures CodeOk(s', g, pc, code)
    {
      assert CodeOk(s, g, pc, code);
      if Page(pc) == l.page {
        assert l.page in s.prot ==> BeingProtected(s, h, l.page);
        assert Covered(s, g, Page(pc));
      } else if Fresh(s.mem, pc, code) {
        WriteElsewhere(s.mem, addr, bytes, pc, code);
      }
    }
    assert PhasesOk(s') by {
      forall g | 0 <= g < |s.harts| ensures PhaseOk(s', g) { assert PhaseOk(s, g); }
    }
  }

  lemma StoreMissInv(s: State, s': State, h: nat, vline: nat, page: nat, addr: nat, bytes: seq<nat>)
    requires Inv(s) && Next(s, s', StoreMiss(h, vline, page, addr, bytes))
    ensures Inv(s')
  {
    var r := Range(page, page + 1);
    assert |s'.harts| == |s.harts|;
    forall g | 0 <= g < |s.harts|
      ensures page in s.prot ==> s'.harts[g].tasks == s.harts[g].tasks + [r] && s'.harts[g].alert
      ensures page !in s.prot ==> s'.harts[g].tasks == s.harts[g].tasks && s'.harts[g].alert == s.harts[g].alert
      ensures s'.harts[g].blocks == s.harts[g].blocks && s'.harts[g].phase == s.harts[g].phase
    {
      assert page in s.prot ==> r.Has(page);
    }
    forall g, p | 0 <= g < |s.harts| && Guarded(s, g, p)
      ensures Guarded(s', g, p) && (p == page ==> Covered(s', g, p)) && (Covered(s, g, p) ==> Covered(s', g, p))
    {
      QueueCovers(s.harts[g].tasks, r, p);
    }
    assert LinesOk(s') by {
      forall g, i | 0 <= g < |s'.harts| && 0 <= i < |s'.harts[g].lines| && s'.harts[g].lines[i].Line?
                    && s'.harts[g].lines[i].writable
        ensures s'.harts[g].lines[i].page !in s'.prot
      {
        assert s'.harts[g].lines[i] == s.harts[g].lines[i] || s'.harts[g].lines[i].page == page;
      }
    }
    forall g, pc: nat, code | 0 <= g < |s'.harts| && Holds(s'.harts[g], pc, code)
      ensures CodeOk(s', g, pc, code)
    {
      assert CodeOk(s, g, pc, code);
      if Page(pc) != page && Fresh(s.mem, pc, code) {
        WriteElsewhere(s.mem, addr, bytes, pc, code);
      }
    }
    forall g | 0 <= g < |s'.harts| ensures PhaseOk(s', g) { assert PhaseOk(s, g); }
  }

  lemma QueueCovers(tasks: seq<Range>, r: Range, page: nat)
    ensures InTasks(tasks + [r], page) <==> InTasks(tasks, page) || r.Has(page)
  {
    if InTasks(tasks, page) {
      var i :| 0 <= i < |tasks| && tasks[i].Has(page);
      assert (tasks + [r])[i].Has(page);
    }
    if r.Has(page) {
      assert (tasks + [r])[|tasks|].Has(page);
    }
    if InTasks(tasks + [r], page) {
      var i :| 0 <= i < |tasks + [r]| && (tasks + [r])[i].Has(page);
      assert i < |tasks| ==> tasks[i].Has(page);
    }
  }

  /** Replacing lines by ones that are no more writable keeps the invariant. */
  lemma LinesOnly(s: State, s': State, h: nat, lines: seq<Line>)
    requires Inv(s) && h < |s.harts| && s' == SetHart(s, h, s.harts[h].(lines := lines))
    requires |lines| == |s.harts[h].lines| == LINES
    requires forall i :: 0 <= i < LINES ==>
               lines[i] == s.harts[h].lines[i] || lines[i].Empty? || !lines[i].writable
    ensures Inv(s')
  {
    forall g | 0 <= g < |s'.harts| ensures PhaseOk(s', g) { assert PhaseOk(s, g); }
    assert LinesOk(s') by {
      forall g, i | 0 <= g < |s'.harts| && 0 <= i < |s'.harts[g].lines| && s'.harts[g].lines[i].Line?
                    && s'.harts[g].lines[i].writable && s'.harts[g].lines[i].page in s'.prot
        ensures BeingProtected(s', g, s'.harts[g].lines[i].page)
      {
        assert PhaseOk(s, g);
        assert s'.harts[g].lines[i] == s.harts[g].lines[i];
        assert BeingProtected(s, g, s.harts[g].lines[i].page);
      }
    }
    forall g, pc: nat, code | 0 <= g < |s'.harts| && Holds(s'.harts[g], pc, code)
      ensures CodeOk(s', g, pc, code)
      ensures s.lock.ByHart? && Page(pc) == Page(s.harts[s.lock.hart].phase.key.pc) ==> Covered(s', g, Page(pc))
    {
      assert Holds(s.harts[g], pc, code) && CodeOk(s, g, pc, code);
    }
  }

  lemma BeginProtectInv(s: State, s': State, h: nat, key: Key)
    requires Inv(s) && Next(s, s', BeginProtect(h, key))
    ensures Inv(s')
  {
    assert PhaseOk(s, h);
    forall g, pc: nat, code | 0 <= g < |s'.harts| && Holds(s'.harts[g], pc, code)
      ensures CodeOk(s', g, pc, code) && (Page(pc) !in s.prot ==> Covered(s', g, Page(pc)))
    {
      if Holds(s.harts[g], pc, code) {
        assert CodeOk(s, g, pc, code);
      } else {
        assert g == h && code == [];
      }
    }
    forall g | 0 <= g < |s'.harts| ensures PhaseOk(s', g) { assert PhaseOk(s, g); }
    assert LinesOk(s') by {
      forall g, i | 0 <= g < |s'.harts| && 0 <= i < |s'.harts[g].lines| && s'.harts[g].lines[i].Line?
                    && s'.harts[g].lines[i].writable && s'.harts[g].lines[i].page in s'.prot
        ensures BeingProtected(s', g, s'.harts[g].lines[i].page)
      {
        assert s'.harts[g].lines[i] == s.harts[g].lines[i];
        assert s.harts[g].lines[i].page in s.prot ==> BeingProtected(s, g, s.harts[g].lines[i].page);
      }
    }
  }

  lemma ProtectHartInv(s: State, s': State, h: nat)
    requires Inv(s) && Next(s, s', ProtectHart(h))
    ensures Inv(s')
  {
    assert PhaseOk(s, h);
    var p, n := s.harts[h].phase, s.harts[h].phase.next;
    forall g | 0 <= g < |s.harts|
      ensures s'.harts[g].blocks == s.harts[g].blocks && s'.harts[g].tasks == s.harts[g].tasks
      ensures s'.harts[g].alert == s.harts[g].alert
      ensures s'.harts[g].phase == if g == h then Protecting(p.key, n + 1) else s.harts[g].phase
      ensures s'.harts[g].lines == if g == n then ProtectLines(s.harts[g].lines, Page(p.key.pc)) else s.harts[g].lines
    {
    }
    assert LinesOk(s') by {
      forall g, i | 0 <= g < |s'.harts| && 0 <= i < |s'.harts[g].lines| && s'.harts[g].lines[i].Line?
                    && s'.harts[g].lines[i].writable && s'.harts[g].lines[i].page in s'.prot
        ensures BeingProtected(s', g, s'.harts[g].lines[i].page)
      {
        assert s'.harts[g].lines[i] == s.harts[g].lines[i];
        assert BeingProtected(s, g, s.harts[g].lines[i].page);
      }
    }
    forall g, pc: nat, code | 0 <= g < |s'.harts| && Holds(s'.harts[g], pc, code)
      ensures CodeOk(s', g, pc, code)
      ensures s.lock.ByHart? && Page(pc) == Page(s.harts[s.lock.hart].phase.key.pc) ==> Covered(s', g, Page(pc))
    {
      assert Holds(s.harts[g], pc, code) && CodeOk(s, g, pc, code);
    }
    forall g | 0 <= g < |s'.harts| ensures PhaseOk(s', g) { assert PhaseOk(s, g); }
  }

  lemma EndProtectInv(s: State, s': State, h: nat)
    requires Inv(s) && Next(s, s', EndProtect(h))
    ensures Inv(s')
  {
    assert PhaseOk(s, h);
    assert LinesOk(s') by {
      forall g, i | 0 <= g < |s'.harts| && 0 <= i < |s'.harts[g].lines| && s'.harts[g].lines[i].Line?
                    && s'.harts[g].lines[i].writable
        ensures s'.harts[g].lines[i].page !in s'.prot
      {
        assert s'.harts[g].lines[i] == s.harts[g].lines[i];
        assert !BeingProtected(s, g, s.harts[g].lines[i].page);
      }
    }
    forall g, pc: nat, code | 0 <= g < |s'.harts| && Holds(s'.harts[g], pc, code) ensures CodeOk(s', g, pc, code) {
      if Holds(s.harts[g], pc, code) {
        assert CodeOk(s, g, pc, code);
      } else {
        assert g == h && code == [];
      }
    }
    forall g | 0 <= g < |s'.harts| ensures PhaseOk(s', g) { assert PhaseOk(s, g); }
  }

  /** A hart that only reads on, or turns what it read into a block, keeps the invariant: each byte
      is right when it is read, and whatever changes it later has the page on its way out. */
  lemma TranslateInv(s: State, s': State, h: nat, step: Step)
    requires step == ReadByte(h) || (step.Insert? && step.h == h)
    requires Inv(s) && Next(s, s', step)
    ensures Inv(s')
  {
    assert PhaseOk(s, h);
    var p := s.harts[h].phase;
    assert Holds(s.harts[h], p.key.pc, p.code);
    assert CodeOk(s, h, p.key.pc, p.code);
    forall g, pc: nat, code | 0 <= g < |s'.harts| && Holds(s'.harts[g], pc, code)
      ensures CodeOk(s', g, pc, code)
      ensures s.lock.ByHart? && Page(pc) == Page(s.harts[s.lock.hart].phase.key.pc) ==> Covered(s', g, Page(pc))
    {
      if !Holds(s.harts[g], pc, code) {
        assert g == h && pc == p.key.pc && code == p.code + [s.mem(pc + |p.code|)];
        assert Fresh(s.mem, pc, p.code) ==> Fresh(s.mem, pc, code);
      } else {
        assert CodeOk(s, g, pc, code);
      }
    }
    forall g | 0 <= g < |s'.harts| ensures PhaseOk(s', g) { assert PhaseOk(s, g); }
    assert LinesOk(s') by {
      forall g, i | 0 <= g < |s'.harts| && 0 <= i < |s'.harts[g].lines| && s'.harts[g].lines[i].Line?
                    && s'.harts[g].lines[i].writable && s'.harts[g].lines[i].page in s'.prot
        ensures BeingProtected(s', g, s'.harts[g].lines[i].page)
      {
        assert s'.harts[g].lines[i] == s.harts[g].lines[i];
        assert BeingProtected(s, g, s.harts[g].lines[i].page);
      }
    }
  }

  lemma DmaWriteInv(s: State, s': State, addr: nat, bytes: seq<nat>)
    requires Inv(s) && Next(s, s', DmaWrite(addr, bytes))
    ensures Inv(s')
  {
    var r := Range(Page(addr), Page(addr + |bytes| + PAGE_SIZE - 1));
    assert r in s'.dma;
    forall g, pc: nat, code | 0 <= g < |s'.harts| && Holds(s'.harts[g], pc, code) ensures CodeOk(s', g, pc, code) {
      assert CodeOk(s, g, pc, code);
      if InFlight(s, Page(pc)) {
        var q :| q in s.dma && q.Has(Page(pc));
        assert q in s'.dma;
      }
      if !r.Has(Page(pc)) && Fresh(s.mem, pc, code) {
        assert |bytes| > 0 ==> Page(addr + |bytes| + PAGE_SIZE - 1) > Page(addr + |bytes| - 1);
        WriteElsewhere(s.mem, addr, bytes, pc, code);
      }
    }
    forall g | 0 <= g < |s'.harts| ensures PhaseOk(s', g) { assert PhaseOk(s, g); }
  }

  lemma DmaBeginInv(s: State, s': State, r: Range)
    requires Inv(s) && Next(s, s', DmaBegin(r))
    ensures Inv(s')
  {
    forall g, pc: nat, code | 0 <= g < |s'.harts| && Holds(s'.harts[g], pc, code) ensures CodeOk(s', g, pc, code) {
      assert CodeOk(s, g, pc, code);
    }
    forall g | 0 <= g < |s'.harts| ensures PhaseOk(s', g) { assert PhaseOk(s, g); }
    assert LinesOk(s') by {
      forall g, i | 0 <= g < |s'.harts| && 0 <= i < |s'.harts[g].lines| && s'.harts[g].lines[i].Line?
                    && s'.harts[g].lines[i].writable
        ensures s'.harts[g].lines[i].page !in s'.prot
      {
        assert !BeingProtected(s, g, s.harts[g].lines[i].page);
      }
    }
  }

  lemma DmaPushInv(s: State, s': State)
    requires Inv(s) && Next(s, s', DmaPush)
    ensures Inv(s')
  {
    var n, r := s.lock.next, s.lock.range;
    forall g, p: nat | 0 <= g < |s.harts| ensures Covered(s, g, p) ==> Covered(s', g, p) {
      QueueCovers(s.harts[g].tasks, r, p);
    }
    forall g, pc: nat, code | 0 <= g < |s'.harts| && Holds(s'.harts[g], pc, code) ensures CodeOk(s', g, pc, code) {
      assert CodeOk(s, g, pc, code);
    }
    forall g | 0 <= g < |s'.harts| ensures PhaseOk(s', g) { assert PhaseOk(s, g); }
    assert LinesOk(s') by {
      forall g, i | 0 <= g < |s'.harts| && 0 <= i < |s'.harts[g].lines| && s'.harts[g].lines[i].Line?
                    && s'.harts[g].lines[i].writable
        ensures s'.harts[g].lines[i].page !in s'.prot
      {
        assert !BeingProtected(s, g, s.harts[g].lines[i].page);
      }
    }
  }

  lemma DmaEndInv(s: State, s': State)
    requires Inv(s) && Next(s, s', DmaEnd)
    ensures Inv(s')
  {
    forall g, pc: nat, code | 0 <= g < |s'.harts| && Holds(s'.harts[g], pc, code) ensures CodeOk(s', g, pc, code) {
      assert CodeOk(s, g, pc, code);
      if !Covered(s', g, Page(pc)) && InFlight(s, Page(pc)) {
        var q :| q in s.dma && q.Has(Page(pc));
        assert q != s.lock.range;
        assert q in s'.dma;
      }
    }
    forall g | 0 <= g < |s'.harts| ensures PhaseOk(s', g) { assert PhaseOk(s, g); }
    assert LinesOk(s') by {
      forall g, i | 0 <= g < |s'.harts| && 0 <= i < |s'.harts[g].lines| && s'.harts[g].lines[i].Line?
                    && s'.harts[g].lines[i].writable
        ensures s'.harts[g].lines[i].page !in s'.prot
      {
        assert !BeingProtected(s, g, s.harts[g].lines[i].page);
      }
    }
  }

  /** Replacing one hart by one with the same lines, whose blocks and queue still fit together. */
  lemma HartOnly(s: State, s': State, h: nat, x: Hart)
    requires Inv(s) && h < |s.harts| && s' == SetHart(s, h, x) && x.lines == s.harts[h].lines
    requires x.phase == s.harts[h].phase
             || (!s.harts[h].phase.Protecting? && !x.phase.Protecting? && !x.phase.Translating?)
    requires x.tasks != [] ==> x.alert || x.phase.Draining? || x.phase.Exited?
    requires forall k :: k in x.blocks ==> k in s.harts[h].blocks && x.blocks[k] == s.harts[h].blocks[k]
    requires forall p: nat :: InTasks(s.harts[h].tasks, p) ==>
               InTasks(x.tasks, p) || (!x.phase.Translating? && forall k :: k in x.blocks ==> Page(k.pc) != p)
    ensures Inv(s')
  {
    assert PhaseOk(s, h);
    forall g, pc: nat, code | 0 <= g < |s'.harts| && Holds(s'.harts[g], pc, code)
      ensures CodeOk(s', g, pc, code) && (Covered(s, g, Page(pc)) ==> Covered(s', g, Page(pc)))
      ensures s.lock.ByHart? && Page(pc) == Page(s.harts[s.lock.hart].phase.key.pc) ==> Covered(s', g, Page(pc))
    {
      assert Holds(s.harts[g], pc, code) && CodeOk(s, g, pc, code);
    }
    forall g | 0 <= g < |s'.harts| ensures PhaseOk(s', g) { assert PhaseOk(s, g); }
    assert LinesOk(s') by {
      forall g, i | 0 <= g < |s'.harts| && 0 <= i < |s'.harts[g].lines| && s'.harts[g].lines[i].Line?
                    && s'.harts[g].lines[i].writable && s'.harts[g].lines[i].page in s'.prot
        ensures BeingProtected(s', g, s'.harts[g].lines[i].page)
      {
        assert s'.harts[g].lines[i] == s.harts[g].lines[i];
        assert BeingProtected(s, g, s.harts[g].lines[i].page);
      }
    }
  }

  lemma DrainInv(s: State, s': State, h: nat)
    requires Inv(s) && Next(s, s', DrainTasks(h))
    ensures Inv(s')
  {
    HartOnly(s, s', h, Drain(s.harts[h]));
  }

  lemma AlarmInv(s: State, s': State, h: nat, step: Step)
    requires step == TakeAlarm(h) || (step.RaiseAlarm? && step.h == h)
    requires Inv(s) && Next(s, s', step)
    ensures Inv(s')
  {
    assert PhaseOk(s, h);
    HartOnly(s, s', h, s'.harts[h]);
  }

  /** The invariant is kept by every step. */
  lemma NextInv(s: State, s': State, step: Step)
    requires Inv(s) && Next(s, s', step)
    ensures Inv(s')
  {
    hide LinesOk, CodesOk, HolderOk;
    match step
    case StoreHit(h, vline, addr, bytes) => StoreHitInv(s, s', h, vline, addr, bytes);
    case StoreMiss(h, vline, page, addr, bytes) => StoreMissInv(s, s', h, vline, page, addr, bytes);
    case LoadMiss(h, vline, page) => LinesOnly(s, s', h, s'.harts[h].lines);
    case Flush(h, which) =>
      assert PhaseOk(s, h);
      LinesOnly(s, s', h, s'.harts[h].lines);
    case BeginProtect(h, key) => BeginProtectInv(s, s', h, key);
    case ProtectHart(h) => ProtectHartInv(s, s', h);
    case EndProtect(h) => EndProtectInv(s, s', h);
    case ReadByte(h) => TranslateInv(s, s', h, step);
    case Insert(h, rollover) => TranslateInv(s, s', h, step);
    case DmaWrite(addr, bytes) => DmaWriteInv(s, s', addr, bytes);
    case DmaBegin(r) => DmaBeginInv(s, s', r);
    case DmaPush => DmaPushInv(s, s');
    case DmaEnd => DmaEndInv(s, s');
    case TakeAlarm(h) => AlarmInv(s, s', h, step);
    case DrainTasks(h) => DrainInv(s, s', h);
    case RaiseAlarm(h, stop) => AlarmInv(s, s', h, step);
  }

  lemma StepsInv(s: State, s': State)
    requires Inv(s) && Steps(s, s')
    ensures Inv(s')
  {
    hide Inv, Next;
    var step :| Next(s, s', step);
    NextInv(s, s', step);
  }

  // ---- whole runs

  /** A run: a sequence of states, each obtained from the one before by some step. */
  ghost predicate IsRun(run: seq<State>) {
    && |run| > 0 && Init(run[0])
    && forall i :: 0 < i < |run| ==> Steps(run[i - 1], run[i])
  }

  ghost predicate Steps(s: State, s': State) {
    exists step: Step :: Next(s, s', step)
  }

  lemma {:induction false} RunInv(run: seq<State>, i: nat)
    requires IsRun(run) && i < |run|
    ensures Inv(run[i])
  {
    if i == 0 {
      InitInv(run[0]);
    } else {
      RunInv(run, i - 1);
      assert Steps(run[i - 1], run[i]);
      StepsInv(run[i - 1], run[i]);
    }
  }

  /**
   Whenever a hart runs with no alarm raised, or has just run its queue, as it has after the
   interrupt check that follows FENCE.I, every block it holds agrees with memory, except on
   pages whose direct-memory-access write has not finished.
   */
  lemma NoStaleBlock(run: seq<State>, i: nat, h: nat, k: Key)
    requires IsRun(run) && i < |run| && h < |run[i].harts| && k in run[i].harts[h].blocks
    requires run[i].harts[h].tasks == [] || (run[i].harts[h].phase.Running? && !run[i].harts[h].alert)
    requires !InFlight(run[i], Page(k.pc))
    ensures Fresh(run[i].mem, k.pc, run[i].harts[h].blocks[k])
  {
    RunInv(run, i);
    var code := run[i].harts[h].blocks[k];
    assert Holds(run[i].harts[h], k.pc, code);
    assert PhaseOk(run[i], h) && CodeOk(run[i], h, k.pc, code);
    assert HolderOk(run[i]);
  }

  /** Whenever the lock of CODE_PROT is not held by a protecting hart, no protected page has a writable line. */
  lemma NoWritableLine(run: seq<State>, i: nat, h: nat, j: nat)
    requires IsRun(run) && i < |run| && h < |run[i].harts| && j < |run[i].harts[h].lines|
    requires !run[i].lock.ByHart?
    ensures var l := run[i].harts[h].lines[j]; l.Line? && l.writable ==> l.page !in run[i].prot
  {
    RunInv(run, i);
    var l := run[i].harts[h].lines[j];
    if l.Line? {
      assert !BeingProtected(run[i], h, l.page);
    }
  }
}
