/**
 The level-0 caches: direct-mapped lines that hold a virtual line number, a write-protection
 bit and the difference between virtual and physical address.
 */
module L0Cache {
  import opened Wrappers
  import opened Mmu

  /** `tag` is twice the line number, plus one if the line may not be written (data cache), or
      the line number itself (instruction cache); `delta` is virtual xor physical address. */
  datatype Line = Line(tag: Word, delta: Word)

  const INVALID: Word := 0x7fff_ffff_ffff_ffff
  const LINES: nat := 1024

  /** Base-two logarithm of the line size: from 8 bytes to a page. */
  type Log = c: Word | 3 <= c <= 12 witness 6

  function LineOf(addr: Word, c: Log): Word { addr >> c }

  function Low10(x: Word): (i: nat)
    ensures i < LINES
  {
    Nat(Narrow(x))
  }

  function Narrow(x: Word): bv10 { (x & 1023) as bv10 }

  function Nat(x: bv10): (n: nat)
    ensures n < LINES
  {
    x as nat
  }

  function Index(addr: Word, c: Log): (i: nat)
    ensures i < LINES
  {
    Low10(LineOf(addr, c))
  }

  function Difference(x: Word, y: Word): Word { x ^ y }
  function Half(tag: Word): Word { tag >> 1 }
  function DataTag(line: Word, writable: bool): Word { (line << 1) | (if writable then 0 else 1) }

  predicate ReadHit(l: Line, addr: Word, c: Log) { Half(l.tag) == LineOf(addr, c) }
  predicate WriteHit(l: Line, addr: Word, c: Log) { l.tag == DataTag(LineOf(addr, c), true) }
  predicate FetchHit(l: Line, addr: Word, c: Log) { l.tag == LineOf(addr, c) }

  /** Where a hit says that `addr` is. */
  function Target(l: Line, addr: Word): Word { Difference(l.delta, addr) }

  function DataLine(vaddr: Word, paddr: Word, writable: bool, c: Log): Line {
    Line(DataTag(LineOf(vaddr, c), writable), Difference(paddr, vaddr))
  }

  function CodeLine(vaddr: Word, paddr: Word, c: Log): Line {
    Line(LineOf(vaddr, c), Difference(paddr, vaddr))
  }

  function Invalidate(l: Line): Line { l.(tag := INVALID) }

  function PhysicalPage(addr: Word): Word { addr & 0xffff_ffff_ffff_f000 }

  /** The first address of a line. */
  function Base(line: Word, c: Log): Word { line << c }

  /** The physical page that `protect_code` takes a line to be in. */
  function PageOfLine(l: Line, c: Log): Word {
    PhysicalPage(Difference(Base(Half(l.tag), c), l.delta))
  }

  function SetLowBit(tag: Word): Word { tag | 1 }

  function Protect(l: Line, page: Word, c: Log): Line {
    if PageOfLine(l, c) == page then l.(tag := SetLowBit(l.tag)) else l
  }

  // ---- a hit is what a walk would say

  ghost predicate DataOk(k: Config, l: Line, c: Log) {
    forall a: Word ::
      (ReadHit(l, a, c) ==> Translate(k, a, Read) == Some(Target(l, a)))
      && (WriteHit(l, a, c) ==> Translate(k, a, Write) == Some(Target(l, a)))
  }

  ghost predicate CodeOk(k: Config, l: Line, c: Log) {
    forall a: Word :: FetchHit(l, a, c) ==> Translate(k, a, Execute) == Some(Target(l, a))
  }

  lemma SamePage(v: Word, a: Word, c: Log)
    requires LineOf(v, c) == LineOf(a, c)
    ensures PageOf(v) == PageOf(a)
  {
  }

  lemma SameOffset(pte: Word, v: Word, a: Word)
    requires PageOf(v) == PageOf(a)
    ensures Difference(Difference(Place(pte, v), v), a) == Place(pte, a)
    ensures Difference(Difference(v, v), a) == a
  {
  }

  /** All addresses of a line translate alike. */
  lemma TranslateLine(k: Config, v: Word, a: Word, access: Access, c: Log)
    requires LineOf(v, c) == LineOf(a, c) && Translate(k, v, access).Some?
    ensures Translate(k, a, access) == Some(Difference(Difference(Translate(k, v, access).value, v), a))
  {
    hide WalkPage, Permits, PageOf, LineOf, Bare, Place, Difference;
    SamePage(v, a, c);
    SameOffset(WalkPage(k.mem, k.satp, PageOf(v)), v, a);
  }

  lemma LineSmall(a: Word, c: Log)
    ensures LineOf(a, c) & 0xe000_0000_0000_0000 == 0
  {
  }

  /** What the tag of a line tells: its line number, and whether stores may use it. */
  lemma TagFacts(x: Word, y: Word, writable: bool)
    requires x & 0xe000_0000_0000_0000 == 0 && y & 0xe000_0000_0000_0000 == 0
    ensures Half(DataTag(x, writable)) == x
    ensures DataTag(x, writable) == DataTag(y, true) <==> writable && x == y
  {
  }

  /** A line filled after a successful translation is right for every address in it; one filled
      for a store also serves loads, because write permission implies read permission. */
  lemma FilledOk(k: Config, v: Word, write: bool, c: Log)
    requires Translate(k, v, if write then Write else Read).Some?
    ensures DataOk(k, DataLine(v, Translate(k, v, if write then Write else Read).value, write, c), c)
  {
    hide Translate, LineOf, Difference, Half, DataTag;
    var access := if write then Write else Read;
    var l := DataLine(v, Translate(k, v, access).value, write, c);
    if write {
      WriteImpliesRead(k, v);
    }
    forall a: Word
      ensures (ReadHit(l, a, c) ==> Translate(k, a, Read) == Some(Target(l, a)))
        && (WriteHit(l, a, c) ==> Translate(k, a, Write) == Some(Target(l, a)))
    {
      LineSmall(v, c);
      LineSmall(a, c);
      TagFacts(LineOf(v, c), LineOf(a, c), write);
      if LineOf(v, c) == LineOf(a, c) {
        TranslateLine(k, v, a, Read, c);
        if write {
          TranslateLine(k, v, a, Write, c);
        }
      }
    }
  }

  lemma FetchedOk(k: Config, v: Word, c: Log)
    requires Translate(k, v, Execute).Some?
    ensures CodeOk(k, CodeLine(v, Translate(k, v, Execute).value, c), c)
  {
    hide Translate, LineOf, Difference;
    var l := CodeLine(v, Translate(k, v, Execute).value, c);
    forall a: Word
      ensures FetchHit(l, a, c) ==> Translate(k, a, Execute) == Some(Target(l, a))
    {
      if FetchHit(l, a, c) {
        TranslateLine(k, v, a, Execute, c);
      }
    }
  }

  /** An invalidated line never hits: no line number is that large. */
  lemma InvalidMisses(l: Line, a: Word, c: Log)
    requires l.tag == INVALID
    ensures !ReadHit(l, a, c) && !WriteHit(l, a, c) && !FetchHit(l, a, c)
  {
    LineSmall(a, c);
    hide LineOf;
    NoSuchLine(LineOf(a, c));
  }

  lemma NoSuchLine(x: Word)
    requires x & 0xe000_0000_0000_0000 == 0
    ensures Half(INVALID) != x && INVALID != DataTag(x, true) && INVALID != x
  {
  }

  lemma InvalidOk(k: Config, l: Line, c: Log)
    requires l.tag == INVALID
    ensures DataOk(k, l, c) && CodeOk(k, l, c)
  {
    hide Translate, LineOf, Difference, Half, DataTag;
    forall a: Word
      ensures !ReadHit(l, a, c) && !WriteHit(l, a, c) && !FetchHit(l, a, c)
    {
      InvalidMisses(l, a, c);
    }
  }

  /** After protection a line still serves loads, and stores only outside the page. */
  lemma ProtectedHits(l: Line, page: Word, a: Word, c: Log)
    ensures var p := Protect(l, page, c);
      && (ReadHit(p, a, c) <==> ReadHit(l, a, c))
      && (WriteHit(p, a, c) ==> WriteHit(l, a, c) && PhysicalPage(Target(l, a)) != page)
      && p.delta == l.delta && PageOfLine(p, c) == PageOfLine(l, c)
  {
    hide LineOf, Difference, Half, DataTag, SetLowBit, PhysicalPage, Base;
    OddTag(l.tag, LineOf(a, c));
    if WriteHit(l, a, c) {
      HitPage(l, a, c);
    }
  }

  lemma OddTag(t: Word, x: Word)
    ensures Half(SetLowBit(t)) == Half(t) && SetLowBit(t) != DataTag(x, true)
  {
  }

  lemma HitPage(l: Line, a: Word, c: Log)
    requires WriteHit(l, a, c)
    ensures PageOfLine(l, c) == PhysicalPage(Target(l, a))
  {
    hide LineOf, Half, DataTag, Difference, PhysicalPage, Base;
    LineSmall(a, c);
    TagFacts(LineOf(a, c), LineOf(a, c), true);
    ShiftBack(a, c);
    DifferencePage(Base(LineOf(a, c), c), a, l.delta);
  }

  lemma ShiftBack(a: Word, c: Log)
    ensures PhysicalPage(Base(LineOf(a, c), c)) == PhysicalPage(a)
  {
  }

  lemma DifferencePage(x: Word, a: Word, delta: Word)
    requires PhysicalPage(x) == PhysicalPage(a)
    ensures PhysicalPage(Difference(x, delta)) == PhysicalPage(Difference(delta, a))
  {
    hide PhysicalPage, Difference;
    PageOfDifference(x, delta);
    PageOfDifference(delta, a);
    SameDifference(PhysicalPage(x), PhysicalPage(delta));
  }

  lemma PageOfDifference(x: Word, y: Word)
    ensures PhysicalPage(Difference(x, y)) == Difference(PhysicalPage(x), PhysicalPage(y))
  {
    calc {
      PhysicalPage(Difference(x, y));
      PhysicalPage(x ^ y);
      (x ^ y) & 0xffff_ffff_ffff_f000;
      { MaskOfXor(x, y); }
      (x & 0xffff_ffff_ffff_f000) ^ (y & 0xffff_ffff_ffff_f000);
      PhysicalPage(x) ^ PhysicalPage(y);
    }
  }

  lemma MaskOfXor(x: Word, y: Word)
    ensures (x ^ y) & 0xffff_ffff_ffff_f000 == (x & 0xffff_ffff_ffff_f000) ^ (y & 0xffff_ffff_ffff_f000)
  {
  }

  lemma ProtectOk(k: Config, l: Line, page: Word, c: Log)
    requires DataOk(k, l, c)
    ensures DataOk(k, Protect(l, page, c), c)
  {
    hide Translate, LineOf, Protect, ReadHit, WriteHit, Difference;
    forall a: Word
      ensures (ReadHit(Protect(l, page, c), a, c) ==> Translate(k, a, Read) == Some(Target(Protect(l, page, c), a)))
        && (WriteHit(Protect(l, page, c), a, c) ==> Translate(k, a, Write) == Some(Target(Protect(l, page, c), a)))
    {
      ProtectedHits(l, page, a, c);
    }
  }

  // ---- runs of one hart

  datatype State = State(config: Config, data: seq<Line>, code: seq<Line>, staleData: bool, staleCode: bool)

  /** Steps of a hart below M-mode, in the supervisor configuration. `Remap` is any change of
      memory that may touch page tables; it makes what is cached stale until the next flush. */
  datatype Step =
    | Load(addr: Word)
    | Store(addr: Word)
    | Fetch(addr: Word)
    | WriteSatp(value: Word)
    | WriteSstatus(value: Word)
    | TrapToSupervisor
    | Sret
    | SfenceVma
    | FenceI
    | ProtectCode(page: Word)
    | InvalidateData(i: nat)
    | InvalidateCode(i: nat)
    | Remap(mem: Memory)

  function Cleared(lines: seq<Line>): (r: seq<Line>)
    ensures |r| == |lines| && forall i :: 0 <= i < |r| ==> r[i] == Invalidate(lines[i])
  {
    seq(|lines|, i requires 0 <= i < |lines| => Invalidate(lines[i]))
  }

  function Protected(lines: seq<Line>, page: Word, c: Log): (r: seq<Line>)
    ensures |r| == |lines| && forall i :: 0 <= i < |r| ==> r[i] == Protect(lines[i], page, c)
  {
    seq(|lines|, i requires 0 <= i < |lines| => Protect(lines[i], page, c))
  }

  function Flush(s: State): State {
    s.(data := Cleared(s.data), code := Cleared(s.code), staleData := false, staleCode := false)
  }

  /** A load or store that may miss: on a miss a successful walk fills the line. */
  function Access(s: State, addr: Word, write: bool, c: Log): State
    requires |s.data| == LINES
  {
    var i := Index(addr, c);
    var hit := if write then WriteHit(s.data[i], addr, c) else ReadHit(s.data[i], addr, c);
    var r := Translate(s.config, addr, if write then Write else Read);
    if hit || r.None? then s else s.(data := s.data[i := DataLine(addr, r.value, write, c)])
  }

  function FetchAt(s: State, addr: Word, c: Log): State
    requires |s.code| == LINES
  {
    var i := Index(addr, c);
    var r := Translate(s.config, addr, Execute);
    if FetchHit(s.code[i], addr, c) || r.None? then s else s.(code := s.code[i := CodeLine(addr, r.value, c)])
  }

  function SumMxr(status: Word): Word { status & 0xc_0000 }
  predicate Spp(status: Word) { status & 0x100 != 0 }

  /** The lookup as translated code does it: the line number in RCX, its low bits times the
      size of a line in EAX, and the tag compared with RCX doubled, or halved with RCX. */
  function FastPath(data: seq<Line>, addr: Word, write: bool, c: Log): Option<Word>
    requires |data| == LINES
  {
    var rcx := LineOf(addr, c);
    var eax := Scaled(rcx);
    var line := data[Entry(eax)];
    if (if write then Doubled(rcx) == line.tag else Half(line.tag) == rcx) then Some(Difference(addr, line.delta)) else None
  }

  /** The byte offset of a line in the array of 16-byte lines, computed in 32 bits. */
  function Scaled(rcx: Word): Word { ((rcx & 0xffff_ffff) & 1023) << 4 }
  function Entry(eax: Word): (i: nat)
    ensures i < LINES
  {
    Low10(eax >> 4)
  }
  function Doubled(rcx: Word): Word { rcx + rcx }

  /** The fast path finds exactly the hits, and sends a store to a protected line to the slow path. */
  lemma FastPathIsLookup(data: seq<Line>, addr: Word, write: bool, c: Log)
    requires |data| == LINES
    ensures var l := data[Index(addr, c)];
      FastPath(data, addr, write, c) ==
      if (if write then WriteHit(l, addr, c) else ReadHit(l, addr, c)) then Some(Target(l, addr)) else None
  {
    hide Low10, LineOf, Scaled, Entry, Doubled, Half, DataTag, Difference;
    SameIndex(LineOf(addr, c));
    Twice(LineOf(addr, c));
    SameDifference(addr, data[Index(addr, c)].delta);
  }

  lemma SameIndex(x: Word)
    ensures Entry(Scaled(x)) == Low10(x)
  {
    assert Scaled(x) >> 4 == x & 1023;
    assert (x & 1023) & 1023 == x & 1023;
  }

  lemma Twice(x: Word)
    ensures Doubled(x) == DataTag(x, true)
  {
  }

  lemma SameDifference(x: Word, y: Word)
    ensures Difference(x, y) == Difference(y, x)
  {
  }

  /** The SATP values that are accepted. */
  function NewSatp(satp: Word, value: Word): Word {
    if value >> 60 == 0 then 0 else if value >> 60 == 8 then value else satp
  }

  function NewSstatus(status: Word, value: Word): Word {
    (status & !0xc_6122) | (value & 0xc_6122)
  }

  /** SPP, SPIE and SIE after a trap and after SRET. */
  function TrapStatus(status: Word, prv: nat): Word {
    var s1 := if prv != 0 then status | 0x100 else status & !0x100;
    var s2 := if s1 & 0x2 != 0 then s1 | 0x20 else s1 & !0x20;
    s2 & !0x2
  }

  function SretStatus(status: Word): Word {
    var s1 := if status & 0x20 != 0 then status | 0x2 else status & !0x2;
    (s1 | 0x20) & !0x100
  }

  ghost predicate Next(s: State, s': State, step: Step, c: Log) {
    |s.data| == LINES && |s.code| == LINES && s.config.prv <= 1 &&
    var k := s.config;
    match step
    case Load(addr) => s' == Access(s, addr, false, c)
    case Store(addr) => s' == Access(s, addr, true, c)
    case Fetch(addr) => s' == FetchAt(s, addr, c)
    case WriteSatp(value) => s' == Flush(s.(config := k.(satp := NewSatp(k.satp, value))))
    case WriteSstatus(value) =>
      var t := s.(config := k.(status := NewSstatus(k.status, value)));
      s' == if SumMxr(k.status) != SumMxr(t.config.status) then Flush(t) else t
    case TrapToSupervisor =>
      var t := s.(config := k.(status := TrapStatus(k.status, k.prv), prv := 1));
      s' == if k.prv == 0 then Flush(t) else t
    case Sret =>
      k.prv == 1 &&
      var spp := Spp(k.status);
      var t := s.(config := k.(status := SretStatus(k.status), prv := if spp then 1 else 0));
      s' == if spp then t else Flush(t)
    case SfenceVma => s' == Flush(s)
    case FenceI => s' == s.(code := Cleared(s.code), staleCode := false)
    case ProtectCode(page) => s' == s.(data := Protected(s.data, page, c))
    case InvalidateData(i) => i < LINES && s' == s.(data := s.data[i := Invalidate(s.data[i])])
    case InvalidateCode(i) => i < LINES && s' == s.(code := s.code[i := Invalidate(s.code[i])])
    case Remap(mem) => s' == s.(config := k.(mem := mem), staleData := true, staleCode := true)
  }

  ghost predicate Inv(s: State, c: Log) {
    && |s.data| == LINES && |s.code| == LINES && s.config.prv <= 1
    && (!s.staleData ==> forall i :: 0 <= i < LINES ==> DataOk(s.config, s.data[i], c))
    && (!s.staleCode ==> forall i :: 0 <= i < LINES ==> CodeOk(s.config, s.code[i], c))
  }

  lemma FlushInv(s: State, c: Log)
    requires |s.data| == LINES && |s.code| == LINES && s.config.prv <= 1
    ensures Inv(Flush(s), c)
  {
    hide DataOk, CodeOk;
    var t := Flush(s);
    forall i | 0 <= i < LINES
      ensures DataOk(t.config, t.data[i], c) && CodeOk(t.config, t.code[i], c)
    {
      InvalidOk(t.config, t.data[i], c);
      InvalidOk(t.config, t.code[i], c);
    }
  }

  /** A status change that leaves SUM and MXR alone leaves every translation alone. */
  lemma StatusInv(s: State, s': State, c: Log)
    requires Inv(s, c) && s' == s.(config := s.config.(status := s'.config.status))
    requires SumMxr(s.config.status) == SumMxr(s'.config.status)
    ensures Inv(s', c)
  {
    hide Translate, ReadHit, WriteHit, FetchHit;
    forall a: Word, access: Mmu.Access
      ensures Translate(s'.config, a, access) == Translate(s.config, a, access)
    {
      StatusBits(s.config, s'.config, a, access);
    }
    assert forall l: Line :: DataOk(s.config, l, c) ==> DataOk(s'.config, l, c);
    assert forall l: Line :: CodeOk(s.config, l, c) ==> CodeOk(s'.config, l, c);
    hide DataOk, CodeOk;
  }

  lemma TrapKeeps(status: Word, prv: nat)
    ensures SumMxr(TrapStatus(status, prv)) == SumMxr(status)
    ensures SumMxr(SretStatus(status)) == SumMxr(status)
  {
  }

  lemma AccessInv(s: State, addr: Word, write: bool, c: Log)
    requires Inv(s, c)
    ensures Inv(Access(s, addr, write, c), c)
  {
    hide Translate, DataOk, CodeOk, ReadHit, WriteHit, Index, DataLine;
    if Translate(s.config, addr, if write then Write else Read).Some? {
      FilledOk(s.config, addr, write, c);
    }
  }

  lemma FetchInv(s: State, addr: Word, c: Log)
    requires Inv(s, c)
    ensures Inv(FetchAt(s, addr, c), c)
  {
    hide Translate, DataOk, CodeOk, FetchHit, Index, CodeLine;
    if Translate(s.config, addr, Execute).Some? {
      FetchedOk(s.config, addr, c);
    }
  }

  lemma ProtectInv(s: State, page: Word, c: Log)
    requires Inv(s, c)
    ensures Inv(s.(data := Protected(s.data, page, c)), c)
  {
    hide Translate, DataOk, CodeOk, Protect;
    var t := s.(data := Protected(s.data, page, c));
    if !s.staleData {
      forall i | 0 <= i < LINES
        ensures DataOk(t.config, t.data[i], c)
      {
        ProtectOk(s.config, s.data[i], page, c);
      }
    }
  }

  lemma DropInv(s: State, i: nat, c: Log)
    requires Inv(s, c) && i < LINES
    ensures Inv(s.(data := s.data[i := Invalidate(s.data[i])]), c)
    ensures Inv(s.(code := s.code[i := Invalidate(s.code[i])]), c)
    ensures Inv(s.(code := Cleared(s.code), staleCode := false), c)
  {
    hide DataOk, CodeOk;
    InvalidOk(s.config, Invalidate(s.data[i]), c);
    forall j | 0 <= j < LINES
      ensures CodeOk(s.config, Invalidate(s.code[j]), c)
    {
      InvalidOk(s.config, Invalidate(s.code[j]), c);
    }
  }

  lemma NextInv(s: State, s': State, step: Step, c: Log)
    requires Inv(s, c) && Next(s, s', step, c)
    ensures Inv(s', c)
  {
    hide Inv, Next;
    if step.Load? || step.Store? || step.Fetch? || step.ProtectCode? || step.InvalidateData? || step.InvalidateCode? {
      LineInv(s, s', step, c);
    } else {
      ConfigInv(s, s', step, c);
    }
  }

  /** Steps that fill, protect or drop single lines. */
  lemma LineInv(s: State, s': State, step: Step, c: Log)
    requires Inv(s, c) && Next(s, s', step, c)
    requires step.Load? || step.Store? || step.Fetch? || step.ProtectCode? || step.InvalidateData? || step.InvalidateCode?
    ensures Inv(s', c)
  {
    hide Inv, Access, FetchAt, Protect;
    InvShape(s, c);
    match step
    case Load(addr) => AccessInv(s, addr, false, c);
    case Store(addr) => AccessInv(s, addr, true, c);
    case Fetch(addr) => FetchInv(s, addr, c);
    case ProtectCode(page) => ProtectInv(s, page, c);
    case InvalidateData(i) => DropInv(s, i, c);
    case InvalidateCode(i) => DropInv(s, i, c);
  }

  /** Steps that change the translation context, and fences. */
  lemma ConfigInv(s: State, s': State, step: Step, c: Log)
    requires Inv(s, c) && Next(s, s', step, c)
    requires step.WriteSatp? || step.WriteSstatus? || step.TrapToSupervisor? || step.Sret? || step.SfenceVma? || step.FenceI? || step.Remap?
    ensures Inv(s', c)
  {
    hide Inv, Flush, TrapStatus, SretStatus, NewSatp, NewSstatus, SumMxr, Spp;
    InvShape(s, c);
    var k := s.config;
    match step
    case WriteSatp(value) => FlushInv(s.(config := k.(satp := NewSatp(k.satp, value))), c);
    case WriteSstatus(value) => ModeInv(s, s.(config := k.(status := NewSstatus(k.status, value))), c);
    case TrapToSupervisor =>
      TrapKeeps(k.status, k.prv);
      ModeInv(s, s.(config := k.(status := TrapStatus(k.status, k.prv), prv := 1)), c);
    case Sret =>
      TrapKeeps(k.status, k.prv);
      ModeInv(s, s.(config := k.(status := SretStatus(k.status), prv := if Spp(k.status) then 1 else 0)), c);
    case SfenceVma => FlushInv(s, c);
    case FenceI => DropInv(s, 0, c);
    case Remap(mem) => StaleInv(s', c);
  }

  /** A change of status or privilege: flushed, or one that leaves translation alone. */
  lemma ModeInv(s: State, t: State, c: Log)
    requires Inv(s, c) && t == s.(config := s.config.(status := t.config.status, prv := t.config.prv)) && t.config.prv <= 1
    ensures Inv(Flush(t), c)
    ensures SumMxr(s.config.status) == SumMxr(t.config.status) && s.config.prv == t.config.prv ==> Inv(t, c)
  {
    InvShape(s, c);
    FlushInv(t, c);
    hide Inv, SumMxr;
    if SumMxr(s.config.status) == SumMxr(t.config.status) && s.config.prv == t.config.prv {
      StatusInv(s, t, c);
    }
  }

  lemma InvShape(s: State, c: Log)
    requires Inv(s, c)
    ensures |s.data| == LINES && |s.code| == LINES && s.config.prv <= 1
  {
  }

  lemma StaleInv(s: State, c: Log)
    requires |s.data| == LINES && |s.code| == LINES && s.config.prv <= 1 && s.staleData && s.staleCode
    ensures Inv(s, c)
  {
  }

  ghost predicate Steps(s: State, s': State, c: Log) {
    exists step: Step :: Next(s, s', step, c)
  }

  /** A run from empty caches. */
  ghost predicate IsRun(run: seq<State>, c: Log) {
    && |run| > 0 && |run[0].data| == LINES && |run[0].code| == LINES && run[0].config.prv <= 1
    && run[0].data == Cleared(run[0].data) && run[0].code == Cleared(run[0].code)
    && !run[0].staleData && !run[0].staleCode
    && forall i :: 0 < i < |run| ==> Steps(run[i - 1], run[i], c)
  }

  lemma {:induction false} RunInv(run: seq<State>, i: nat, c: Log)
    requires IsRun(run, c) && i < |run|
    ensures Inv(run[i], c)
  {
    hide Inv, Next;
    if i == 0 {
      FlushInv(run[0], c);
      assert run[0] == Flush(run[0]);
    } else {
      RunInv(run, i - 1, c);
      assert Steps(run[i - 1], run[i], c);
      var step :| Next(run[i - 1], run[i], step, c);
      NextInv(run[i - 1], run[i], step, c);
    }
  }

  /** In every run, as long as page tables have not changed since the last flush, every hit in
      either cache gives the address, and the permission, that a page walk would give now. */
  lemma HitsAreWalks(run: seq<State>, i: nat, addr: Word, c: Log)
    requires IsRun(run, c) && i < |run|
    ensures var s := run[i];
      && |s.data| == LINES && |s.code| == LINES
      && var d, x := s.data[Index(addr, c)], s.code[Index(addr, c)];
      && (!s.staleData && ReadHit(d, addr, c) ==> Translate(s.config, addr, Read) == Some(Target(d, addr)))
      && (!s.staleData && WriteHit(d, addr, c) ==> Translate(s.config, addr, Write) == Some(Target(d, addr)))
      && (!s.staleCode && FetchHit(x, addr, c) ==> Translate(s.config, addr, Execute) == Some(Target(x, addr)))
  {
    RunInv(run, i, c);
    hide Translate, ReadHit, WriteHit, FetchHit, Index;
    var s := run[i];
    assert !s.staleData ==> DataOk(s.config, s.data[Index(addr, c)], c);
    assert !s.staleCode ==> CodeOk(s.config, s.code[Index(addr, c)], c);
  }
}
