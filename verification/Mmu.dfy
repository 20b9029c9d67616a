/** Sv39 address translation: the page walk, the permission check and what they imply. */
module Mmu {
  import opened Wrappers

  type Word = bv64
  type Memory = bv64 -> bv64

  datatype Access = Read | Write | Execute

  const PTE_V: Word := 0x01
  const PTE_R: Word := 0x02
  const PTE_W: Word := 0x04
  const PTE_X: Word := 0x08
  const PTE_U: Word := 0x10
  const PTE_G: Word := 0x20
  const PTE_A: Word := 0x40
  const PTE_D: Word := 0x80

  /** SUM and MXR, the only status bits that translation depends on below M-mode. */
  const SUM: Word := 0x4_0000
  const MXR: Word := 0x8_0000

  // ---- canonical addresses

  /** An arithmetic right shift by 25. */
  function Sar25(x: Word): Word {
    if x & 0x8000_0000_0000_0000 != 0 then !((!x) >> 25) else x >> 25
  }

  predicate Canonical(vpn: Word) {
    Sar25(vpn << 37) >> 12 == vpn
  }

  lemma SarNegative(x: Word)
    requires x & 0x8000_0000_0000_0000 != 0
    ensures Sar25(x) == !((!x) >> 25)
  {
  }

  lemma SarPositive(x: Word)
    requires x & 0x8000_0000_0000_0000 == 0
    ensures Sar25(x) == x >> 25
  {
  }

  lemma OnesAbove(a: Word)
    requires ((a >> 12) << 37) & 0x8000_0000_0000_0000 != 0
    ensures (!((!((a >> 12) << 37)) >> 25) >> 12 == a >> 12) == (a >> 38 == 0 || a >> 38 == 0x3ff_ffff)
  {
  }

  lemma ZerosAbove(a: Word)
    requires ((a >> 12) << 37) & 0x8000_0000_0000_0000 == 0
    ensures ((((a >> 12) << 37) >> 25) >> 12 == a >> 12) == (a >> 38 == 0 || a >> 38 == 0x3ff_ffff)
  {
  }

  /** The shift test accepts exactly the addresses whose upper bits all repeat bit 38. */
  lemma CanonicalIff(addr: Word)
    ensures Canonical(addr >> 12) <==> addr >> 38 == 0 || addr >> 38 == 0x3ff_ffff
  {
    hide Sar25;
    if ((addr >> 12) << 37) & 0x8000_0000_0000_0000 != 0 {
      SarNegative((addr >> 12) << 37);
      OnesAbove(addr);
    } else {
      SarPositive((addr >> 12) << 37);
      ZerosAbove(addr);
    }
  }

  // ---- the walk

  function BitsLeft(level: nat): (b: Word)
    requires level < 3
  {
    if level == 0 then 18 else if level == 1 then 9 else 0
  }

  function EntryAddress(vpn: Word, ppn: Word, level: nat): Word
    requires level < 3
  {
    (ppn << 12) + ((vpn >> BitsLeft(level)) & 511) * 8
  }

  predicate Present(pte: Word) { pte & PTE_V != 0 }
  predicate Global(pte: Word) { pte & PTE_G != 0 }
  function Frame(pte: Word): Word { pte >> 10 }
  function RootFrame(satp: Word): Word { satp & 0xfff_ffff_ffff }

  /** Malformed: writable without being readable. */
  predicate Malformed(pte: Word) {
    pte & (PTE_R | PTE_W | PTE_X) == PTE_W || pte & (PTE_R | PTE_W | PTE_X) == PTE_W | PTE_X
  }

  predicate Leaf(pte: Word) {
    pte & (PTE_R | PTE_W | PTE_X) != 0
  }

  predicate Aligned(pte: Word, level: nat)
    requires level < 3
  {
    (pte >> 10) & ((1 << BitsLeft(level)) - 1) == 0
  }

  /** The 4 KiB entry that a leaf at some level stands for. */
  function Synthesize(pte: Word, vpn: Word, level: nat, global: bool): Word
    requires level < 3
  {
    (((pte >> 10) | (vpn & ((1 << BitsLeft(level)) - 1))) << 10) | (pte & 0x3ff) | (if global then PTE_G else 0)
  }

  /** The walk from a table at `ppn`, `level` levels down; zero when there is no translation. */
  function Walk(mem: Memory, vpn: Word, ppn: Word, global: bool, level: nat): (pte: Word)
    requires level <= 3
    decreases 3 - level
  {
    if level == 3 then 0
    else
      var pte := mem(EntryAddress(vpn, ppn, level));
      var global' := global || Global(pte);
      if !Present(pte) || Malformed(pte) then 0
      else if !Leaf(pte) then Walk(mem, vpn, Frame(pte), global', level + 1)
      else if !Aligned(pte, level) then 0
      else Synthesize(pte, vpn, level, global')
  }

  function WalkPage(mem: Memory, satp: Word, vpn: Word): (pte: Word) {
    if !Canonical(vpn) then 0 else Walk(mem, vpn, RootFrame(satp), false, 0)
  }

  method WalkPageLoop(mem: Memory, satp: Word, vpn: Word) returns (result: Word)
    ensures result == WalkPage(mem, satp, vpn)
  {
    hide Canonical, Present, Global, Frame, RootFrame, Malformed, Leaf, Aligned, Synthesize, EntryAddress;
    if !Canonical(vpn) {
      return 0;
    }
    var ppn := RootFrame(satp);
    var global := false;
    for i := 0 to 3
      invariant WalkPage(mem, satp, vpn) == Walk(mem, vpn, ppn, global, i)
    {
      var pte := mem(EntryAddress(vpn, ppn, i));
      ppn := Frame(pte);
      if !Present(pte) {
        return 0;
      }
      if Malformed(pte) {
        return 0;
      }
      if Global(pte) {
        global := true;
      }
      if !Leaf(pte) {
        continue;
      }
      if !Aligned(pte, i) {
        return 0;
      }
      return Synthesize(pte, vpn, i, global);
    }
    return 0;
  }

  lemma SynthesizedBits(pte: Word, vpn: Word, level: nat, global: bool)
    requires level < 3
    ensures var r := Synthesize(pte, vpn, level, global);
      r & PTE_R == pte & PTE_R && r & PTE_W == pte & PTE_W && r & PTE_X == pte & PTE_X && r & PTE_V == pte & PTE_V
  {
    var frame := (pte >> 10) | (vpn & ((1 << BitsLeft(level)) - 1));
    LowBits(frame, pte, global);
  }

  lemma LowBits(frame: Word, pte: Word, global: bool)
    ensures var r := (frame << 10) | (pte & 0x3ff) | (if global then PTE_G else 0);
      r & 0x02 == pte & 0x02 && r & 0x04 == pte & 0x04 && r & 0x08 == pte & 0x08 && r & 0x01 == pte & 0x01
  {
  }

  /** Writable only if readable, and a leaf if present at all. */
  predicate WellFormed(pte: Word) {
    (pte & PTE_W != 0 ==> pte & PTE_R != 0) && (pte != 0 ==> Present(pte) && Leaf(pte))
  }

  lemma LeafWellFormed(pte: Word, vpn: Word, level: nat, global: bool)
    requires level < 3 && Present(pte) && !Malformed(pte) && Leaf(pte)
    ensures WellFormed(Synthesize(pte, vpn, level, global))
  {
    SynthesizedBits(pte, vpn, level, global);
    var r := Synthesize(pte, vpn, level, global);
    hide Synthesize;
    SameKind(pte, r);
  }

  lemma SameKind(pte: Word, r: Word)
    requires r & 0x02 == pte & 0x02 && r & 0x04 == pte & 0x04 && r & 0x08 == pte & 0x08 && r & 0x01 == pte & 0x01
    requires Present(pte) && !Malformed(pte) && Leaf(pte)
    ensures WellFormed(r)
  {
  }

  /** Whatever a walk finds, write permission comes with read permission. */
  lemma {:induction false} WalkedReadable(mem: Memory, vpn: Word, ppn: Word, global: bool, level: nat)
    requires level <= 3
    ensures WellFormed(Walk(mem, vpn, ppn, global, level))
    decreases 3 - level
  {
    if level == 3 {
      ZeroWellFormed();
    } else {
      hide Present, Global, Frame, Malformed, Leaf, Aligned, Synthesize, EntryAddress, WellFormed;
      ZeroWellFormed();
      var pte := mem(EntryAddress(vpn, ppn, level));
      var global' := global || Global(pte);
      WalkedReadable(mem, vpn, Frame(pte), global', level + 1);
      if Present(pte) && !Malformed(pte) && Leaf(pte) {
        LeafWellFormed(pte, vpn, level, global');
      }
    }
  }

  lemma ZeroWellFormed()
    ensures WellFormed(0)
  {
  }

  // ---- permissions

  predicate Permits(pte: Word, access: Access, prv: nat, status: Word) {
    && pte & PTE_V != 0
    && (if prv == 0 then pte & PTE_U != 0 else pte & PTE_U == 0 || status & SUM != 0)
    && pte & PTE_A != 0
    && match access
       case Read => pte & PTE_R != 0 || (pte & PTE_X != 0 && status & MXR != 0)
       case Write => pte & PTE_W != 0 && pte & PTE_D != 0
       case Execute => pte & PTE_X != 0
  }

  /** The translation context of a hart below M-mode. */
  datatype Config = Config(mem: Memory, satp: Word, status: Word, prv: nat)

  /** Translation is off. */
  predicate Bare(satp: Word) { satp >> 60 == 0 }

  /** The physical address of `addr` in the page of `pte`. */
  function Place(pte: Word, addr: Word): Word {
    ((pte >> 10) << 12) | (addr & 0xfff)
  }

  function PageOf(addr: Word): Word { addr >> 12 }

  function Translate(c: Config, addr: Word, access: Access): Option<Word> {
    if Bare(c.satp) || c.prv == 3 then Some(addr)
    else
      var pte := WalkPage(c.mem, c.satp, PageOf(addr));
      if Permits(pte, access, c.prv, c.status) then Some(Place(pte, addr)) else None
  }

  /** If a store may go to an address, a load may too, and finds the same place. */
  lemma WriteImpliesRead(c: Config, addr: Word)
    requires Translate(c, addr, Write).Some?
    ensures Translate(c, addr, Read) == Translate(c, addr, Write)
  {
    hide WalkPage, Permits, WellFormed, Place, PageOf, Bare;
    var pte := WalkPage(c.mem, c.satp, PageOf(addr));
    WalkedWellFormed(c.mem, c.satp, PageOf(addr));
    PermitsBoth(pte, c.prv, c.status);
  }

  lemma WalkedWellFormed(mem: Memory, satp: Word, vpn: Word)
    ensures WellFormed(WalkPage(mem, satp, vpn))
  {
    hide Walk, Canonical, RootFrame, WellFormed;
    ZeroWellFormed();
    WalkedReadable(mem, vpn, RootFrame(satp), false, 0);
  }

  lemma PermitsBoth(pte: Word, prv: nat, status: Word)
    requires WellFormed(pte)
    ensures Permits(pte, Write, prv, status) ==> Permits(pte, Read, prv, status)
  {
  }

  /** Only SUM and MXR matter in the status register. */
  lemma StatusBits(c: Config, d: Config, addr: Word, access: Access)
    requires d == c.(status := d.status) && c.status & 0xc_0000 == d.status & 0xc_0000
    ensures Translate(c, addr, access) == Translate(d, addr, access)
  {
    hide WalkPage, Place, PageOf, Bare;
    MaskedBits(c.status, d.status);
  }

  lemma MaskedBits(x: Word, y: Word)
    requires x & 0xc_0000 == y & 0xc_0000
    ensures x & SUM == y & SUM && x & MXR == y & MXR
  {
  }

  /** A leaf above the last level maps its whole aligned region: the low part of the address,
      page number included, is carried over unchanged. */
  lemma HugePage(pte: Word, addr: Word, level: nat, global: bool)
    requires level < 3 && Aligned(pte, level)
    ensures Place(Synthesize(pte, PageOf(addr), level, global), addr) ==
      ((pte >> 10) << 12) | (addr & (if level == 0 then 0x3fff_ffff else if level == 1 then 0x1f_ffff else 0xfff))
  {
    LowBits(0, pte, global);
  }
}
