/** Decoding what was encoded gives back an instruction of the same meaning, and no byte more. */
module X86Codec {
  import opened Wrappers
  import opened X86Ops
  import opened X86Encode
  import opened X86Decode

  // ---- numbers

  function Residue(v: int, n: nat): (r: nat)
    decreases n
  {
    if n == 0 then 0 else v % 256 + 256 * Residue(v / 256, n - 1)
  }

  lemma {:induction false} UnsignedLe(v: int, n: nat, rest: seq<X86Encode.byte>)
    ensures Unsigned(Le(v, n) + rest, n) == Residue(v, n)
    decreases n
  {
    if n > 0 {
      var s := Le(v, n) + rest;
      assert s[0] == v % 256;
      assert s[1..] == Le(v / 256, n - 1) + rest;
      UnsignedLe(v / 256, n - 1, rest);
    }
  }

  lemma Join8(v: int)
    ensures v % 0x100 + 0x100 * (v / 0x100 % 0x100) == v % 0x1_0000
  {
  }

  lemma Join16(v: int)
    ensures v % 0x1_0000 + 0x1_0000 * (v / 0x1_0000 % 0x1_0000) == v % 0x1_0000_0000
  {
  }

  lemma Join32(v: int)
    ensures v % 0x1_0000_0000 + 0x1_0000_0000 * (v / 0x1_0000_0000 % 0x1_0000_0000) == v % 0x1_0000_0000_0000_0000
  {
  }

  lemma Residue12(v: int)
    ensures Residue(v, 1) == v % 0x100 && Residue(v, 2) == v % 0x1_0000
  {
    assert Residue(v, 1) == v % 256 + 256 * Residue(v / 256, 0);
    assert Residue(v / 256, 1) == v / 256 % 256 + 256 * Residue(v / 256 / 256, 0);
    Join8(v);
  }

  lemma Residue4(v: int)
    ensures Residue(v, 4) == v % 0x1_0000_0000
  {
    Residue12(v / 0x1_0000);
    Residue12(v);
    assert Residue(v, 4) == v % 256 + 256 * Residue(v / 256, 3);
    assert Residue(v / 256, 3) == v / 256 % 256 + 256 * Residue(v / 256 / 256, 2);
    hide Residue;
    assert v / 256 / 256 == v / 0x1_0000;
    Join8(v);
    Join16(v);
  }

  lemma Residue8(v: int)
    ensures Residue(v, 8) == v % 0x1_0000_0000_0000_0000
  {
    hide Residue;
    ResidueSplit(v);
    Residue4(v / 0x1_0000_0000);
    Residue4(v);
    Join32(v);
  }

  lemma ResidueSplit(v: int)
    ensures Residue(v, 8) == Residue(v, 4) + 0x1_0000_0000 * Residue(v / 0x1_0000_0000, 4)
  {
    var a, b, c, d := v / 256, v / 256 / 256, v / 256 / 256 / 256, v / 256 / 256 / 256 / 256;
    assert Residue(v, 8) == v % 256 + 256 * Residue(a, 7) && Residue(v, 4) == v % 256 + 256 * Residue(a, 3);
    assert Residue(a, 7) == a % 256 + 256 * Residue(b, 6) && Residue(a, 3) == a % 256 + 256 * Residue(b, 2);
    assert Residue(b, 6) == b % 256 + 256 * Residue(c, 5) && Residue(b, 2) == b % 256 + 256 * Residue(c, 1);
    assert Residue(c, 5) == c % 256 + 256 * Residue(d, 4) && Residue(c, 1) == c % 256 + 256 * Residue(d, 0);
    hide Residue;
    assert d == v / 0x1_0000_0000;
    assert Residue(d, 0) == 0 by { ResidueZero(d); }
  }

  lemma ResidueZero(v: int)
    ensures Residue(v, 0) == 0
  {
  }

  /** A number that fits the field, signed or unsigned, reads back congruent to itself, and equal
      if it fits as a signed number. */
  lemma ReadLe(v: int, n: nat, rest: seq<X86Encode.byte>)
    requires n == 1 || n == 2 || n == 4 || n == 8
    ensures ReadInt(Le(v, n) + rest, n) == Some(Got(Wrapped(v, n), rest))
  {
    hide Signed;
    UnsignedLe(v, n, rest);
    Residue12(v);
    Residue4(v);
    Residue8(v);
    hide Residue, Le, Unsigned;
    assert (Le(v, n) + rest)[n..] == rest;
  }

  function Range(n: nat): (m: nat)
    ensures m > 0
  {
    if n == 1 then 0x100 else if n == 2 then 0x1_0000 else if n == 4 then 0x1_0000_0000 else 0x1_0000_0000_0000_0000
  }

  function Wrapped(v: int, n: nat): int { Signed(v % Range(n), n) }

  lemma WrappedFits(v: int, n: nat)
    requires n == 1 || n == 2 || n == 4 || n == 8
    ensures Wrapped(v, n) % Range(n) == v % Range(n)
    ensures 2 * -v <= Range(n) && 2 * v < Range(n) ==> Wrapped(v, n) == v
  {
  }

  // ---- REX

  lemma RexReads(x: Rex)
    ensures var b := RexByte(x); RexW(b) == x.w && RexR(b) == x.r && RexX(b) == x.x && RexB(b) == x.b
  {
  }

  /** The REX value that the decoder works with: zero when there was none. */
  function RexValue(x: Rex): nat { if RexNeeded(x) then RexByte(x) else 0 }

  lemma RexValueReads(x: Rex)
    ensures var b := RexValue(x); RexW(b) == x.w && RexR(b) == x.r && RexX(b) == x.x && RexB(b) == x.b
    ensures x.force ==> RexValue(x) != 0
  {
    RexReads(x);
    hide RexByte;
  }

  // ---- ModR/M

  lemma ModRmReads(mode: nat, reg: nat, rm: nat)
    requires mode < 4
    ensures var b := ModRm(mode, reg, rm); b / 64 == mode && b / 8 % 8 == reg % 8 && b % 8 == rm % 8
  {
  }

  lemma ExtendedBack(id: nat)
    requires id < 16
    ensures Extended(id >= 8, id % 8) == id
  {
  }

  lemma DispReads(mode: nat, m: Memory, reg: nat, disp: int, rest: seq<X86Encode.byte>)
    requires mode <= 2 && -0x8000_0000 <= disp < 0x8000_0000 && (mode == 1 ==> Int8(disp)) && (mode == 0 ==> disp == m.disp)
    ensures WithDisp(mode, m, reg, DispBytes(mode, disp) + rest) == Some(Got(Fields(M(m.(disp := disp)), reg), rest))
  {
    hide Le, ReadInt, Wrapped;
    if mode == 0 {
      assert [] + rest == rest;
    } else {
      var n := if mode == 1 then 1 else 4;
      ReadLe(disp, n, rest);
      WrappedFits(disp, n);
    }
  }

  /** The location as the decoder sees it, at the size it assumes. */
  function Seen(loc: Loc, size: Size): Loc {
    if loc.M? && loc.mem.base.Rip? then Resize(loc, Qword) else Resize(loc, size)
  }

  /** REX carries the upper bits of every register number in the operand. */
  predicate RexCovers(rex: nat, loc: Loc, reg: nat) {
    && RexR(rex) == (reg >= 8)
    && (loc.R? ==> RexB(rex) == (loc.reg.id >= 8))
    && (loc.M? ==> RexB(rex) == (loc.mem.base.Gp? && loc.mem.base.id >= 8))
    && (loc.M? ==> RexX(rex) == (loc.mem.index.Index? && loc.mem.index.id >= 8))
  }

  lemma SibReads(mode: nat, m: Memory, reg: nat, rex: nat, size: Size, index: nat, shift: nat, base: nat, rest: seq<X86Encode.byte>)
    requires mode <= 2 && shift < 4 && index < 16 && base < 16 && ValidMem(m)
    requires RexX(rex) == (index >= 8) && RexB(rex) == (base >= 8)
    requires m.index == if index == 4 then NoIndex else Index(index, shift)
    requires m.base == if mode == 0 && base % 8 == 5 then NoBase else Gp(base)
    requires mode == 1 ==> Int8(m.disp)
    requires mode == 0 && base % 8 != 5 ==> m.disp == 0
    ensures var disp := if mode == 0 && base % 8 == 5 then Le(m.disp, 4) else DispBytes(mode, m.disp);
      WithSib(mode, reg, rex, size, [Sib(shift, index, base)] + disp + rest)
      == Some(Got(Fields(M(m.(size := size)), reg), rest))
  {
    hide Le, RexX, RexB;
    var b := Sib(shift, index, base);
    var disp := if mode == 0 && base % 8 == 5 then Le(m.disp, 4) else DispBytes(mode, m.disp);
    SibFields(shift, index, base);
    ExtendedBack(index);
    ExtendedBack(base);
    hide Sib, Extended;
    var s := [b] + disp + rest;
    assert s[0] == b && s[1..] == disp + rest;
    DispReads(if mode == 0 && base % 8 == 5 then 2 else mode, Memory(m.base, m.index, 0, size), reg, m.disp, rest);
    hide DispBytes, WithDisp;
    assert DispBytes(2, m.disp) == Le(m.disp, 4) by { FourBytes(m.disp); }
  }

  lemma FourBytes(v: int)
    ensures DispBytes(2, v) == Le(v, 4)
  {
  }

  lemma SibFields(shift: nat, index: nat, base: nat)
    requires shift < 4
    ensures var b := Sib(shift, index, base); b / 64 == shift && b / 8 % 8 == index % 8 && b % 8 == base % 8
  {
  }

  lemma RegisterBack(r: Reg, reg: nat, rex: nat, size: Size, rest: seq<X86Encode.byte>)
    requires r.id < 16 && reg < 16 && RexCovers(rex, R(r), reg)
    requires size == Byte && 4 <= r.id < 8 ==> rex != 0
    ensures DecodeModRm(rex, size, EmitModRm(R(r), reg) + rest) == Some(Got(Fields(R(Reg(r.id, size)), reg), rest))
  {
    hide RexR, RexB, RexX;
    var b := ModRm(3, reg, r.id);
    ModRmReads(3, reg, r.id);
    ExtendedBack(r.id);
    ExtendedBack(reg);
    hide ModRm, Extended;
    var s := [b] + rest;
    assert s[0] == b && s[1..] == rest;
  }

  lemma MemoryBack(m: Memory, reg: nat, rex: nat, size: Size, rest: seq<X86Encode.byte>)
    requires ValidMem(m) && reg < 16 && RexCovers(rex, M(m), reg)
    ensures DecodeModRm(rex, size, EmitModRm(M(m), reg) + rest) == Some(Got(Fields(Seen(M(m), size), reg), rest))
  {
    hide RexR, RexB, RexX, Le;
    ExtendedBack(reg);
    match (m.base, m.index)
    case (Rip, _) =>
      RipBack(m, reg, rex, size, rest);
    case (NoBase, NoIndex) =>
      SibReads(0, m, reg, rex, size, 4, 0, 5, rest);
      assert Sib(0, 4, 5) == 0x25;
      SibForm(0, reg, rex, size, 0x25, Le(m.disp, 4), rest);
    case (NoBase, Index(i, shift)) =>
      SibReads(0, m, reg, rex, size, i, shift, 5, rest);
      SibForm(0, reg, rex, size, Sib(shift, i, 5), Le(m.disp, 4), rest);
    case (Gp(b), NoIndex) =>
      if b % 8 == 4 {
        var mode := DispMode(m.disp, b);
        SibReads(mode, m, reg, rex, size, 4, 0, b, rest);
        assert Sib(0, 4, b) == 0x24;
        SibForm(mode, reg, rex, size, 0x24, DispBytes(mode, m.disp), rest);
      } else {
        BaseBack(m, reg, rex, size, rest);
      }
    case (Gp(b), Index(i, shift)) =>
      var mode := DispMode(m.disp, b);
      SibReads(mode, m, reg, rex, size, i, shift, b, rest);
      SibForm(mode, reg, rex, size, Sib(shift, i, b), DispBytes(mode, m.disp), rest);
  }

  /** ModR/M with r/m 4 leads to the SIB byte. */
  lemma SibForm(mode: nat, reg: nat, rex: nat, size: Size, sib: X86Encode.byte, disp: seq<X86Encode.byte>, rest: seq<X86Encode.byte>)
    requires mode <= 2 && reg < 16 && RexR(rex) == (reg >= 8)
    ensures DecodeModRm(rex, size, [ModRm(mode, reg, 4), sib] + disp + rest) ==
      WithSib(mode, reg, rex, size, [sib] + disp + rest)
  {
    hide RexR, RexB, RexX, WithSib;
    ModRmReads(mode, reg, 4);
    ExtendedBack(reg);
    var b := ModRm(mode, reg, 4);
    hide ModRm, Extended;
    var s := [b, sib] + disp + rest;
    assert s[0] == b && s[1..] == [sib] + disp + rest;
  }

  lemma RipBack(m: Memory, reg: nat, rex: nat, size: Size, rest: seq<X86Encode.byte>)
    requires ValidMem(m) && m.base.Rip? && reg < 16 && RexR(rex) == (reg >= 8)
    ensures DecodeModRm(rex, size, EmitModRm(M(m), reg) + rest) == Some(Got(Fields(Seen(M(m), size), reg), rest))
  {
    hide RexR, RexB, RexX, Le;
    ModRmReads(0, reg, 5);
    ExtendedBack(reg);
    DispReads(2, Memory(Rip, NoIndex, 0, Qword), reg, m.disp, rest);
    FourBytes(m.disp);
    var b := ModRm(0, reg, 5);
    hide ModRm, Extended, WithDisp, DispBytes;
    var s := [b] + Le(m.disp, 4) + rest;
    assert s[0] == b && s[1..] == Le(m.disp, 4) + rest;
    assert m.index == NoIndex;
  }

  /** A ModR/M byte of a memory operand without SIB. */
  lemma PlainModRm(b: X86Encode.byte, rex: nat, size: Size, tail: seq<X86Encode.byte>)
    requires b / 64 < 3 && b % 8 != 4 && !(b / 64 == 0 && b % 8 == 5)
    ensures DecodeModRm(rex, size, [b] + tail) ==
      WithDisp(b / 64, Memory(Gp(Extended(RexB(rex), b % 8)), NoIndex, 0, size), Extended(RexR(rex), b / 8 % 8), tail)
  {
    hide RexR, RexB, Extended, WithDisp, WithSib, RegisterOf;
    var s := [b] + tail;
    assert s[0] == b && s[1..] == tail;
  }

  lemma BaseBack(m: Memory, reg: nat, rex: nat, size: Size, rest: seq<X86Encode.byte>)
    requires ValidMem(m) && m.base.Gp? && m.index.NoIndex? && m.base.id % 8 != 4
    requires reg < 16 && RexR(rex) == (reg >= 8) && RexB(rex) == (m.base.id >= 8)
    ensures DecodeModRm(rex, size, EmitModRm(M(m), reg) + rest) == Some(Got(Fields(Seen(M(m), size), reg), rest))
  {
    hide RexR, RexB, RexX, Le, DecodeModRm, ModRm, Extended, WithDisp;
    var base := m.base.id;
    var mode := DispMode(m.disp, base);
    var b := ModRm(mode, reg, base);
    ModRmReads(mode, reg, base);
    ExtendedBack(reg);
    ExtendedBack(base);
    DispReads(mode, Memory(Gp(base), NoIndex, 0, size), reg, m.disp, rest);
    hide DispBytes;
    PlainModRm(b, rex, size, DispBytes(mode, m.disp) + rest);
    assert [b] + DispBytes(mode, m.disp) + rest == [b] + (DispBytes(mode, m.disp) + rest);
  }

  // ---- prefixes and opcode

  /** The operand size that the prefixes give; bytes are told from the opcode. */
  function PrefixSize(size: Size): Size { if size == Byte then Dword else size }

  predicate OneByte(opcode: seq<X86Encode.byte>) {
    |opcode| == 1 && !(0x40 <= opcode[0] < 0x50) && opcode[0] != 0x66 && opcode[0] != 0x0f
  }

  predicate TwoBytes(opcode: seq<X86Encode.byte>) { |opcode| == 2 && opcode[0] == 0x0f }

  function Opcode(opcode: seq<X86Encode.byte>): nat
    requires OneByte(opcode) || TwoBytes(opcode)
  {
    if |opcode| == 1 then opcode[0] else Escaped(opcode[1])
  }

  lemma OpcodeReads(opcode: seq<X86Encode.byte>, rex: nat, size: Size, s: seq<X86Encode.byte>)
    requires OneByte(opcode) || TwoBytes(opcode)
    ensures DecodeAt(opcode + s, rex, size) == DecodeBody(Opcode(opcode), rex, size, s)
  {
    hide DecodeBody;
    var all := opcode + s;
    assert all[0] == opcode[0];
    if |opcode| == 1 {
      assert all[1..] == s;
    } else {
      assert all[1..][0] == opcode[1] && all[1..][1..] == s;
    }
  }

  lemma RexPrefixReads(x: Rex, opcode: seq<X86Encode.byte>, size: Size, s: seq<X86Encode.byte>)
    requires OneByte(opcode) || TwoBytes(opcode)
    ensures DecodeAt(RexBytes(x) + opcode + s, 0, size) ==
      DecodeBody(Opcode(opcode), RexValue(x), if x.w then Qword else size, s)
  {
    hide DecodeBody, RexW, RexByte, Opcode;
    RexReads(x);
    var all := RexBytes(x) + opcode + s;
    if RexNeeded(x) {
      assert all[0] == RexByte(x) && all[1..] == opcode + s;
      OpcodeReads(opcode, RexByte(x), if x.w then Qword else size, s);
    } else {
      assert all == opcode + s;
      OpcodeReads(opcode, 0, size, s);
    }
  }

  lemma PrefixReads(size: Size, x: Rex, opcode: seq<X86Encode.byte>, s: seq<X86Encode.byte>)
    requires (OneByte(opcode) || TwoBytes(opcode)) && x.w == (size == Qword)
    ensures Decode(SizePrefix(size) + RexBytes(x) + opcode + s) ==
      DecodeBody(Opcode(opcode), RexValue(x), PrefixSize(size), s)
  {
    hide DecodeBody, RexBytes, RexValue, Opcode;
    var inner := RexBytes(x) + opcode + s;
    var all := SizePrefix(size) + RexBytes(x) + opcode + s;
    if size == Word {
      assert all[0] == 0x66 && all[1..] == inner;
      RexPrefixReads(x, opcode, Word, s);
    } else {
      assert all == inner;
      RexPrefixReads(x, opcode, Dword, s);
    }
  }

  /** The prefixes of an instruction on a location cover all its register numbers. */
  lemma RexForCovers(size: Size, loc: Loc, field: Field)
    requires field.num < 16
    ensures RexCovers(RexValue(RexFor(size, loc, field)), loc, field.num)
    ensures field.special || (loc.R? && NeedsRex(loc.reg)) ==> RexValue(RexFor(size, loc, field)) != 0
  {
    var x := RexFor(size, loc, field);
    RexValueReads(x);
    hide RexValue, RexR, RexX, RexB, RexW;
  }

  lemma LocBack(size: Size, seen: Size, loc: Loc, field: Field, rest: seq<X86Encode.byte>)
    requires ValidLoc(loc) && field.num < 16
    requires loc.R? && seen == Byte && 4 <= loc.reg.id < 8 ==> NeedsRex(loc.reg)
    ensures DecodeModRm(RexValue(RexFor(size, loc, field)), seen, EmitModRm(loc, field.num) + rest) ==
      Some(Got(Fields(Seen(loc, seen), field.num), rest))
  {
    RexForCovers(size, loc, field);
    var rex := RexValue(RexFor(size, loc, field));
    hide RexValue, RexFor, DecodeModRm, EmitModRm;
    match loc
    case R(r) => RegisterBack(r, field.num, rex, seen, rest);
    case M(m) => MemoryBack(m, field.num, rex, seen, rest);
  }

  /** An instruction on a location, decoded up to its opcode's own handling. */
  lemma RRmReads(size: Size, seen: Size, loc: Loc, field: Field, opcode: seq<X86Encode.byte>, o: nat, rest: seq<X86Encode.byte>)
    requires ValidLoc(loc) && field.num < 16 && (OneByte(opcode) || TwoBytes(opcode))
    requires TakesModRm(o) && seen == (if 0x0f90 <= o < 0x0fa0 then Byte else size)
    requires if size == Byte && !(0x0f90 <= o < 0x0fa0) then ByteForm(Opcode(opcode)) && o == Opcode(opcode) + 1
             else !ByteForm(Opcode(opcode)) && Opcode(opcode) != 0xb0 && o == Opcode(opcode)
    requires loc.R? && seen == Byte && 4 <= loc.reg.id < 8 ==> NeedsRex(loc.reg)
    ensures Decode(EmitRRm(size, loc, field, opcode) + rest) ==
      WithFields(o, RexValue(RexFor(size, loc, field)), if size == Byte && 0x0f90 <= o < 0x0fa0 then Dword else size,
                 Fields(Seen(loc, seen), field.num), rest)
  {
    hide DecodeModRm, EmitModRm, WithFields, RexValue, RexBytes, Decode, TakesModRm, ByteForm, Opcode, SizePrefix, Seen;
    var x := RexFor(size, loc, field);
    var tail := EmitModRm(loc, field.num) + rest;
    assert x.w == (size == Qword);
    hide RexFor;
    assert EmitRRm(size, loc, field, opcode) + rest == SizePrefix(size) + RexBytes(x) + opcode + tail;
    PrefixReads(size, x, opcode, tail);
    LocBack(size, seen, loc, field, rest);
  }

  lemma FieldBack(r: Reg, rex: nat)
    requires NeedsRex(r) ==> rex != 0
    ensures RegisterOf(r.id, r.size, rex) == Some(r)
  {
  }
}
