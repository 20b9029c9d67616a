/** The round trip through the encoder and the decoder, instruction by instruction. */
module X86RoundTrip {
  import opened Wrappers
  import opened X86Ops
  import opened X86Encode
  import opened X86Decode
  import opened X86Codec

  type Bytes = seq<X86Encode.byte>

  // ---- same meaning

  /** The bits that an immediate contributes to an operation of a size. */
  function ImmBits(size: Size, v: int): nat { v % Range(Width(size)) }

  /** What a whole register holds after a move of an immediate; a 32-bit move clears the rest. */
  function Moved(r: Reg, v: int): nat { ImmBits(r.size, v) }

  predicate SameOperand(size: Size, a: Operand, b: Operand) {
    if a.Imm? && b.Imm? then ImmBits(size, a.v) == ImmBits(size, b.v) else a == b
  }

  /** Two instructions that do the same: equal, but for the spelling of immediates, for a 64-bit
      move of an immediate that is done by the 32-bit one, and for the size of LEA's operand. */
  predicate SameMeaning(a: Op, b: Op) {
    match (a, b)
    case (Alu(i, d, s), Alu(j, e, t)) => i == j && d == e && SameOperand(LocSize(d), s, t)
    case (Mov(d, s), Mov(e, t)) =>
      (d == e && SameOperand(LocSize(d), s, t))
      || (d.R? && e.R? && d.reg.id == e.reg.id && d.reg.size == Qword && e.reg.size == Dword && s.Imm? && t.Imm?
          && Moved(d.reg, s.v) == Moved(e.reg, t.v))
    case (TestImm(l, v), TestImm(k, w)) => l == k && ImmBits(LocSize(l), v) == ImmBits(LocSize(l), w)
    case (Lea(r, m), Lea(q, n)) => r == q && n == m.(size := n.size)
    case _ => a == b
  }

  predicate RoundTrips(op: Op, bytes: Bytes, rest: Bytes) {
    var d := Decode(bytes + rest);
    d.Some? && d.value.rest == rest && SameMeaning(op, d.value.value)
  }

  lemma WithImmReads(n: nat, v: int, rest: Bytes, f: int -> Op)
    requires n == 1 || n == 2 || n == 4 || n == 8
    ensures WithImm(n, Le(v, n) + rest, f) == Done(f(Wrapped(v, n)), rest)
  {
    hide Le, ReadInt;
    ReadLe(v, n, rest);
  }

  lemma CapFits(size: Size, v: int)
    requires ImmFits(size, v)
    ensures ImmBits(size, Wrapped(v, Width(Cap(size)))) == ImmBits(size, v)
  {
    WrappedFits(v, Width(Cap(size)));
    hide Wrapped;
  }

  lemma Int8Fits(size: Size, v: int)
    requires Int8(v)
    ensures Wrapped(v, 1) == v
  {
    WrappedFits(v, 1);
  }

  // ---- arithmetic and logic

  lemma AluOpcodes(id: nat, size: Size)
    requires id < 8
    ensures OneByte([id * 8 + Pick(size, 0)]) && OneByte([id * 8 + Pick(size, 2)]) && OneByte([id * 8 + Pick(size, 4)])
    ensures TakesModRm(id * 8 + 1) && TakesModRm(id * 8 + 3) && !TakesModRm(id * 8 + 5)
    ensures ByteForm(id * 8) && ByteForm(id * 8 + 2) && ByteForm(id * 8 + 4)
    ensures !ByteForm(id * 8 + 1) && !ByteForm(id * 8 + 3) && !ByteForm(id * 8 + 5)
  {
  }

  lemma AluRegister(id: nat, dst: Loc, reg: Reg, rest: Bytes)
    requires id < 8 && ValidAlu(dst, At(R(reg)))
    ensures RoundTrips(Alu(id, dst, At(R(reg))), EmitAlu(id, dst, At(R(reg))), rest)
  {
    hide Decode, EmitRRm, RexValue, RexFor, TakesModRm, ByteForm, OneByte, TwoBytes;
    var size := LocSize(dst);
    AluOpcodes(id, size);
    RRmReads(size, size, dst, RegField(reg), [id * 8 + Pick(size, 0)], id * 8 + 1, rest);
    RexForCovers(size, dst, RegField(reg));
    FieldBack(reg, RexValue(RexFor(size, dst, RegField(reg))));
  }

  lemma AluMemory(id: nat, reg: Reg, m: Memory, rest: Bytes)
    requires id < 8 && ValidAlu(R(reg), At(M(m)))
    ensures RoundTrips(Alu(id, R(reg), At(M(m))), EmitAlu(id, R(reg), At(M(m))), rest)
  {
    hide Decode, EmitRRm, RexValue, RexFor, TakesModRm, ByteForm, OneByte, TwoBytes;
    AluOpcodes(id, reg.size);
    RRmReads(reg.size, reg.size, M(m), RegField(reg), [id * 8 + Pick(reg.size, 2)], id * 8 + 3, rest);
    RexForCovers(reg.size, M(m), RegField(reg));
    FieldBack(reg, RexValue(RexFor(reg.size, M(m), RegField(reg))));
  }

  lemma Then(code: Bytes, imm: Bytes, rest: Bytes)
    ensures code + imm + rest == code + (imm + rest)
  {
  }

  lemma AluImm8(id: nat, dst: Loc, v: int, rest: Bytes)
    requires id < 8 && ValidAlu(dst, Imm(v)) && LocSize(dst) != Byte && Int8(v)
    ensures RoundTrips(Alu(id, dst, Imm(v)), EmitAlu(id, dst, Imm(v)), rest)
  {
    hide Decode, EmitRRm, RexValue, RexFor, Le;
    var size := LocSize(dst);
    RRmReads(size, size, dst, Ext(id), [0x83], 0x83, Le(v, 1) + rest);
    Then(EmitRRm(size, dst, Ext(id), [0x83]), Le(v, 1), rest);
    WithImmReads(1, v, rest, (v: int) => Alu(id, dst, Imm(v)));
    Int8Fits(size, v);
    hide WithImm;
  }

  lemma AluImmWide(id: nat, dst: Loc, v: int, rest: Bytes)
    requires id < 8 && ValidAlu(dst, Imm(v)) && !(LocSize(dst) != Byte && Int8(v)) && !(dst.R? && dst.reg.id == 0)
    ensures RoundTrips(Alu(id, dst, Imm(v)), EmitAlu(id, dst, Imm(v)), rest)
  {
    hide Decode, EmitRRm, RexValue, RexFor, Le, Wrapped;
    var size := LocSize(dst);
    var n := Width(Cap(size));
    RRmReads(size, size, dst, Ext(id), [Pick(size, 0x80)], 0x81, Le(v, n) + rest);
    Then(EmitRRm(size, dst, Ext(id), [Pick(size, 0x80)]), Le(v, n), rest);
    WithImmReads(n, v, rest, (v: int) => Alu(id, dst, Imm(v)));
    CapFits(size, v);
    hide WithImm, ImmBits;
  }

  /** The short form on AL, AX, EAX and RAX. */
  lemma AluRax(id: nat, size: Size, v: int, rest: Bytes)
    requires id < 8 && ImmFits(size, v) && !(size != Byte && Int8(v))
    ensures RoundTrips(Alu(id, R(Reg(0, size)), Imm(v)), EmitAlu(id, R(Reg(0, size)), Imm(v)), rest)
  {
    hide Decode, Le, Wrapped, OneByte, TwoBytes, DecodeBody;
    var n := Width(Cap(size));
    var x := Rex(size == Qword, false, false, false, false);
    AluOpcodes(id, size);
    var opcode := [id * 8 + Pick(size, 4)];
    PrefixReads(size, x, opcode, Le(v, n) + rest);
    assert RaxPrefix(size) == SizePrefix(size) + RexBytes(x);
    Then(SizePrefix(size) + RexBytes(x) + opcode, Le(v, n), rest);
    RaxDecodes(id, size, RexValue(x), Le(v, n) + rest);
    WithImmReads(n, v, rest, (v: int) => Alu(id, R(Reg(0, size)), Imm(v)));
    CapFits(size, v);
    hide WithImm, ImmBits, RexValue;
  }

  lemma RaxDecodes(id: nat, size: Size, rex: nat, s: Bytes)
    requires id < 8
    ensures DecodeBody(id * 8 + Pick(size, 4), rex, PrefixSize(size), s) ==
      WithImm(Width(Cap(size)), s, (v: int) => Alu(id, R(Reg(0, size)), Imm(v)))
  {
    hide TakesModRm, ByteForm, DecodeModRm, WithImm;
    AluOpcodes(id, size);
  }

  lemma AluBack(id: nat, dst: Loc, src: Operand, rest: Bytes)
    requires id < 8 && ValidAlu(dst, src)
    ensures RoundTrips(Alu(id, dst, src), EmitAlu(id, dst, src), rest)
  {
    hide RoundTrips, EmitAlu;
    match src
    case Imm(v) =>
      if LocSize(dst) != Byte && Int8(v) {
        AluImm8(id, dst, v, rest);
      } else if dst.R? && dst.reg.id == 0 {
        AluRax(id, dst.reg.size, v, rest);
      } else {
        AluImmWide(id, dst, v, rest);
      }
    case At(R(reg)) => AluRegister(id, dst, reg, rest);
    case At(M(m)) => AluMemory(id, dst.reg, m, rest);
  }

  // ---- shifts and one-operand instructions

  lemma ShiftBack(id: nat, dst: Loc, count: Count, rest: Bytes)
    requires ValidOp(Shift(id, dst, count))
    ensures RoundTrips(Shift(id, dst, count), EmitShift(id, dst, count), rest)
  {
    hide Decode, EmitRRm, RexValue, RexFor, Le;
    var size := LocSize(dst);
    match count
    case ByCl => RRmReads(size, size, dst, Ext(id), [Pick(size, 0xd2)], 0xd3, rest);
    case By(n) =>
      if n == 1 {
        RRmReads(size, size, dst, Ext(id), [Pick(size, 0xd0)], 0xd1, rest);
      } else {
        ShiftByImm(id, dst, n, rest);
      }
  }

  lemma ShiftByImm(id: nat, dst: Loc, n: nat, rest: Bytes)
    requires ValidOp(Shift(id, dst, By(n))) && n != 1
    ensures RoundTrips(Shift(id, dst, By(n)), EmitShift(id, dst, By(n)), rest)
  {
    hide Decode, EmitRRm, RexValue, RexFor, Le, WithImm, Wrapped;
    var size := LocSize(dst);
    RRmReads(size, size, dst, Ext(id), [Pick(size, 0xc0)], 0xc1, Le(n, 1) + rest);
    Then(EmitRRm(size, dst, Ext(id), [Pick(size, 0xc0)]), Le(n, 1), rest);
    WithImmReads(1, n, rest, (v: int) => Shift(id, dst, By(v % 256)));
    WrappedFits(n, 1);
  }

  lemma UnaryBack(id: nat, loc: Loc, rest: Bytes)
    requires ValidOp(Unary(id, loc))
    ensures RoundTrips(Unary(id, loc), Encode(Unary(id, loc)), rest)
  {
    hide Decode, EmitRRm, RexValue, RexFor;
    RRmReads(LocSize(loc), LocSize(loc), loc, Ext(id), [Pick(LocSize(loc), 0xf6)], 0xf7, rest);
  }

  lemma TestImmBack(loc: Loc, v: int, rest: Bytes)
    requires ValidOp(TestImm(loc, v))
    ensures RoundTrips(TestImm(loc, v), Encode(TestImm(loc, v)), rest)
  {
    hide Decode, EmitRRm, RexValue, RexFor, Le, Wrapped;
    var size := LocSize(loc);
    var n := Width(Cap(size));
    RRmReads(size, size, loc, Ext(0), [Pick(size, 0xf6)], 0xf7, Le(v, n) + rest);
    Then(EmitRRm(size, loc, Ext(0), [Pick(size, 0xf6)]), Le(v, n), rest);
    WithImmReads(n, v, rest, (v: int) => TestImm(loc, v));
    CapFits(size, v);
    hide WithImm, ImmBits;
  }

  // ---- moves

  lemma MovImmLoc(dst: Loc, v: int, rest: Bytes)
    requires ValidMov(dst, Imm(v)) && (dst.R? ==> dst.reg.size == Qword && !Uint32(v) && Int32(v))
    ensures RoundTrips(Mov(dst, Imm(v)), EmitMov(dst, Imm(v)), rest)
  {
    hide Decode, EmitRRm, RexValue, RexFor, Le, Wrapped;
    var size := LocSize(dst);
    var n := Width(Cap(size));
    RRmReads(size, size, dst, Ext(0), [Pick(size, 0xc6)], 0xc7, Le(v, n) + rest);
    Then(EmitRRm(size, dst, Ext(0), [Pick(size, 0xc6)]), Le(v, n), rest);
    WithImmReads(n, v, rest, (v: int) => Mov(dst, Imm(v)));
    CapFits(size, v);
    hide WithImm, ImmBits;
  }

  /** The short forms that name the register in the opcode. */
  lemma PlusRReads(size: Size, reg: Reg, v: int, rest: Bytes)
    requires reg.id < 16 && (size == Byte ==> reg.id == 0)
    ensures var opcode := Pick(size, 0xb0) + (if size == Byte then 0 else 7);
      Decode(EmitPlusR(size, reg, opcode) + Le(v, Width(size)) + rest) ==
      Done(Mov(R(Reg(reg.id, size)), Imm(Wrapped(v, Width(size)))), rest)
  {
    hide Decode, Le, Wrapped, RexB, DecodeBody;
    var opcode := if size == Byte then 0xb0 else 0xb8;
    var x := Rex(size == Qword, false, false, reg.id >= 8, NeedsRex(reg));
    RexValueReads(x);
    ExtendedBack(reg.id);
    var code := [opcode + reg.id % 8];
    PrefixReads(size, x, code, Le(v, Width(size)) + rest);
    Then(SizePrefix(size) + RexBytes(x) + code, Le(v, Width(size)), rest);
    WithImmReads(Width(size), v, rest, (v: int) => Mov(R(Reg(reg.id, size)), Imm(v)));
    PlusDecodes(size, reg.id % 8, RexValue(x), reg, Le(v, Width(size)) + rest);
    hide WithImm, RexValue, RexBytes, Extended;
  }

  lemma PlusDecodes(size: Size, low: nat, rex: nat, reg: Reg, s: Bytes)
    requires low < 8 && Extended(RexB(rex), low) == reg.id && (size == Byte ==> low == 0 && reg.id == 0)
    ensures DecodeBody((if size == Byte then 0xb0 else 0xb8) + low, rex, PrefixSize(size), s) ==
      WithImm(Width(size), s, (v: int) => Mov(R(Reg(reg.id, size)), Imm(v)))
  {
    hide WithImm, Extended, RexB, DecodeModRm;
  }

  lemma MovImmReg(reg: Reg, v: int, rest: Bytes)
    requires ValidMov(R(reg), Imm(v)) && !(reg.size == Qword && !Uint32(v) && Int32(v))
    ensures RoundTrips(Mov(R(reg), Imm(v)), EmitMov(R(reg), Imm(v)), rest)
  {
    hide Decode, EmitPlusR, Le, Wrapped;
    var size := if reg.size == Qword && Uint32(v) then Dword else reg.size;
    PlusRReads(size, reg, v, rest);
    WrappedFits(v, Width(size));
  }

  lemma MovRegister(dst: Loc, reg: Reg, rest: Bytes)
    requires ValidMov(dst, At(R(reg)))
    ensures RoundTrips(Mov(dst, At(R(reg))), EmitMov(dst, At(R(reg))), rest)
  {
    hide Decode, EmitRRm, RexValue, RexFor;
    var size := LocSize(dst);
    RRmReads(size, size, dst, RegField(reg), [Pick(size, 0x88)], 0x89, rest);
    RexForCovers(size, dst, RegField(reg));
    FieldBack(reg, RexValue(RexFor(size, dst, RegField(reg))));
  }

  lemma MovMemory(reg: Reg, m: Memory, rest: Bytes)
    requires ValidMov(R(reg), At(M(m)))
    ensures RoundTrips(Mov(R(reg), At(M(m))), EmitMov(R(reg), At(M(m))), rest)
  {
    hide Decode, EmitRRm, RexValue, RexFor;
    RRmReads(reg.size, reg.size, M(m), RegField(reg), [Pick(reg.size, 0x8a)], 0x8b, rest);
    RexForCovers(reg.size, M(m), RegField(reg));
    FieldBack(reg, RexValue(RexFor(reg.size, M(m), RegField(reg))));
  }

  lemma MovBack(dst: Loc, src: Operand, rest: Bytes)
    requires ValidMov(dst, src)
    ensures RoundTrips(Mov(dst, src), EmitMov(dst, src), rest)
  {
    hide RoundTrips, EmitMov;
    match src
    case Imm(v) =>
      if dst.R? && !(dst.reg.size == Qword && !Uint32(v) && Int32(v)) {
        MovImmReg(dst.reg, v, rest);
      } else {
        MovImmLoc(dst, v, rest);
      }
    case At(R(reg)) => MovRegister(dst, reg, rest);
    case At(M(m)) => MovMemory(dst.reg, m, rest);
  }

  /** The source is decoded at the destination's size and then resized. */
  lemma ResizeSeen(loc: Loc, size: Size)
    requires ValidOperand(loc)
    ensures Resize(Seen(loc, size), LocSize(loc)) == loc
  {
  }

  lemma MovsxBack(reg: Reg, from: Loc, rest: Bytes)
    requires ValidOp(Movsx(reg, from))
    ensures RoundTrips(Movsx(reg, from), Encode(Movsx(reg, from)), rest)
  {
    hide Decode, EmitRRm, RexValue, RexFor;
    RRmReads(reg.size, reg.size, from, RegField(reg), MovsxOpcode(LocSize(from)), Opcode(MovsxOpcode(LocSize(from))), rest);
    RexForCovers(reg.size, from, RegField(reg));
    FieldBack(reg, RexValue(RexFor(reg.size, from, RegField(reg))));
    ResizeSeen(from, reg.size);
  }

  lemma MovzxBack(reg: Reg, from: Loc, rest: Bytes)
    requires ValidOp(Movzx(reg, from))
    ensures RoundTrips(Movzx(reg, from), Encode(Movzx(reg, from)), rest)
  {
    hide Decode, EmitRRm, RexValue, RexFor;
    RRmReads(reg.size, reg.size, from, RegField(reg), [0x0f, if LocSize(from) == Byte then 0xb6 else 0xb7], if LocSize(from) == Byte then 0x0fb6 else 0x0fb7, rest);
    RexForCovers(reg.size, from, RegField(reg));
    FieldBack(reg, RexValue(RexFor(reg.size, from, RegField(reg))));
    ResizeSeen(from, reg.size);
  }

  lemma LeaBack(reg: Reg, m: Memory, rest: Bytes)
    requires ValidOp(Lea(reg, m))
    ensures RoundTrips(Lea(reg, m), Encode(Lea(reg, m)), rest)
  {
    hide Decode, EmitRRm, RexValue, RexFor;
    RRmReads(reg.size, reg.size, M(m), RegField(reg), [0x8d], 0x8d, rest);
    RexForCovers(reg.size, M(m), RegField(reg));
    FieldBack(reg, RexValue(RexFor(reg.size, M(m), RegField(reg))));
  }

  lemma CmovccBack(reg: Reg, from: Loc, cc: nat, rest: Bytes)
    requires ValidOp(Cmovcc(reg, from, cc))
    ensures RoundTrips(Cmovcc(reg, from, cc), Encode(Cmovcc(reg, from, cc)), rest)
  {
    hide Decode, EmitRRm, RexValue, RexFor;
    RRmReads(reg.size, reg.size, from, RegField(reg), [0x0f, 0x40 + cc], 0x0f40 + cc, rest);
    RexForCovers(reg.size, from, RegField(reg));
    FieldBack(reg, RexValue(RexFor(reg.size, from, RegField(reg))));
  }

  lemma Imul2Back(reg: Reg, from: Loc, rest: Bytes)
    requires ValidOp(Imul2(reg, from))
    ensures RoundTrips(Imul2(reg, from), Encode(Imul2(reg, from)), rest)
  {
    hide Decode, EmitRRm, RexValue, RexFor;
    RRmReads(reg.size, reg.size, from, RegField(reg), [0x0f, 0xaf], 0x0faf, rest);
    RexForCovers(reg.size, from, RegField(reg));
    FieldBack(reg, RexValue(RexFor(reg.size, from, RegField(reg))));
  }

  lemma CmpxchgBack(loc: Loc, reg: Reg, rest: Bytes)
    requires ValidOp(Cmpxchg(loc, reg))
    ensures RoundTrips(Cmpxchg(loc, reg), Encode(Cmpxchg(loc, reg)), rest)
  {
    hide Decode, EmitRRm, RexValue, RexFor;
    RRmReads(reg.size, reg.size, loc, RegField(reg), [0x0f, Pick(reg.size, 0xb0)], 0x0fb1, rest);
    RexForCovers(reg.size, loc, RegField(reg));
    FieldBack(reg, RexValue(RexFor(reg.size, loc, RegField(reg))));
  }

  lemma XaddBack(loc: Loc, reg: Reg, rest: Bytes)
    requires ValidOp(Xadd(loc, reg))
    ensures RoundTrips(Xadd(loc, reg), Encode(Xadd(loc, reg)), rest)
  {
    hide Decode, EmitRRm, RexValue, RexFor;
    RRmReads(reg.size, reg.size, loc, RegField(reg), [0x0f, Pick(reg.size, 0xc0)], 0x0fc1, rest);
    RexForCovers(reg.size, loc, RegField(reg));
    FieldBack(reg, RexValue(RexFor(reg.size, loc, RegField(reg))));
  }

  lemma XchgBack(reg: Reg, m: Memory, rest: Bytes)
    requires ValidOp(Xchg(reg, m))
    ensures RoundTrips(Xchg(reg, m), Encode(Xchg(reg, m)), rest)
  {
    hide Decode, EmitRRm, RexValue, RexFor;
    RRmReads(reg.size, reg.size, M(m), RegField(reg), [Pick(reg.size, 0x86)], 0x87, rest);
    RexForCovers(reg.size, M(m), RegField(reg));
    FieldBack(reg, RexValue(RexFor(reg.size, M(m), RegField(reg))));
  }

  lemma TestBack(loc: Loc, reg: Reg, rest: Bytes)
    requires ValidOp(Test(loc, reg))
    ensures RoundTrips(Test(loc, reg), Encode(Test(loc, reg)), rest)
  {
    hide Decode, EmitRRm, RexValue, RexFor;
    RRmReads(reg.size, reg.size, loc, RegField(reg), [Pick(reg.size, 0x84)], 0x85, rest);
    RexForCovers(reg.size, loc, RegField(reg));
    FieldBack(reg, RexValue(RexFor(reg.size, loc, RegField(reg))));
  }

  lemma SetccBack(loc: Loc, cc: nat, rest: Bytes)
    requires ValidOp(Setcc(loc, cc))
    ensures RoundTrips(Setcc(loc, cc), Encode(Setcc(loc, cc)), rest)
  {
    hide Decode, EmitRRm, RexValue, RexFor;
    RRmReads(Byte, Byte, loc, Ext(0), [0x0f, 0x90 + cc], 0x0f90 + cc, rest);
  }

  // ---- jumps and the rest

  /** An opcode followed only by a relative target. */
  lemma TargetReads(opcode: Bytes, n: nat, v: int, rest: Bytes)
    requires (OneByte(opcode) || TwoBytes(opcode)) && (n == 1 || n == 4)
    requires 2 * -v <= Range(n) && 2 * v < Range(n)
    ensures Decode(opcode + Le(v, n) + rest) == DecodeBody(Opcode(opcode), 0, Dword, Le(v, n) + rest)
    ensures forall f: int -> Op :: WithImm(n, Le(v, n) + rest, f) == Done(f(v), rest)
  {
    hide Le, DecodeBody, Opcode, WithImm;
    Then(opcode, Le(v, n), rest);
    OpcodeReads(opcode, 0, Dword, Le(v, n) + rest);
    forall f: int -> Op
      ensures WithImm(n, Le(v, n) + rest, f) == Done(f(v), rest)
    {
      WithImmReads(n, v, rest, f);
      WrappedFits(v, n);
    }
  }

  lemma JumpBack(op: Op, rest: Bytes)
    requires ValidOp(op) && (op.Call? || op.Jmp? || op.Jcc?)
    ensures RoundTrips(op, Encode(op), rest)
  {
    hide Decode, Le, WithImm;
    var n := if !op.Call? && Int8(op.target) then 1 else 4;
    var opcode: Bytes :=
      if op.Call? then [0xe8]
      else if op.Jmp? then (if n == 1 then [0xeb] else [0xe9])
      else if n == 1 then [0x70 + op.cc] else [0x0f, 0x80 + op.cc];
    TargetReads(opcode, n, op.target, rest);
  }

  /** What a jump or call emitted with a distant placeholder becomes when its distance is filled in. */
  function Patched(op: Op, target: int): Bytes
    requires ValidOp(op) && (op.Call? || op.Jmp? || op.Jcc?) && !Int8(op.target)
  {
    var code := Encode(op);
    code[..|code| - 4] + Le(target, 4)
  }

  /** It decodes to the jump over that distance, also where a shorter encoding would do. */
  lemma PatchedBack(op: Op, target: int, rest: Bytes)
    requires ValidOp(op) && (op.Call? || op.Jmp? || op.Jcc?) && !Int8(op.target) && Int32(target)
    ensures RoundTrips(op.(target := target), Patched(op, target), rest)
  {
    hide Decode, Le, WithImm;
    var opcode: Bytes := if op.Call? then [0xe8] else if op.Jmp? then [0xe9] else [0x0f, 0x80 + op.cc];
    assert Encode(op) == opcode + Le(op.target, 4);
    assert Patched(op, target) == opcode + Le(target, 4);
    TargetReads(opcode, 4, target, rest);
  }

  lemma FixedBack(op: Op, rest: Bytes)
    requires op.Cdqe? || op.Cdq? || op.Cqo? || op.Lock? || op.Mfence? || op.Nop? || op.Ret?
    ensures RoundTrips(op, Encode(op), rest)
  {
    hide Decode, DecodeBody;
    var x := Rex(op.Cdqe? || op.Cqo?, false, false, false, false);
    var size := if x.w then Qword else Dword;
    var code: Bytes := Encode(op);
    var opcode := if x.w then code[1..] else if op.Mfence? then code[..2] else code;
    var tail := if op.Mfence? then [0xf0] + rest else rest;
    assert code + rest == SizePrefix(size) + RexBytes(x) + opcode + tail;
    PrefixReads(size, x, opcode, tail);
    FixedDecodes(rest);
  }

  lemma FixedDecodes(rest: Bytes)
    ensures DecodeBody(0x98, 0x48, Qword, rest) == Done(Cdqe, rest)
    ensures DecodeBody(0x99, 0x48, Qword, rest) == Done(Cqo, rest)
    ensures DecodeBody(0x99, 0, Dword, rest) == Done(Cdq, rest)
    ensures DecodeBody(0xf0, 0, Dword, rest) == Done(Lock, rest)
    ensures DecodeBody(0x90, 0, Dword, rest) == Done(Nop, rest)
    ensures DecodeBody(0xc3, 0, Dword, rest) == Done(Ret, rest)
    ensures DecodeBody(0x0fae, 0, Dword, [0xf0] + rest) == Done(Mfence, rest)
  {
    hide WithFields, DecodeModRm, WithImm;
    assert ([0xf0] + rest)[1..] == rest;
  }

  /** For every form the translator emits, whatever bytes follow: decoding consumes exactly the
      bytes of the instruction and gives one of the same meaning. */
  lemma RoundTrip(op: Op, rest: Bytes)
    requires ValidOp(op)
    ensures RoundTrips(op, Encode(op), rest)
  {
    hide RoundTrips, EmitAlu, EmitShift, EmitMov, EmitRRm, Le;
    match op
    case Alu(id, dst, src) => AluBack(id, dst, src, rest);
    case Shift(id, dst, count) => ShiftBack(id, dst, count, rest);
    case Unary(id, loc) => UnaryBack(id, loc, rest);
    case Mov(dst, src) => MovBack(dst, src, rest);
    case Movsx(reg, from) => MovsxBack(reg, from, rest);
    case Movzx(reg, from) => MovzxBack(reg, from, rest);
    case Lea(reg, m) => LeaBack(reg, m, rest);
    case Cmovcc(reg, from, cc) => CmovccBack(reg, from, cc, rest);
    case Setcc(loc, cc) => SetccBack(loc, cc, rest);
    case Imul2(reg, from) => Imul2Back(reg, from, rest);
    case Cmpxchg(loc, reg) => CmpxchgBack(loc, reg, rest);
    case Xadd(loc, reg) => XaddBack(loc, reg, rest);
    case Xchg(reg, m) => XchgBack(reg, m, rest);
    case Test(loc, reg) => TestBack(loc, reg, rest);
    case TestImm(loc, v) => TestImmBack(loc, v, rest);
    case Call(_) => JumpBack(op, rest);
    case Jmp(_) => JumpBack(op, rest);
    case Jcc(_, _) => JumpBack(op, rest);
    case _ => FixedBack(op, rest);
  }

  // ---- whole buffers

  function EncodeAll(ops: seq<Op>): Bytes
    requires forall i :: 0 <= i < |ops| ==> ValidOp(ops[i])
  {
    if ops == [] then [] else Encode(ops[0]) + EncodeAll(ops[1..])
  }

  /** The first `n` instructions of a buffer. */
  function DecodeMany(s: Bytes, n: nat): Option<Got<seq<Op>>>
    decreases n
  {
    if n == 0 then Some(Got([], s))
    else
      var d := Decode(s);
      if d.None? then None
      else
        var more := DecodeMany(d.value.rest, n - 1);
        if more.None? then None else Some(Got([d.value.value] + more.value.value, more.value.rest))
  }

  /** A buffer of emitted code is decoded, instruction by instruction, to what was emitted. */
  lemma {:induction false} BufferRoundTrip(ops: seq<Op>, rest: Bytes)
    requires forall i :: 0 <= i < |ops| ==> ValidOp(ops[i])
    ensures var d := DecodeMany(EncodeAll(ops) + rest, |ops|);
      && d.Some? && d.value.rest == rest && |d.value.value| == |ops|
      && forall i :: 0 <= i < |ops| ==> SameMeaning(ops[i], d.value.value[i])
    decreases |ops|
  {
    hide Decode, Encode, SameMeaning;
    if ops == [] {
      assert EncodeAll(ops) + rest == rest;
    } else {
      var later := EncodeAll(ops[1..]) + rest;
      assert EncodeAll(ops) + rest == Encode(ops[0]) + later;
      RoundTrip(ops[0], later);
      BufferRoundTrip(ops[1..], rest);
    }
  }
}
