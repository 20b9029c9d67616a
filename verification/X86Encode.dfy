/** The x86-64 encoder, for the instruction forms that the translator uses. */
module X86Encode {
  import opened X86Ops

  type byte = x: nat | x < 256

  // ---- constants, low byte first

  function Byte0(v: int): byte { v % 256 }

  function Le(v: int, n: nat): (s: seq<byte>)
    ensures |s| == n
    decreases n
  {
    if n == 0 then [] else [Byte0(v)] + Le(v / 256, n - 1)
  }

  function ImmBytes(size: Size, v: int): seq<byte> { Le(v, Width(size)) }

  // ---- REX, ModR/M and SIB

  /** The four bits of REX, and whether it is needed although none of them is set. */
  datatype Rex = Rex(w: bool, r: bool, x: bool, b: bool, force: bool)

  function Bit(b: bool, v: nat): nat { if b then v else 0 }

  function RexByte(x: Rex): (v: byte)
    ensures 0x40 <= v < 0x50
  {
    0x40 + Bit(x.w, 8) + Bit(x.r, 4) + Bit(x.x, 2) + Bit(x.b, 1)
  }

  predicate RexNeeded(x: Rex) { x.w || x.r || x.x || x.b || x.force }

  function RexFor(size: Size, loc: Loc, field: Field): Rex {
    match loc
    case R(reg) =>
      Rex(size == Qword, field.num >= 8, false, reg.id >= 8, NeedsRex(reg) || field.special)
    case M(m) =>
      Rex(size == Qword, field.num >= 8, m.index.Index? && m.index.id >= 8, m.base.Gp? && m.base.id >= 8, field.special)
  }

  function RexBytes(x: Rex): seq<byte> {
    if RexNeeded(x) then [RexByte(x)] else []
  }

  function ModRm(mode: nat, reg: nat, rm: nat): byte
    requires mode < 4
  {
    mode * 64 + reg % 8 * 8 + rm % 8
  }

  function Sib(shift: nat, index: nat, base: nat): byte
    requires shift < 4
  {
    shift * 64 + index % 8 * 8 + base % 8
  }

  predicate Int8(v: int) { -0x80 <= v < 0x80 }
  predicate Int32(v: int) { -0x8000_0000 <= v < 0x8000_0000 }
  predicate Uint32(v: int) { 0 <= v < 0x1_0000_0000 }

  /** Displacement form: none, one byte or four. */
  function DispMode(disp: int, base: nat): (m: nat)
    ensures m <= 2
  {
    if disp == 0 && base % 8 != 5 then 0 else if Int8(disp) then 1 else 2
  }

  function DispBytes(mode: nat, disp: int): seq<byte> {
    if mode == 0 then [] else if mode == 1 then Le(disp, 1) else Le(disp, 4)
  }

  function EmitModRm(loc: Loc, reg: nat): seq<byte>
    requires ValidLoc(loc)
  {
    match loc
    case R(r) => [ModRm(3, reg, r.id)]
    case M(m) =>
      match (m.base, m.index)
      case (NoBase, NoIndex) => [ModRm(0, reg, 4), 0x25] + Le(m.disp, 4)
      case (NoBase, Index(i, shift)) => [ModRm(0, reg, 4), Sib(shift, i, 5)] + Le(m.disp, 4)
      case (Rip, _) => [ModRm(0, reg, 5)] + Le(m.disp, 4)
      case (Gp(b), NoIndex) =>
        var mode := DispMode(m.disp, b);
        if b % 8 == 4 then [ModRm(mode, reg, 4), 0x24] + DispBytes(mode, m.disp)
        else [ModRm(mode, reg, b)] + DispBytes(mode, m.disp)
      case (Gp(b), Index(i, shift)) =>
        var mode := DispMode(m.disp, b);
        [ModRm(mode, reg, 4), Sib(shift, i, b)] + DispBytes(mode, m.disp)
  }

  function SizePrefix(size: Size): seq<byte> { if size == Word then [0x66] else [] }

  /** Prefixes, opcode and ModR/M, for every instruction on a register and a location. */
  function EmitRRm(size: Size, loc: Loc, field: Field, opcode: seq<byte>): seq<byte>
    requires ValidLoc(loc)
  {
    SizePrefix(size) + RexBytes(RexFor(size, loc, field)) + opcode + EmitModRm(loc, field.num)
  }

  /** Opcodes come in pairs, the even one for bytes. */
  function Pick(size: Size, opcode: byte): byte
    requires opcode < 255
  {
    if size == Byte then opcode else opcode + 1
  }

  function EmitPlusR(size: Size, reg: Reg, opcode: byte): seq<byte>
    requires opcode < 0xf8
  {
    var x := Rex(size == Qword, false, false, reg.id >= 8, NeedsRex(reg));
    SizePrefix(size) + RexBytes(x) + [opcode + reg.id % 8]
  }

  function RaxPrefix(size: Size): seq<byte> {
    if size == Word then [0x66] else if size == Qword then [0x48] else []
  }

  function EmitAlu(id: nat, dst: Loc, src: Operand): seq<byte>
    requires id < 8 && ValidAlu(dst, src)
  {
    var size := LocSize(dst);
    match src
    case Imm(v) =>
      if size != Byte && Int8(v) then EmitRRm(size, dst, Ext(id), [0x83]) + Le(v, 1)
      else if dst.R? && dst.reg.id == 0 then RaxPrefix(size) + [id * 8 + Pick(size, 4)] + ImmBytes(Cap(size), v)
      else EmitRRm(size, dst, Ext(id), [Pick(size, 0x80)]) + ImmBytes(Cap(size), v)
    case At(R(reg)) => EmitRRm(size, dst, RegField(reg), [id * 8 + Pick(size, 0)])
    case At(M(m)) => EmitRRm(size, M(m), RegField(dst.reg), [id * 8 + Pick(size, 2)])
  }

  function EmitShift(id: nat, dst: Loc, count: Count): seq<byte>
    requires ValidLoc(dst)
  {
    var size := LocSize(dst);
    match count
    case ByCl => EmitRRm(size, dst, Ext(id), [Pick(size, 0xd2)])
    case By(n) =>
      if n == 1 then EmitRRm(size, dst, Ext(id), [Pick(size, 0xd0)])
      else EmitRRm(size, dst, Ext(id), [Pick(size, 0xc0)]) + Le(n, 1)
  }

  function EmitMov(dst: Loc, src: Operand): seq<byte>
    requires ValidMov(dst, src)
  {
    var size := LocSize(dst);
    match src
    case Imm(v) =>
      var size' := if dst.R? && size == Qword && Uint32(v) then Dword else size;
      if dst.R? && (size' != Qword || !Int32(v)) then EmitPlusR(size', dst.reg, Pick(size', 0xb0) + (if size' == Byte then 0 else 7)) + ImmBytes(size', v)
      else EmitRRm(size', dst, Ext(0), [Pick(size', 0xc6)]) + ImmBytes(Cap(size'), v)
    case At(R(reg)) => EmitRRm(size, dst, RegField(reg), [Pick(size, 0x88)])
    case At(M(m)) => EmitRRm(size, M(m), RegField(dst.reg), [Pick(size, 0x8a)])
  }

  function MovsxOpcode(size: Size): seq<byte> {
    match size
    case Byte => [0x0f, 0xbe]
    case Word => [0x0f, 0xbf]
    case _ => [0x63]
  }

  function Encode(op: Op): seq<byte>
    requires ValidOp(op)
  {
    match op
    case Alu(id, dst, src) => EmitAlu(id, dst, src)
    case Shift(id, dst, count) => EmitShift(id, dst, count)
    case Unary(id, loc) => EmitRRm(LocSize(loc), loc, Ext(id), [Pick(LocSize(loc), 0xf6)])
    case Mov(dst, src) => EmitMov(dst, src)
    case Movsx(dst, src) => EmitRRm(dst.size, src, RegField(dst), MovsxOpcode(LocSize(src)))
    case Movzx(dst, src) => EmitRRm(dst.size, src, RegField(dst), [0x0f, if LocSize(src) == Byte then 0xb6 else 0xb7])
    case Lea(dst, m) => EmitRRm(dst.size, M(m), RegField(dst), [0x8d])
    case Cmovcc(dst, src, cc) => EmitRRm(dst.size, src, RegField(dst), [0x0f, 0x40 + cc])
    case Setcc(dst, cc) => EmitRRm(Byte, dst, Ext(0), [0x0f, 0x90 + cc])
    case Imul2(dst, src) => EmitRRm(dst.size, src, RegField(dst), [0x0f, 0xaf])
    case Cmpxchg(dst, src) => EmitRRm(src.size, dst, RegField(src), [0x0f, Pick(src.size, 0xb0)])
    case Xadd(dst, src) => EmitRRm(src.size, dst, RegField(src), [0x0f, Pick(src.size, 0xc0)])
    case Xchg(reg, m) => EmitRRm(reg.size, M(m), RegField(reg), [Pick(reg.size, 0x86)])
    case Test(dst, reg) => EmitRRm(reg.size, dst, RegField(reg), [Pick(reg.size, 0x84)])
    case TestImm(dst, v) => EmitRRm(LocSize(dst), dst, Ext(0), [Pick(LocSize(dst), 0xf6)]) + ImmBytes(Cap(LocSize(dst)), v)
    case Call(target) => [0xe8] + Le(target, 4)
    case Jmp(target) => if Int8(target) then [0xeb] + Le(target, 1) else [0xe9] + Le(target, 4)
    case Jcc(target, cc) =>
      if Int8(target) then [0x70 + cc] + Le(target, 1) else [0x0f, 0x80 + cc] + Le(target, 4)
    case Cdqe => [0x48, 0x98]
    case Cdq => [0x99]
    case Cqo => [0x48, 0x99]
    case Lock => [0xf0]
    case Mfence => [0x0f, 0xae, 0xf0]
    case Nop => [0x90]
    case Ret => [0xc3]
  }

  /** The emitter: bytes are appended one by one as prefixes and operands are worked out. */
  class Encoder {
    var bytes: seq<byte>

    constructor ()
      ensures bytes == []
    {
      bytes := [];
    }

    method EmitU8(value: int)
      modifies this
      ensures bytes == old(bytes) + [Byte0(value)]
      ensures 0 <= value < 256 ==> bytes == old(bytes) + [value]
    {
      bytes := bytes + [Byte0(value)];
    }

    method EmitLe(value: int, n: nat)
      modifies this
      ensures bytes == old(bytes) + Le(value, n)
    {
      var v, i := value, 0;
      while i < n
        invariant i <= n && old(bytes) + Le(value, n) == bytes + Le(v, n - i)
      {
        EmitU8(v);
        v, i := v / 256, i + 1;
      }
    }

    /** REX is gathered bit by bit from the registers of the instruction. */
    method EmitRex(size: Size, loc: Loc, field: Field)
      modifies this
      ensures bytes == old(bytes) + RexBytes(RexFor(size, loc, field))
    {
      var rex := Rex(size == Qword, false, false, false, field.special);
      if field.num >= 8 {
        rex := rex.(r := true);
      }
      match loc {
        case R(reg) =>
          if NeedsRex(reg) {
            rex := rex.(force := true);
          }
          if reg.id >= 8 {
            rex := rex.(b := true);
          }
        case M(m) =>
          if m.base.Gp? && m.base.id >= 8 {
            rex := rex.(b := true);
          }
          if m.index.Index? && m.index.id >= 8 {
            rex := rex.(x := true);
          }
      }
      assert rex == RexFor(size, loc, field);
      if RexNeeded(rex) {
        EmitU8(RexByte(rex));
      }
    }

    /** ModR/M, then SIB and displacement as the operand needs them. */
    method EmitModRmBytes(loc: Loc, reg: nat)
      requires ValidLoc(loc)
      modifies this
      ensures bytes == old(bytes) + EmitModRm(loc, reg)
    {
      hide ModRm, Sib, Byte0, Le;
      match loc {
        case R(r) => EmitU8(ModRm(3, reg, r.id));
        case M(m) =>
          match (m.base, m.index) {
            case (NoBase, NoIndex) =>
              EmitU8(ModRm(0, reg, 4));
              EmitU8(0x25);
              EmitLe(m.disp, 4);
            case (NoBase, Index(i, shift)) =>
              EmitU8(ModRm(0, reg, 4));
              EmitU8(Sib(shift, i, 5));
              EmitLe(m.disp, 4);
            case (Rip, _) =>
              EmitU8(ModRm(0, reg, 5));
              EmitLe(m.disp, 4);
            case (Gp(b), NoIndex) => EmitBased(m, reg, b);
            case (Gp(b), Index(i, shift)) => EmitIndexed(m, reg, b, i, shift);
          }
      }
    }

    /** RSP and R12 need a SIB byte; RBP and R13 a displacement, even if it is zero. */
    method EmitBased(m: Memory, reg: nat, b: nat)
      requires ValidMem(m) && m.base == Gp(b) && m.index == NoIndex
      modifies this
      ensures bytes == old(bytes) + EmitModRm(M(m), reg)
    {
      hide ModRm, Byte0, Le;
      if b % 8 == 4 {
        if m.disp == 0 {
          EmitU8(ModRm(0, reg, 4));
          EmitU8(0x24);
        } else if Int8(m.disp) {
          EmitU8(ModRm(1, reg, 4));
          EmitU8(0x24);
          EmitLe(m.disp, 1);
        } else {
          EmitU8(ModRm(2, reg, 4));
          EmitU8(0x24);
          EmitLe(m.disp, 4);
        }
      } else if m.disp == 0 && b % 8 != 5 {
        EmitU8(ModRm(0, reg, b));
      } else if Int8(m.disp) {
        EmitU8(ModRm(1, reg, b));
        EmitLe(m.disp, 1);
      } else {
        EmitU8(ModRm(2, reg, b));
        EmitLe(m.disp, 4);
      }
    }

    method EmitIndexed(m: Memory, reg: nat, b: nat, i: nat, shift: nat)
      requires ValidMem(m) && m.base == Gp(b) && m.index == Index(i, shift)
      modifies this
      ensures bytes == old(bytes) + EmitModRm(M(m), reg)
    {
      hide ModRm, Sib, Byte0, Le;
      if m.disp == 0 && b % 8 != 5 {
        EmitU8(ModRm(0, reg, 4));
        EmitU8(Sib(shift, i, b));
      } else if Int8(m.disp) {
        EmitU8(ModRm(1, reg, 4));
        EmitU8(Sib(shift, i, b));
        EmitLe(m.disp, 1);
      } else {
        EmitU8(ModRm(2, reg, 4));
        EmitU8(Sib(shift, i, b));
        EmitLe(m.disp, 4);
      }
    }

    method EmitInstruction(size: Size, loc: Loc, field: Field, opcode: seq<byte>)
      requires ValidLoc(loc)
      modifies this
      ensures bytes == old(bytes) + EmitRRm(size, loc, field, opcode)
    {
      hide RexBytes, RexFor, EmitModRm;
      if size == Word {
        EmitU8(0x66);
      }
      EmitRex(size, loc, field);
      bytes := bytes + opcode;
      EmitModRmBytes(loc, field.num);
    }
  }
}
