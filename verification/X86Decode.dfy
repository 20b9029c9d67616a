/** The x86-64 decoder that the signal handlers use on emitted code. */
module X86Decode {
  import opened Wrappers
  import opened X86Ops
  import E = X86Encode

  type byte = E.byte

  /** A value read from the front of the bytes, and what is left of them. */
  datatype Got<T> = Got(value: T, rest: seq<byte>)

  function Signed(v: nat, n: nat): int {
    if n == 1 then (if v < 0x80 then v else v - 0x100)
    else if n == 2 then (if v < 0x8000 then v else v - 0x1_0000)
    else if n == 4 then (if v < 0x8000_0000 then v else v - 0x1_0000_0000)
    else if v < 0x8000_0000_0000_0000 then v else v - 0x1_0000_0000_0000_0000
  }

  function Unsigned(s: seq<byte>, n: nat): (v: nat)
    requires n <= |s|
    decreases n
  {
    if n == 0 then 0 else s[0] + 256 * Unsigned(s[1..], n - 1)
  }

  /** A sign-extended little-endian number of `n` bytes. */
  function ReadInt(s: seq<byte>, n: nat): Option<Got<int>> {
    if |s| < n then None else Some(Got(Signed(Unsigned(s, n), n), s[n..]))
  }

  // ---- REX bits

  predicate RexW(rex: nat) { rex / 8 % 2 == 1 }
  predicate RexR(rex: nat) { rex / 4 % 2 == 1 }
  predicate RexX(rex: nat) { rex / 2 % 2 == 1 }
  predicate RexB(rex: nat) { rex % 2 == 1 }

  function Extended(b: bool, low: nat): nat { if b then 8 + low else low }

  /** Without REX, byte registers 4 to 7 would be AH to BH, which are not decoded. */
  function RegisterOf(id: nat, size: Size, rex: nat): Option<Reg> {
    if size == Byte && 4 <= id < 8 && rex == 0 then None else Some(Reg(id, size))
  }

  datatype Fields = Fields(loc: Loc, reg: nat)

  function WithDisp(mode: nat, m: Memory, reg: nat, s: seq<byte>): Option<Got<Fields>> {
    if mode == 0 then Some(Got(Fields(M(m), reg), s))
    else
      var d := ReadInt(s, if mode == 1 then 1 else 4);
      if d.None? then None else Some(Got(Fields(M(m.(disp := d.value.value)), reg), d.value.rest))
  }

  function WithSib(mode: nat, reg: nat, rex: nat, size: Size, s: seq<byte>): Option<Got<Fields>> {
    if s == [] then None
    else
      var sib, rest := s[0], s[1..];
      var i := Extended(RexX(rex), sib / 8 % 8);
      var b := Extended(RexB(rex), sib % 8);
      var index := if i == 4 then NoIndex else Index(i, sib / 64);
      if mode == 0 && b % 8 == 5 then WithDisp(2, Memory(NoBase, index, 0, size), reg, rest)
      else WithDisp(mode, Memory(Gp(b), index, 0, size), reg, rest)
  }

  function DecodeModRm(rex: nat, size: Size, s: seq<byte>): Option<Got<Fields>> {
    if s == [] then None
    else
      var mode, rm, rest := s[0] / 64, s[0] % 8, s[1..];
      var reg := Extended(RexR(rex), s[0] / 8 % 8);
      if mode == 3 then
        var r := RegisterOf(Extended(RexB(rex), rm), size, rex);
        if r.None? then None else Some(Got(Fields(R(r.value), reg), rest))
      else if mode == 0 && rm == 5 then WithDisp(2, Memory(Rip, NoIndex, 0, Qword), reg, rest)
      else if rm == 4 then WithSib(mode, reg, rex, size, rest)
      else WithDisp(mode, Memory(Gp(Extended(RexB(rex), rm)), NoIndex, 0, size), reg, rest)
  }

  // ---- opcodes

  /** Opcodes whose byte form is one below the wide form. */
  predicate ByteForm(o: nat) {
    || (o < 0x40 && (o % 8 == 0 || o % 8 == 2 || o % 8 == 4))
    || o in {0x80, 0x84, 0x86, 0x88, 0x8a, 0xc0, 0xc6, 0xd0, 0xd2, 0xf6, 0x0fb0, 0x0fc0}
  }

  function Resize(l: Loc, size: Size): Loc {
    match l
    case R(r) => R(r.(size := size))
    case M(m) => M(m.(size := size))
  }

  function Done(op: Op, rest: seq<byte>): Option<Got<Op>> { Some(Got(op, rest)) }

  function WithImm(n: nat, s: seq<byte>, f: int -> Op): Option<Got<Op>> {
    var d := ReadInt(s, n);
    if d.None? then None else Done(f(d.value.value), d.value.rest)
  }

  /** The reg field as a register operand. */
  function WithReg(f: Fields, size: Size, rex: nat, rest: seq<byte>, g: Reg -> Op): Option<Got<Op>> {
    var r := RegisterOf(f.reg, size, rex);
    if r.None? then None else Done(g(r.value), rest)
  }

  predicate IsShift(id: nat) { id == 4 || id == 5 || id == 7 }

  /** Opcodes that take a ModR/M operand, with the operand already decoded. */
  function WithFields(o: nat, rex: nat, size: Size, f: Fields, s: seq<byte>): Option<Got<Op>> {
    var id := f.reg % 8;
    if 0x0f40 <= o < 0x0f50 then WithReg(f, size, rex, s, (r: Reg) => Cmovcc(r, f.loc, o - 0x0f40))
    else if 0x0f90 <= o < 0x0fa0 then if id == 0 then Done(Setcc(f.loc, o - 0x0f90), s) else None
    else if o == 0x0faf then WithReg(f, size, rex, s, (r: Reg) => Imul2(r, f.loc))
    else if o == 0x0fb1 then WithReg(f, size, rex, s, (r: Reg) => Cmpxchg(f.loc, r))
    else if o == 0x0fb6 then WithReg(f, size, rex, s, (r: Reg) => Movzx(r, Resize(f.loc, Byte)))
    else if o == 0x0fb7 then WithReg(f, size, rex, s, (r: Reg) => Movzx(r, Resize(f.loc, Word)))
    else if o == 0x0fbe then WithReg(f, size, rex, s, (r: Reg) => Movsx(r, Resize(f.loc, Byte)))
    else if o == 0x0fbf then WithReg(f, size, rex, s, (r: Reg) => Movsx(r, Resize(f.loc, Word)))
    else if o == 0x0fc1 then WithReg(f, size, rex, s, (r: Reg) => Xadd(f.loc, r))
    else if o < 0x40 && o % 8 == 1 then WithReg(f, size, rex, s, (r: Reg) => Alu(o / 8, f.loc, At(R(r))))
    else if o < 0x40 && o % 8 == 3 then WithReg(f, size, rex, s, (r: Reg) => Alu(o / 8, R(r), At(f.loc)))
    else if o == 0x63 then WithReg(f, size, rex, s, (r: Reg) => Movsx(r, Resize(f.loc, Dword)))
    else if o == 0x81 then WithImm(Width(Cap(size)), s, (v: int) => Alu(id, f.loc, Imm(v)))
    else if o == 0x83 then WithImm(1, s, (v: int) => Alu(id, f.loc, Imm(v)))
    else if o == 0x85 then WithReg(f, size, rex, s, (r: Reg) => Test(f.loc, r))
    else if o == 0x87 then if f.loc.M? then WithReg(f, size, rex, s, (r: Reg) => Xchg(r, f.loc.mem)) else None
    else if o == 0x89 then WithReg(f, size, rex, s, (r: Reg) => Mov(f.loc, At(R(r))))
    else if o == 0x8b then WithReg(f, size, rex, s, (r: Reg) => Mov(R(r), At(f.loc)))
    else if o == 0x8d then if f.loc.M? then WithReg(f, size, rex, s, (r: Reg) => Lea(r, f.loc.mem)) else None
    else if o == 0xc1 then if IsShift(id) then WithImm(1, s, (v: int) => Shift(id, f.loc, By(v % 256))) else None
    else if o == 0xc7 then if id == 0 then WithImm(Width(Cap(size)), s, (v: int) => Mov(f.loc, Imm(v))) else None
    else if o == 0xd1 then if IsShift(id) then Done(Shift(id, f.loc, By(1)), s) else None
    else if o == 0xd3 then if IsShift(id) then Done(Shift(id, f.loc, ByCl), s) else None
    else if o == 0xf7 then
      if id == 0 then WithImm(Width(Cap(size)), s, (v: int) => TestImm(f.loc, v))
      else if id >= 2 then Done(Unary(id, f.loc), s) else None
    else None
  }

  predicate TakesModRm(o: nat) {
    || 0x0f40 <= o < 0x0f50 || 0x0f90 <= o < 0x0fa0
    || o in {0x0faf, 0x0fb1, 0x0fb6, 0x0fb7, 0x0fbe, 0x0fbf, 0x0fc1}
    || (o < 0x40 && (o % 8 == 1 || o % 8 == 3))
    || o in {0x63, 0x81, 0x83, 0x85, 0x87, 0x89, 0x8b, 0x8d, 0xc1, 0xc7, 0xd1, 0xd3, 0xf7}
  }

  /** The rest of an instruction, after prefixes and opcode. */
  function DecodeWide(o: nat, rex: nat, size: Size, s: seq<byte>): Option<Got<Op>> {
    if TakesModRm(o) then
      var f := DecodeModRm(rex, if 0x0f90 <= o < 0x0fa0 then Byte else size, s);
      if f.None? then None else WithFields(o, rex, size, f.value.value, f.value.rest)
    else if o < 0x40 && o % 8 == 5 then WithImm(Width(Cap(size)), s, (v: int) => Alu(o / 8, R(Reg(0, size)), Imm(v)))
    else if 0xb8 <= o < 0xc0 then
      var r := RegisterOf(Extended(RexB(rex), o - 0xb8), size, rex);
      if r.None? then None else WithImm(Width(size), s, (v: int) => Mov(R(r.value), Imm(v)))
    else if 0x70 <= o < 0x80 then WithImm(1, s, (v: int) => Jcc(v, o - 0x70))
    else if 0x0f80 <= o < 0x0f90 then WithImm(4, s, (v: int) => Jcc(v, o - 0x0f80))
    else if o == 0xe8 then WithImm(4, s, (v: int) => Call(v))
    else if o == 0xe9 then WithImm(4, s, (v: int) => Jmp(v))
    else if o == 0xeb then WithImm(1, s, (v: int) => Jmp(v))
    else if o == 0x0fae then if s != [] && s[0] == 0xf0 then Done(Mfence, s[1..]) else None
    else if o == 0x98 then if size == Qword then Done(Cdqe, s) else None
    else if o == 0x99 then if size == Qword then Done(Cqo, s) else if size == Dword then Done(Cdq, s) else None
    else if o == 0x90 then Done(Nop, s)
    else if o == 0xc3 then Done(Ret, s)
    else if o == 0xf0 then Done(Lock, s)
    else None
  }

  function DecodeBody(o: nat, rex: nat, size: Size, s: seq<byte>): Option<Got<Op>> {
    if ByteForm(o) then DecodeWide(o + 1, rex, Byte, s)
    else if o == 0xb0 then DecodeWide(0xb8, rex, Byte, s)
    else DecodeWide(o, rex, size, s)
  }

  function Escaped(b: nat): nat { 0x0f00 + b }

  /** Prefixes, in any number, then the opcode with its escape byte. */
  function DecodeAt(s: seq<byte>, rex: nat, size: Size): Option<Got<Op>>
    decreases |s|
  {
    if s == [] then None
    else
      var b, rest := s[0], s[1..];
      if 0x40 <= b < 0x50 then DecodeAt(rest, b, if RexW(b) then Qword else size)
      else if b == 0x66 then DecodeAt(rest, rex, Word)
      else if b == 0x0f then if rest == [] then None else DecodeBody(Escaped(rest[0]), rex, size, rest[1..])
      else DecodeBody(b, rex, size, rest)
  }

  function Decode(s: seq<byte>): Option<Got<Op>> { DecodeAt(s, 0, Dword) }

  /** The prefix loop: REX and the operand-size prefix, until a byte that is neither. */
  method ReadPrefixes(s: seq<byte>) returns (rex: nat, size: Size, rest: seq<byte>)
    ensures Decode(s) == DecodeAt(rest, rex, size)
    ensures rest != [] ==> !(0x40 <= rest[0] < 0x50) && rest[0] != 0x66
  {
    hide DecodeBody, RexW;
    rex, size, rest := 0, Dword, s;
    while rest != [] && (0x40 <= rest[0] < 0x50 || rest[0] == 0x66)
      invariant Decode(s) == DecodeAt(rest, rex, size)
      decreases |rest|
    {
      var prefix := rest[0];
      rest := rest[1..];
      if prefix == 0x66 {
        size := Word;
      } else {
        rex := prefix;
        if RexW(rex) {
          size := Qword;
        }
      }
    }
  }
}
