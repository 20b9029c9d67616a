/** What the interpreter's `step` computes for the integer instructions. */
module Riscv {
  import opened Words
  import opened Guest

  datatype ImmKind =
    Addi | Slli | Slti | Sltiu | Xori | Srli | Srai | Ori | Andi
  | Addiw | Slliw | Srliw | Sraiw

  datatype RegKind =
    Add | Sub | Sll | Slt | Sltu | Xor | Srl | Sra | Or | And
  | Addw | Subw | Sllw | Srlw | Sraw
  | Mul | Mulh | Mulhsu | Mulhu | Div | Divu | Rem | Remu
  | Mulw | Divw | Divuw | Remw | Remuw

  /** Immediates are 32-bit; a decoded shift amount is below the operand width. */
  predicate ValidImm(k: ImmKind, imm: int) {
    if k.Slli? || k.Srli? || k.Srai? then 0 <= imm < 64
    else if k.Slliw? || k.Srliw? || k.Sraiw? then 0 <= imm < 32
    else -0x8000_0000 <= imm < 0x8000_0000
  }

  function ImmValue(k: ImmKind, a: u64, imm: int): (r: u64)
    requires ValidImm(k, imm)
  {
    match k
    case Addi => Wrap(a + imm)
    case Slli => ShiftLeft(a, imm)
    case Slti => Bool(Signed(a) < imm)
    case Sltiu => Bool(a < Wrap(imm))
    case Xori => Words.Xor(a, Wrap(imm))
    case Srli => ShiftRight(a, imm)
    case Srai => ShiftArith(a, imm)
    case Ori => Words.Or(a, Wrap(imm))
    case Andi => Words.And(a, Wrap(imm))
    case Addiw => Sext32(Wrap(Signed32(a) + imm))
    case Slliw => Sext32(ShiftLeft32(a, imm))
    case Srliw => Sext32(ShiftRight32(a, imm))
    case Sraiw => Sext32(ShiftArith32(a, imm))
  }

  function RegValue(k: RegKind, a: u64, b: u64): (r: u64) {
    match k
    case Add => Wrap(a + b)
    case Sub => Wrap(a - b)
    case Sll => ShiftLeft(a, b % 64)
    case Slt => Bool(Signed(a) < Signed(b))
    case Sltu => Bool(a < b)
    case Xor => Words.Xor(a, b)
    case Srl => ShiftRight(a, b % 64)
    case Sra => ShiftArith(a, b % 64)
    case Or => Words.Or(a, b)
    case And => Words.And(a, b)
    case Addw => Sext32(Wrap(Signed32(a) + Signed32(b)))
    case Subw => Sext32(Wrap(Signed32(a) - Signed32(b)))
    case Sllw => Sext32(ShiftLeft32(a, b % 32))
    case Srlw => Sext32(ShiftRight32(a, b % 32))
    case Sraw => Sext32(ShiftArith32(a, b % 32))
    case Mul => Wrap(a * b)
    case Mulh => High(Signed(a) * Signed(b))
    case Mulhsu => High(Signed(a) * b)
    case Mulhu => High(a * b)
    case Div => if b == 0 then W - 1 else Wrap(TruncDiv(Signed(a), Signed(b)))
    case Divu => if b == 0 then W - 1 else Wrap(a / b)
    case Rem => if b == 0 then a else Wrap(TruncRem(Signed(a), Signed(b)))
    case Remu => if b == 0 then a else Wrap(a % b)
    case Mulw => Sext32(Wrap(Signed32(a) * Signed32(b)))
    case Divw => if Signed32(b) == 0 then W - 1 else Sext32(Wrap(TruncDiv(Signed32(a), Signed32(b))))
    case Divuw => if Wrap32(b) == 0 then W - 1 else Sext32(Wrap32(Wrap32(a) / Wrap32(b)))
    case Remw => if Signed32(b) == 0 then Sext32(a) else Sext32(Wrap(TruncRem(Signed32(a), Signed32(b))))
    case Remuw => if Wrap32(b) == 0 then Sext32(a) else Sext32(Wrap32(Wrap32(a) % Wrap32(b)))
  }

  // ----- arithmetic of the halves and of the high products -----

  lemma Sext32Same(x: u64, y: u64)
    requires Wrap32(x) == Wrap32(y)
    ensures Sext32(x) == Sext32(y)
  {
  }

  lemma HalfSum(a: u64, b: u64)
    ensures Wrap32(Wrap(Signed32(a) + Signed32(b))) == Wrap32(Wrap32(a) + Wrap32(b))
  {
    WrapHalf(Signed32(a) + Signed32(b));
  }

  lemma HalfDifference(a: u64, b: u64)
    ensures Wrap32(Wrap(Signed32(a) - Signed32(b))) == Wrap32(Wrap32(a) - Wrap32(b))
  {
    WrapHalf(Signed32(a) - Signed32(b));
  }

  lemma HalfSumImm(a: u64, imm: int)
    ensures Wrap32(Wrap(Signed32(a) + imm)) == Wrap32(Wrap32(a) + Wrap32(Wrap(imm)))
  {
    WrapHalf(Signed32(a) + imm);
    WrapHalf(imm);
    hide Wrap;
  }

  /** Residues multiply: signs do not matter to the low half of a product. */
  lemma HalfProduct(a: u64, b: u64)
    ensures Wrap32(Wrap(Signed32(a) * Signed32(b))) == Wrap32(Wrap32(a) * Wrap32(b))
  {
    var p, q := Wrap32(a), Wrap32(b);
    var i, j := if p < 0x8000_0000 then 0 else 1, if q < 0x8000_0000 then 0 else 1;
    Residue(p, q, i, j);
    WrapHalf(Signed32(a) * Signed32(b));
  }

  lemma WrapHalf(x: int)
    ensures Wrap32(Wrap(x)) == Wrap32(x)
  {
  }

  lemma Residue(p: int, q: int, i: int, j: int)
    ensures Wrap32((p - i * H) * (q - j * H)) == Wrap32(p * q)
  {
    var k := i * j * H - i * q - j * p;
    assert (p - i * H) * (q - j * H) == p * q + k * H;
    Multiples(p * q, k);
  }

  lemma Multiples(x: int, k: int)
    ensures (x + k * 0x1_0000_0000) % 0x1_0000_0000 == x % 0x1_0000_0000
  {
  }

  /** The unsigned product's high word, less the multiplier when the multiplicand is negative. */
  function FixUp(a: u64, b: u64): (r: u64) {
    if Signed(a) < 0 then Wrap(High(a * b) - b) else High(a * b)
  }

  lemma MulhsuFixUp(a: u64, b: u64)
    ensures FixUp(a, b) == High(Signed(a) * b)
  {
    if Signed(a) < 0 {
      var p := a * b;
      assert (a - W) * b == p - W * b;
      HighBorrow(p, b);
    }
  }

  lemma HighBorrow(p: int, b: int)
    ensures High(p - 0x1_0000_0000_0000_0000 * b) == Wrap(High(p) - b)
  {
    assert (p - 0x1_0000_0000_0000_0000 * b) / 0x1_0000_0000_0000_0000 == p / 0x1_0000_0000_0000_0000 - b;
  }

  // ----- bounds of division -----

  lemma QuotientBound(a: nat, b: nat)
    requires b >= 1
    ensures 0 <= a / b <= a
    ensures b >= 2 ==> 2 * (a / b) <= a
    ensures 0 <= a % b < b && a % b <= a
  {
    var q, r := a / b, a % b;
    assert q * b + r == a;
    AtLeast(q, b);
  }

  lemma AtLeast(q: nat, b: nat)
    requires b >= 1
    ensures q * b >= q
    ensures b >= 2 ==> q * b >= 2 * q
  {
  }
}
