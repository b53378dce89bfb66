/** The arithmetic of the machine: `execBinop` and `execUnop` on 32-bit
    Java `int`s, the laws relating their operations, and the corrected
    logical shift and rotations.
 */
module Alu {
  import opened JavaInt
  import opened Instructions

  /** Division and remainder throw on a zero divisor. */
  predicate DefinedOn(op: BinOp, b: Word) {
    (op == BiDiv || op == BiMod) ==> b != 0
  }

  function Truth(c: bool): Word {
    if c then ConstTrue else ConstFalse
  }

  predicate IsComparison(op: BinOp) {
    op in {BiEq, BiNe, BiLt, BiGt, BiLe, BiGe}
  }

  /** The comparisons of `execBinop`: true is `CONST_TRUE`, false is `CONST_FALSE`. */
  function Compare(op: BinOp, a: Word, b: Word): (r: Word)
    requires IsComparison(op)
    ensures r == ConstTrue || r == ConstFalse
    ensures op == BiEq ==> (r == ConstTrue <==> a == b)
    ensures op == BiNe ==> (r == ConstTrue <==> a != b)
    ensures op == BiLt ==> (r == ConstTrue <==> a < b)
    ensures op == BiGt ==> (r == ConstTrue <==> a > b)
    ensures op == BiLe ==> (r == ConstTrue <==> a <= b)
    ensures op == BiGe ==> (r == ConstTrue <==> a >= b)
  {
    match op
    case BiEq => Truth(a == b)
    case BiNe => Truth(a != b)
    case BiLt => Truth(a < b)
    case BiGt => Truth(a > b)
    case BiLe => Truth(a <= b)
    case BiGe => Truth(a >= b)
  }

  /** ROL as written: `(a << n) | (a >> (32 - n))`. */
  function RolAsWritten(a: Word, n: Word): Word {
    Or(Shl(a, n), Shr(a, Sub(WordBits, n)))
  }

  /** ROR as written: `(a >> n) | (a << (32 - n))`. */
  function RorAsWritten(a: Word, n: Word): Word {
    Or(Shr(a, n), Shl(a, Sub(WordBits, n)))
  }

  /** `execBinop(code, o1, o2)`, with the left operand `a` and the right
      operand `b`. LSR, ROL and ROR use the arithmetic shift `>>`. */
  function ExecBinop(op: BinOp, a: Word, b: Word): (r: Word)
    requires DefinedOn(op, b)
    ensures IsComparison(op) ==> r == ConstTrue || r == ConstFalse
    ensures op == BiEq ==> (r == ConstTrue <==> a == b)
    ensures op == BiNe ==> (r == ConstTrue <==> a != b)
    ensures op == BiLt ==> (r == ConstTrue <==> a < b)
    ensures op == BiGt ==> (r == ConstTrue <==> a > b)
    ensures op == BiLe ==> (r == ConstTrue <==> a <= b)
    ensures op == BiGe ==> (r == ConstTrue <==> a >= b)
    ensures op == BiLsr ==> (r < 0 <==> a < 0)
    ensures op == BiMod ==> Abs(r) < Abs(b) && (r == 0 || (r < 0 <==> a < 0))
  {
    if IsComparison(op) then Compare(op, a, b)
    else
      match op
      case BiAdd => Add(a, b)
      case BiSub => Sub(a, b)
      case BiMul => Mul(a, b)
      case BiDiv => Div(a, b)
      case BiMod => Rem(a, b)
      case BiAnd => And(a, b)
      case BiOr => Or(a, b)
      case BiXor => Xor(a, b)
      case BiLsl => Shl(a, b)
      case BiLsr => Shr(a, b)
      case BiRol => RolAsWritten(a, b)
      case BiRor => RorAsWritten(a, b)
  }

  /** `execUnop(code, o1)`: two's-complement negation and bitwise complement. */
  function ExecUnop(op: UnOp, a: Word): (r: Word)
    ensures op == UiNeg ==> Add(r, a) == 0
    ensures op == UiNot ==> r + a == -1
  {
    match op
    case UiNeg =>
      WrapAdd(-(a as int), a);
      Neg(a)
    case UiNot => Not(a)
  }

  // ---------------------------------------------------------------------
  // Laws

  /** Subtraction undoes addition, overflow included. */
  lemma SubUndoesAdd(a: Word, b: Word)
    ensures ExecBinop(BiSub, ExecBinop(BiAdd, a, b), b) == a
  {
    SubAfterAdd(a, b);
  }

  lemma SubAfterAdd(a: Word, b: Word)
    ensures Sub(Add(a, b), b) == a
  {
    WrapAdd(a + b, -(b as int));
  }

  /** Negation is an involution, `Integer.MIN_VALUE` included. */
  lemma NegInvolutive(a: Word)
    ensures ExecUnop(UiNeg, ExecUnop(UiNeg, a)) == a
  {
    WrapMul(-(a as int), -1);
  }

  /** `~a == -a - 1` in 32-bit arithmetic. */
  lemma NotIsNegMinusOne(a: Word)
    ensures ExecUnop(UiNot, a) == Sub(ExecUnop(UiNeg, a), 1)
  {
    WrapAdd(-(a as int), -1);
  }

  /** Java's division identity `(a / b) * b + a % b == a`. */
  lemma DivModIdentity(a: Word, b: Word)
    requires b != 0
    ensures Add(Mul(ExecBinop(BiDiv, a, b), b), ExecBinop(BiMod, a, b)) == a
  {
    var q := TruncDiv(a, b);
    var r := Rem(a, b);
    TruncDivRem(a, b);
    WrapMul(q, b);
    WrapAdd(q * b, r);
  }

  /** The truncating quotient and the remainder recombine exactly. */
  lemma TruncDivRem(a: int, b: int)
    requires b != 0
    ensures TruncDiv(a, b) * b + (if a >= 0 then Abs(a) % Abs(b) else -(Abs(a) % Abs(b))) == a
  {
    var qa, ra, bb := Abs(a) / Abs(b), Abs(a) % Abs(b), Abs(b);
    assert Abs(a) == bb * qa + ra;
    if b > 0 {
      assert bb == b;
      if a < 0 {
        assert TruncDiv(a, b) == -qa;
        MulNeg(qa, b);
      }
    } else {
      assert b == -bb;
      if a >= 0 {
        assert TruncDiv(a, b) == -qa;
        MulNegNeg(qa, bb);
      } else {
        assert TruncDiv(a, b) == qa;
        MulNeg(bb, qa);
        assert qa * b == -(bb * qa);
      }
    }
  }

  lemma MulNeg(x: int, y: int)
    ensures (-x) * y == -(x * y)
  {
  }

  lemma MulNegNeg(x: int, y: int)
    ensures (-x) * (-y) == x * y
  {
  }

  /** Each comparison is the mirror image of another. */
  lemma ComparisonsMirror(a: Word, b: Word)
    ensures ExecBinop(BiLt, a, b) == ExecBinop(BiGt, b, a)
    ensures ExecBinop(BiLe, a, b) == ExecBinop(BiGe, b, a)
    ensures ExecBinop(BiEq, a, b) == ExecBinop(BiEq, b, a)
    ensures ExecBinop(BiNe, a, b) == Not(ExecBinop(BiEq, a, b))
  {
  }

  // ---------------------------------------------------------------------
  // The shifts as written and as intended

  /** LSR as written shifts the sign bit in: -8 shifted right by one is -4. */
  lemma LsrKeepsSign()
    ensures ExecBinop(BiLsr, -8, 1) == -4
    ensures LsrLogical(-8, 1) == 0x7FFF_FFFC
  {
    assert ShiftAmount(1) == 1 && Pow2(1) == 2;
    assert Shr(-8, 1) == -4;
    assert Unsigned(-8) == 0xFFFF_FFF8;
    assert Ushr(-8, 1) == 0x7FFF_FFFC;
  }

  /** ROL as written: rotating `Integer.MIN_VALUE` left by one gives -1,
      because the arithmetic shift copies the sign bit into every position;
      a rotation gives 1. */
  lemma RolSmearsSign(a: Word, n: Word)
    requires a == -0x8000_0000 && n == 1
    ensures ExecBinop(BiRol, a, n) == -1
    ensures RolRotating(a, n) == 1
  {
    RolAsWrittenOfMin(a, n);
    RolRotatingOfMin(a, n);
  }

  lemma RolAsWrittenOfMin(a: Word, n: Word)
    requires a == -0x8000_0000 && n == 1
    ensures RolAsWritten(a, n) == -1
  {
    var k := Sub(WordBits, n);
    assert k == 31;
    ShiftMinLeft(a, n);
    ShiftMinRight(a, k);
    OrZeroMinusOne();
  }

  lemma RolRotatingOfMin(a: Word, n: Word)
    requires a == -0x8000_0000 && n == 1
    ensures RolRotating(a, n) == 1
  {
    assert Unsigned(a) == TwoTo31;
    RotatingMin(Unsigned(a), ShiftAmount(n));
  }

  lemma OrZeroMinusOne()
    ensures Or(0, -1) == -1
  {
  }

  lemma RotatingMin(u: nat, k: nat)
    requires u == TwoTo31 && k == 1
    ensures RotateLeftNat(u, k) == 1
  {
    Pow2Of31();
    assert Pow2(k) == 2;
    assert Pow2(32 - k) == TwoTo31;
  }

  lemma ShiftMinLeft(a: Word, n: Word)
    requires a == -0x8000_0000 && n == 1
    ensures Shl(a, n) == 0
  {
    assert Pow2(ShiftAmount(n)) == 2;
    assert a * 2 == -TwoTo32;
    assert (-TwoTo32 + TwoTo31) % TwoTo32 == TwoTo31;
  }

  lemma ShiftMinRight(a: Word, n: Word)
    requires a == -0x8000_0000 && n == 31
    ensures Shr(a, n) == -1
  {
    Pow2Of31();
    assert ShiftAmount(n) == 31;
  }

  /** The logical right shift `>>>` LSR evidently intends. */
  function LsrLogical(a: Word, n: Word): (r: Word)
    ensures Unsigned(r) == Unsigned(a) / Pow2(ShiftAmount(n))
    ensures ShiftAmount(n) > 0 ==> r >= 0
    ensures a >= 0 ==> r == Shr(a, n)
  {
    LsrLogicalBounds(a, n);
    Ushr(a, n)
  }

  lemma LsrLogicalBounds(a: Word, n: Word)
    ensures ShiftAmount(n) > 0 ==> 0 <= Unsigned(a) / Pow2(ShiftAmount(n)) < TwoTo31
  {
    var k := ShiftAmount(n);
    if k > 0 {
      PowAtLeastTwo(k);
      FloorDivBounds(Unsigned(a), Pow2(k));
      assert Unsigned(a) / Pow2(k) <= Unsigned(a) / 2 by {
        DivMonotone(Unsigned(a), 2, Pow2(k));
      }
    }
  }

  lemma PowAtLeastTwo(k: nat)
    requires k >= 1
    ensures Pow2(k) >= 2
  {
  }

  lemma DivMonotone(x: nat, p: nat, q: nat)
    requires 1 <= p <= q
    ensures x / q <= x / p
  {
    var a, b := x / p, x / q;
    assert q * b <= x;
    MulMonotone(p, q, b);
    if a < b {
      assert x < p * a + p;
      MulMonotone2(p, a + 1, b);
      assert false;
    }
  }

  lemma MulMonotone(p: int, q: int, b: nat)
    requires p <= q
    ensures p * b <= q * b
  {
  }

  lemma MulMonotone2(p: nat, a: int, b: int)
    requires a <= b
    ensures p * a <= p * b
  {
  }

  /** The rotations ROL and ROR evidently intend: the bits that leave one
      end come back in at the other. On the unsigned reading `u` and with
      `u == hi * 2^(32-k) + lo`, rotating left by `k` gives `lo * 2^k + hi`. */
  function RolRotating(a: Word, n: Word): (r: Word)
    ensures RorRotating(r, n) == a
  {
    var k := ShiftAmount(n);
    var r := Wrap(RotateLeftNat(Unsigned(a), k));
    RotateInverse(Unsigned(a), k);
    UnsignedOfWrap(RotateLeftNat(Unsigned(a), k));
    r
  }

  function RorRotating(a: Word, n: Word): (r: Word)
  {
    Wrap(RotateRightNat(Unsigned(a), ShiftAmount(n)))
  }

  function RotateLeftNat(u: nat, k: nat): (v: nat)
    requires u < TwoTo32 && k < 32
    ensures v < TwoTo32
  {
    var p, q := Pow2(k), Pow2(32 - k);
    PowSplit(k);
    RotateBound(u, p, q);
    (u % q) * p + u / q
  }

  function RotateRightNat(v: nat, k: nat): (u: nat)
    requires v < TwoTo32 && k < 32
    ensures u < TwoTo32
  {
    var p, q := Pow2(k), Pow2(32 - k);
    PowSplitSwapped(k);
    RotateBound(v, q, p);
    (v % p) * q + v / p
  }

  /** Swapping the two mixed-radix digits of a 32-bit number, with radices
      `q` (low) and `p` (high), stays below 2^32. */
  lemma RotateBound(u: nat, p: nat, q: nat)
    requires p >= 1 && q >= 1 && p * q == TwoTo32 && u < TwoTo32
    ensures 0 <= (u % q) * p + u / q < TwoTo32
  {
    QuotientBound(u, p, q);
    RecombineBound(u % q, p, u / q, q);
  }

  /** Swapping the digits twice gives the number back. */
  lemma RotateBack(u: nat, p: nat, q: nat)
    requires p >= 1 && q >= 1 && p * q == TwoTo32 && u < TwoTo32
    ensures var v := (u % q) * p + u / q;
            (v % p) * q + v / p == u
  {
    var hi, lo := u / q, u % q;
    QuotientBound(u, p, q);
    DivModUnique(lo * p + hi, p, lo, hi);
    assert u == hi * q + lo;
  }

  /** `2^k * 2^(32-k) == 2^32`. */
  lemma PowSplit(k: nat)
    requires k <= 32
    ensures Pow2(k) * Pow2(32 - k) == TwoTo32
  {
    Pow2Add(k, 32 - k);
    Pow2Of32();
  }

  lemma PowSplitSwapped(k: nat)
    requires k <= 32
    ensures Pow2(32 - k) * Pow2(k) == TwoTo32
  {
    PowSplit(k);
  }

  lemma Pow2Of32()
    ensures Pow2(32) == TwoTo32
  {
    Pow2Of31();
  }

  /** A two-digit number in mixed radix with digits below `q` and `p`
      stays below `p * q`. */
  lemma RecombineBound(x: nat, p: nat, y: nat, q: nat)
    requires p >= 1 && q >= 1 && p * q == TwoTo32
    requires x < q && y < p
    ensures x * p + y < TwoTo32
  {
    MulMonotone(x, q - 1, p);
    assert (q - 1) * p == TwoTo32 - p;
  }

  lemma QuotientBound(u: nat, p: nat, q: nat)
    requires q >= 1 && u < p * q
    ensures u / q < p
  {
    if u / q >= p {
      MulMonotone(p, u / q, q);
      assert false;
    }
  }

  /** Two-digit numbers in mixed radix: the digits are the quotient and the remainder. */
  lemma DivModUnique(x: int, p: int, hi: int, lo: int)
    requires p >= 1 && 0 <= lo < p && x == hi * p + lo
    ensures x / p == hi && x % p == lo
  {
    var q, r := x / p, x % p;
    assert x == q * p + r;
    if q < hi {
      MulMonotone(q + 1, hi, p);
      assert false;
    } else if q > hi {
      MulMonotone(hi + 1, q, p);
      assert false;
    }
  }

  lemma RotateInverse(u: nat, k: nat)
    requires u < TwoTo32 && k < 32
    ensures RotateRightNat(RotateLeftNat(u, k), k) == u
  {
    PowSplit(k);
    RotateBack(u, Pow2(k), Pow2(32 - k));
  }

  /** `execBinop` with the logical shift and the rotations it evidently intends. */
  function ExecBinopFixed(op: BinOp, a: Word, b: Word): (r: Word)
    requires DefinedOn(op, b)
    ensures op != BiLsr && op != BiRol && op != BiRor ==> r == ExecBinop(op, a, b)
    ensures op == BiRol ==> RorRotating(r, b) == a
    ensures op == BiLsr && ShiftAmount(b) > 0 ==> r >= 0
  {
    match op
    case BiLsr => LsrLogical(a, b)
    case BiRol => RolRotating(a, b)
    case BiRor => RorRotating(a, b)
    case _ => ExecBinop(op, a, b)
  }
}
