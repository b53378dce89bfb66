/** 32-bit Java `int` arithmetic on unbounded Dafny integers.

    Every operation that can overflow in Java is written with an explicit
    wrap-around (`Wrap`), and the truncating `/` and `%` of Java are written
    out, because Dafny's own `/` and `%` are Euclidean.
 */
module JavaInt {

  const TwoTo31: int := 0x8000_0000
  const TwoTo32: int := 0x1_0000_0000

  /** A Java `int`. */
  type Word = x: int | -0x8000_0000 <= x < 0x8000_0000

  predicate InRange(x: int) {
    -TwoTo31 <= x < TwoTo31
  }

  /** Two's-complement wrap-around of an unbounded integer to 32 bits. */
  function Wrap(x: int): (r: Word)
    ensures (x - r) % TwoTo32 == 0
    ensures InRange(x) ==> r == x
  {
    (x + TwoTo31) % TwoTo32 - TwoTo31
  }

  /** Two integers congruent modulo 2^32 wrap to the same word. */
  lemma WrapCongruent(a: int, b: int)
    requires (a - b) % TwoTo32 == 0
    ensures Wrap(a) == Wrap(b)
  {
    var ra, rb := Wrap(a), Wrap(b);
    assert a - ra == TwoTo32 * ((a - ra) / TwoTo32);
    assert b - rb == TwoTo32 * ((b - rb) / TwoTo32);
    assert a - b == TwoTo32 * ((a - b) / TwoTo32);
    var q := (a - b) / TwoTo32 - (a - ra) / TwoTo32 + (b - rb) / TwoTo32;
    assert ra - rb == TwoTo32 * q;
    assert -TwoTo32 < ra - rb < TwoTo32;
  }

  /** Wrapping an intermediate result of a sum does not change the final word. */
  lemma WrapAdd(x: int, y: int)
    ensures Wrap(Wrap(x) + y) == Wrap(x + y)
  {
    WrapCongruent(Wrap(x) + y, x + y);
  }

  /** Wrapping the multiplicand first does not change a wrapped product. */
  lemma WrapMul(x: int, k: int)
    ensures Wrap(Wrap(x) * k) == Wrap(x * k)
  {
    var q := (x - Wrap(x)) / TwoTo32;
    assert x - Wrap(x) == TwoTo32 * q;
    assert x * k - Wrap(x) * k == TwoTo32 * (q * k);
    MulOfModulus(q * k);
    WrapCongruent(Wrap(x) * k, x * k);
  }

  lemma MulOfModulus(n: int)
    ensures (TwoTo32 * n) % TwoTo32 == 0
  {
  }

  function Add(a: Word, b: Word): Word { Wrap(a + b) }
  function Sub(a: Word, b: Word): Word { Wrap(a - b) }
  function Mul(a: Word, b: Word): Word { Wrap(a * b) }
  function Neg(a: Word): Word { Wrap(-(a as int)) }

  /** Java `~a`. */
  function Not(a: Word): (r: Word)
    ensures r + a == -1
  {
    -(a as int) - 1
  }

  function Abs(x: int): nat { if x < 0 then -x else x }

  /** Integer division truncating toward zero, as Java's `/` before wrap-around. */
  function TruncDiv(a: int, b: int): (q: int)
    requires b != 0
  {
    if (a >= 0) == (b > 0) then Abs(a) / Abs(b) else -(Abs(a) / Abs(b))
  }

  /** Java `a / b`: the quotient rounded toward zero, whose magnitude is
      |a| / |b| and whose sign is negative exactly when the operands' signs
      differ; `Integer.MIN_VALUE / -1` wraps to `Integer.MIN_VALUE`. */
  function Div(a: Word, b: Word): (r: Word)
    requires b != 0
    ensures !(a == -TwoTo31 && b == -1) ==>
              Abs(r) == Abs(a) / Abs(b) && (r == 0 || ((r < 0) <==> ((a < 0) != (b < 0))))
    ensures a == -TwoTo31 && b == -1 ==> r == a
  {
    TruncDivInRange(a, b);
    TruncDivSign(a, b);
    Wrap(TruncDiv(a, b))
  }

  lemma TruncDivSign(a: int, b: int)
    requires b != 0
    ensures Abs(TruncDiv(a, b)) == Abs(a) / Abs(b)
    ensures TruncDiv(a, b) == 0 || ((TruncDiv(a, b) < 0) <==> ((a < 0) != (b < 0)))
  {
    FloorDivBounds(Abs(a), Abs(b));
  }

  /** The truncated quotient only leaves the range of `int` for
      `Integer.MIN_VALUE / -1`. */
  lemma TruncDivInRange(a: Word, b: Word)
    requires b != 0
    ensures !(a == -TwoTo31 && b == -1) ==> InRange(TruncDiv(a, b))
    ensures a == -TwoTo31 && b == -1 ==> TruncDiv(a, b) == TwoTo31
  {
    var x, d := Abs(a), Abs(b);
    FloorDivBounds(x, d);
    if d >= 2 {
      HalfAtLeast(x, d);
    }
  }

  /** Dividing by at least two at least halves. */
  lemma HalfAtLeast(x: nat, d: nat)
    requires d >= 2
    ensures 2 * (x / d) <= x
  {
    var q := x / d;
    assert d * q <= x;
    MulAtLeastTwo(d, q);
  }

  lemma MulAtLeastTwo(d: int, q: nat)
    requires d >= 2
    ensures d * q >= 2 * q
  {
  }

  /** Java's `(a / b) * b + a % b == a`, for every pair but
      `Integer.MIN_VALUE, -1`, where the quotient wraps. */
  lemma DivRemIdentity(a: Word, b: Word)
    requires b != 0 && !(a == -TwoTo31 && b == -1)
    ensures Div(a, b) * b + Rem(a, b) == a
  {
    var x, d := Abs(a), Abs(b);
    var q: int := x / d;
    var m: int := x % d;
    assert x == d * q + m;
    TruncDivInRange(a, b);
    var sq: int := if (a >= 0) == (b > 0) then q else -q;
    var sm: int := if a >= 0 then m else -m;
    assert Div(a, b) == sq;
    assert Rem(a, b) == sm;
    SignedProduct(q, d, (a >= 0) == (b > 0), b > 0);
  }

  /** The product of a signed quotient and a signed divisor. */
  lemma SignedProduct(q: int, d: int, sameSign: bool, bPos: bool)
    ensures (if sameSign then q else -q) * (if bPos then d else -d)
            == (if sameSign == bPos then d * q else -(d * q))
  {
  }



  /** Java `a % b`: the remainder takes the sign of the dividend. */
  function Rem(a: Word, b: Word): (r: Word)
    requires b != 0
    ensures Abs(r) < Abs(b)
    ensures r == 0 || ((r < 0) <==> (a < 0))
  {
    var m := Abs(a) % Abs(b);
    if a >= 0 then m else -m
  }

  function Pow2(k: nat): (r: nat)
    ensures r >= 1
  {
    if k == 0 then 1 else 2 * Pow2(k - 1)
  }

  lemma {:induction false} Pow2Add(a: nat, b: nat)
    ensures Pow2(a + b) == Pow2(a) * Pow2(b)
  {
    if a > 0 {
      Pow2Add(a - 1, b);
    }
  }

  lemma Pow2Of31()
    ensures Pow2(31) == TwoTo31
  {
    assert Pow2(8) == 256;
    assert Pow2(7) == 128;
    Pow2Add(8, 8);
    Pow2Add(16, 8);
    Pow2Add(24, 7);
  }

  /** The unsigned reading of a word's 32 bits. */
  function Unsigned(w: Word): (r: nat)
    ensures r < TwoTo32 && Wrap(r) == w
  {
    if w < 0 then w + TwoTo32 else w
  }

  /** Wrapping a number of 32 unsigned bits and reading it back unsigned
      gives the number again. */
  lemma UnsignedOfWrap(x: int)
    requires 0 <= x < TwoTo32
    ensures Unsigned(Wrap(x)) == x
  {
    if x >= TwoTo31 {
      WrapCongruent(x, x - TwoTo32);
      assert Wrap(x - TwoTo32) == x - TwoTo32;
    }
  }

  function ToBits(w: Word): bv32 {
    Unsigned(w) as bv32
  }

  function FromBits(b: bv32): Word {
    Wrap(b as int)
  }

  function And(a: Word, b: Word): Word { FromBits(ToBits(a) & ToBits(b)) }
  function Or(a: Word, b: Word): Word { FromBits(ToBits(a) | ToBits(b)) }
  function Xor(a: Word, b: Word): Word { FromBits(ToBits(a) ^ ToBits(b)) }

  /** Java masks a shift amount to its low five bits. */
  function ShiftAmount(n: Word): (k: nat)
    ensures k < 32
  {
    n % 32
  }

  /** Java `a << n`: multiplication by 2^(n & 31) with wrap-around, so an
      arithmetic shift back recovers `a` whenever no bit was lost. */
  function Shl(a: Word, n: Word): (r: Word)
    ensures InRange(a * Pow2(ShiftAmount(n))) ==> Shr(r, n) == a
  {
    var p := Pow2(ShiftAmount(n));
    MulDivCancel(a, p);
    Wrap(a * p)
  }

  /** Floor division undoes multiplication by a positive number. */
  lemma MulDivCancel(a: int, p: int)
    requires p >= 1
    ensures (a * p) / p == a
  {
    var q, m := (a * p) / p, (a * p) % p;
    assert a * p == p * q + m && 0 <= m < p;
    assert p * (a - q) == m;
    if a - q >= 1 {
      MulAtLeastOne(p, a - q);
    } else if a - q <= -1 {
      MulNegative(p, a - q);
    }
  }

  lemma MulAtLeastOne(p: int, k: int)
    requires p >= 1 && k >= 1
    ensures p * k >= p
  {
  }

  /** Java `a >> n`: the arithmetic shift, which copies the sign bit. */
  function Shr(a: Word, n: Word): (r: Word)
    ensures (r < 0) <==> (a < 0)
  {
    var p := Pow2(ShiftAmount(n));
    FloorDivBounds(a, p);
    a / p
  }

  /** Floor division by a positive number keeps the sign and does not grow the magnitude. */
  lemma FloorDivBounds(a: int, p: int)
    requires p >= 1
    ensures a >= 0 ==> 0 <= a / p <= a
    ensures a < 0 ==> a <= a / p < 0
  {
    var q, m := a / p, a % p;
    assert a == p * q + m && 0 <= m < p;
    if q >= 0 {
      MulAtLeast(p, q);
    } else {
      MulNegative(p, q);
      if q < a {
        MulAtMost(p, q + 1);
        assert false;
      }
    }
  }

  lemma MulAtLeast(p: int, q: int)
    requires p >= 1 && q >= 0
    ensures p * q >= q
  {
  }

  lemma MulAtMost(p: int, q: int)
    requires p >= 1 && q < 0
    ensures p * q <= q
  {
  }

  lemma MulNegative(p: int, q: int)
    requires p >= 1 && q <= -1
    ensures p * q <= -p
  {
  }

  /** Java `a >>> n`: the logical shift, which shifts in zero bits, so it
      divides the unsigned reading of `a` by 2^(n & 31). */
  function Ushr(a: Word, n: Word): (r: Word)
    ensures Unsigned(r) == Unsigned(a) / Pow2(ShiftAmount(n))
  {
    var q := Unsigned(a) / Pow2(ShiftAmount(n));
    FloorDivBounds(Unsigned(a), Pow2(ShiftAmount(n)));
    UnsignedOfWrap(q);
    Wrap(q)
  }

  function NatToDecimal(n: nat): (s: string)
    ensures |s| >= 1
    ensures forall k :: 0 <= k < |s| ==> '0' <= s[k] <= '9'
  {
    if n < 10 then [DecimalDigit(n)] else NatToDecimal(n / 10) + [DecimalDigit(n % 10)]
  }

  function DecimalDigit(d: nat): (c: char)
    requires d < 10
    ensures '0' <= c <= '9' && c as int - '0' as int == d
  {
    (d + '0' as int) as char
  }

  /** Java's `"" + i`: optional minus sign, then the decimal digits of |i|. */
  function ToDecimal(i: int): (s: string)
    ensures |s| >= 1
    ensures (s[0] == '-') <==> (i < 0)
    ensures forall k :: (if i < 0 then 1 else 0) <= k < |s| ==> '0' <= s[k] <= '9'
  {
    if i < 0 then "-" + NatToDecimal(-i) else NatToDecimal(i)
  }
}
