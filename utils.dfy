/** String and number helpers of the machine: hexadecimal formatting,
    number parsing with Java `int` wrap-around, splitting, repetition,
    list printing, searching an `int` array and file-name extensions.
 */
module Utils {
  import opened JavaInt

  datatype Option<T> = None | Some(value: T)

  /** Eight zero characters, the padding source of `AsHex`. */
  const ZeroChars: string := "00000000"

  // ---------------------------------------------------------------------
  // Digits

  /** The lower-case hexadecimal digit of a value below 16, as
      `Integer.toHexString` writes it; `ToDigit` reads it back. */
  function HexChar(d: nat): (c: char)
    requires d < 16
    ensures IsLowerHexDigit(c)
    ensures ToDigit(c) == d
  {
    if d < 10 then (d + '0' as int) as char else (d - 10 + 'a' as int) as char
  }

  predicate IsLowerHexDigit(c: char) {
    '0' <= c <= '9' || 'a' <= c <= 'f'
  }

  /** The digit value of a character in any radix up to 16, or -1. */
  function ToDigit(c: char): (d: int)
    ensures -1 <= d < 16
    ensures d >= 0 <==> ('0' <= c <= '9' || 'a' <= c <= 'f' || 'A' <= c <= 'F')
  {
    if '0' <= c <= '9' then c as int - '0' as int
    else if 'a' <= c <= 'f' then c as int - 'a' as int + 10
    else if 'A' <= c <= 'F' then c as int - 'A' as int + 10
    else -1
  }

  /** ASCII case mapping (the model's reading of Java's case conversion). */
  function LowerCase(c: char): char {
    if 'A' <= c <= 'Z' then (c as int - 'A' as int + 'a' as int) as char else c
  }

  function UpperCase(c: char): char {
    if 'a' <= c <= 'z' then (c as int - 'a' as int + 'A' as int) as char else c
  }

  /** `String.toLowerCase`, character by character. */
  function ToLower(s: string): (r: string)
    ensures |r| == |s| && forall k :: 0 <= k < |s| ==> r[k] == LowerCase(s[k])
  {
    if s == [] then [] else [LowerCase(s[0])] + ToLower(s[1..])
  }

  // ---------------------------------------------------------------------
  // Hexadecimal formatting

  /** The digits of `n` in base 16 without leading zeros ("0" for zero). */
  function NatToHex(n: nat): (s: string)
    ensures |s| >= 1
    ensures forall k :: 0 <= k < |s| ==> IsLowerHexDigit(s[k])
  {
    if n < 16 then [HexChar(n)] else NatToHex(n / 16) + [HexChar(n % 16)]
  }

  function Pow16(k: nat): (r: nat)
    ensures r >= 1
  {
    if k == 0 then 1 else 16 * Pow16(k - 1)
  }

  lemma {:induction false} NatToHexLength(n: nat, k: nat)
    requires k >= 1 && n < Pow16(k)
    ensures |NatToHex(n)| <= k
  {
    if n >= 16 {
      NatToHexLength(n / 16, k - 1);
    }
  }

  /** `Integer.toHexString(i)`: the 32 bits of `i` read as unsigned. */
  function ToHexString(i: Word): (s: string)
    ensures 1 <= |s| <= 8
    ensures forall k :: 0 <= k < |s| ==> IsLowerHexDigit(s[k])
  {
    assert Pow16(8) == TwoTo32;
    NatToHexLength(Unsigned(i), 8);
    NatToHex(Unsigned(i))
  }

  /** `asHex(i, hexIsDefault, signed, padZero)`.  Without `hexIsDefault` a
      value of 10 or more gets the prefix "0x"; the test is on the value
      after the optional negation, so a negative value printed unsigned
      gets no prefix. */
  function AsHexWith(i: Word, hexIsDefault: bool, signed: bool, padZero: bool): (r: string)
    ensures |r| >= 1 && ((r[0] == '-') <==> (signed && i < 0))
    ensures hexIsDefault && padZero ==> |r| == (if signed && i < 0 then 9 else 8)
    ensures var j := if signed && i < 0 then Neg(i) else i;
            !hexIsDefault ==> (HasHexPrefix(r, if signed && i < 0 then 1 else 0) <==> j >= 10)
  {
    var sign := if signed && i < 0 then "-" else "";
    var j := if signed && i < 0 then Neg(i) else i;
    var s := ToHexString(j);
    sign
    + (if hexIsDefault then (if padZero then ZeroChars[|s|..] else "")
       else (if j < 10 then "" else "0x"))
    + s
  }

  /** `asHex(i, hexIsDefault)`: unsigned, zero-padded. */
  function AsHexDefault(i: Word, hexIsDefault: bool): (r: string)
    ensures hexIsDefault ==> |r| == 8
    ensures !hexIsDefault ==> (HasHexPrefix(r, 0) <==> i >= 10)
    ensures |r| >= 1 && (hexIsDefault || i >= 0) ==> FromHexValue(r, hexIsDefault) == i
  {
    if hexIsDefault || i >= 0 then
      AsHexWithRoundTrip(i, hexIsDefault, false, true);
      AsHexWith(i, hexIsDefault, false, true)
    else
      AsHexWith(i, hexIsDefault, false, true)
  }

  /** `asHex(i)`: always eight lower-case hexadecimal digits. */
  function AsHex(i: Word): (r: string)
    ensures |r| == 8
    ensures forall k :: 0 <= k < |r| ==> IsLowerHexDigit(r[k])
  {
    AsHexWith(i, true, false, true)
  }

  // ---------------------------------------------------------------------
  // Number parsing

  /** The length of the optional leading minus sign. */
  function SignLength(s: string): (n: nat)
    requires |s| > 0
    ensures n <= 1
  {
    if s[0] == '-' then 1 else 0
  }

  function Sign(s: string): int
    requires |s| > 0
  {
    if s[0] == '-' then -1 else 1
  }

  /** `s.regionMatches(pos, "0x", 0, 2)`. */
  predicate HasHexPrefix(s: string, pos: nat) {
    pos + 2 <= |s| && s[pos] == '0' && s[pos + 1] == 'x'
  }

  /** Where the digits start: after the sign and, when decimal is the
      default, after a "0x" prefix. */
  function DigitsStart(s: string, hexIsDefault: bool): (p: nat)
    requires |s| > 0
    ensures p <= |s|
  {
    var p := SignLength(s);
    if !hexIsDefault && HasHexPrefix(s, p) then p + 2 else p
  }

  /** The radix `fromHex` uses: 16 by default or after a "0x" prefix. */
  function ParseRadix(s: string, hexIsDefault: bool): nat
    requires |s| > 0
  {
    if hexIsDefault || HasHexPrefix(s, SignLength(s)) then 16 else 10
  }

  /** The radix `isNumberRepr` uses: it ignores the "0x" prefix. */
  function ReprRadix(hexIsDefault: bool): nat {
    if hexIsDefault then 16 else 10
  }

  predicate IsDigitIn(c: char, radix: nat) {
    0 <= ToDigit(c) < radix
  }

  predicate AllDigitsFrom(s: string, pos: nat, radix: nat) {
    forall j :: pos <= j < |s| ==> IsDigitIn(s[j], radix)
  }

  /** The end of the run of valid digits starting at `pos`. */
  function DigitRunEnd(s: string, pos: nat, radix: nat): (k: nat)
    requires pos <= |s|
    ensures pos <= k <= |s|
    ensures forall j :: pos <= j < k ==> IsDigitIn(s[j], radix)
    ensures k < |s| ==> !IsDigitIn(s[k], radix)
    decreases |s| - pos
  {
    if pos == |s| || !IsDigitIn(s[pos], radix) then pos else DigitRunEnd(s, pos + 1, radix)
  }

  /** The unbounded value of a digit string, most significant digit first. */
  function DigitsValue(ds: string, radix: nat): int {
    if ds == [] then 0 else DigitsValue(ds[..|ds| - 1], radix) * radix + ToDigit(ds[|ds| - 1])
  }

  /** What `fromHex(s, hexIsDefault)` returns: the digits up to the first
      invalid one, wrapped to 32 bits; the sign applies only when every
      character was a digit. */
  function FromHexValue(s: string, hexIsDefault: bool): (r: Word)
    requires |s| > 0
    ensures var start := DigitsStart(s, hexIsDefault);
            start == |s| || !IsDigitIn(s[start], ParseRadix(s, hexIsDefault)) ==> r == 0
  {
    var start := DigitsStart(s, hexIsDefault);
    var radix := ParseRadix(s, hexIsDefault);
    var k := DigitRunEnd(s, start, radix);
    if k < |s| then Wrap(DigitsValue(s[start..k], radix))
    else Wrap(Sign(s) * DigitsValue(s[start..], radix))
  }

  /** `fromHex(s, hexIsDefault)`.  `s` must be non-empty: the first
      character is read without a length check. */
  method FromHex(s: string, hexIsDefault: bool) returns (r: Word)
    requires |s| > 0
    ensures r == FromHexValue(s, hexIsDefault)
  {
    var radix: Word := if hexIsDefault then 16 else 10;
    var res: Word := 0;
    var pos := 0;
    var sign: Word := 1;
    if s[0] == '-' {
      pos := pos + 1;
      sign := -1;
    }
    if !hexIsDefault && HasHexPrefix(s, pos) {
      pos := pos + 2;
      radix := 16;
    }
    ghost var start := pos;
    assert start == DigitsStart(s, hexIsDefault) && radix == ParseRadix(s, hexIsDefault);
    assert sign == Sign(s);
    while pos < |s|
      invariant start <= pos <= |s|
      invariant forall j :: start <= j < pos ==> IsDigitIn(s[j], radix)
      invariant res == Wrap(DigitsValue(s[start..pos], radix))
    {
      var d := ToDigit(s[pos]);
      if d < 0 || radix <= d {
        FromHexResult(s, hexIsDefault, pos, res, sign);
        return res;
      }
      AccumulateDigit(s, start, pos, radix, res);
      res := Add(Mul(res, radix), d);
      pos := pos + 1;
    }
    FromHexResult(s, hexIsDefault, pos, res, sign);
    r := Mul(res, sign);
  }

  /** Where `fromHex`'s loop stops, its result is `FromHexValue`. */
  lemma FromHexResult(s: string, hexIsDefault: bool, pos: nat, res: Word, sign: Word)
    requires |s| > 0 && DigitsStart(s, hexIsDefault) <= pos <= |s|
    requires forall j :: DigitsStart(s, hexIsDefault) <= j < pos ==> IsDigitIn(s[j], ParseRadix(s, hexIsDefault))
    requires pos < |s| ==> !IsDigitIn(s[pos], ParseRadix(s, hexIsDefault))
    requires res == Wrap(DigitsValue(s[DigitsStart(s, hexIsDefault)..pos], ParseRadix(s, hexIsDefault)))
    requires sign == Sign(s)
    ensures pos < |s| ==> res == FromHexValue(s, hexIsDefault)
    ensures pos == |s| ==> Mul(res, sign) == FromHexValue(s, hexIsDefault)
  {
    var start := DigitsStart(s, hexIsDefault);
    var radix := ParseRadix(s, hexIsDefault);
    DigitRunEndAt(s, start, pos, radix);
    if pos == |s| {
      assert s[start..pos] == s[start..];
      ApplySign(s[start..], radix, res, sign);
    }
  }

  /** The run of digits ends exactly where the first non-digit is. */
  lemma DigitRunEndAt(s: string, start: nat, pos: nat, radix: nat)
    requires start <= pos <= |s|
    requires forall j :: start <= j < pos ==> IsDigitIn(s[j], radix)
    requires pos < |s| ==> !IsDigitIn(s[pos], radix)
    ensures DigitRunEnd(s, start, radix) == pos
  {
  }

  /** One step of `fromHex`'s accumulation `res = res * radix + d`. */
  lemma AccumulateDigit(s: string, start: nat, pos: nat, radix: Word, res: Word)
    requires start <= pos < |s| && radix >= 0
    requires res == Wrap(DigitsValue(s[start..pos], radix))
    ensures Add(Mul(res, radix), ToDigit(s[pos])) == Wrap(DigitsValue(s[start..pos + 1], radix))
  {
    var v := DigitsValue(s[start..pos], radix);
    assert s[start..pos + 1][..pos - start] == s[start..pos];
    assert DigitsValue(s[start..pos + 1], radix) == v * radix + ToDigit(s[pos]);
    WrapMul(v, radix);
    WrapAdd(v * radix, ToDigit(s[pos]));
  }

  lemma ApplySign(ds: string, radix: nat, res: Word, sign: Word)
    requires res == Wrap(DigitsValue(ds, radix))
    ensures Mul(res, sign) == Wrap(sign * DigitsValue(ds, radix))
  {
    WrapMul(DigitsValue(ds, radix), sign);
  }

  /** `isNumberRepr(s, hexIsDefault)`. */
  method IsNumberRepr(s: string, hexIsDefault: bool) returns (b: bool)
    requires |s| > 0
    ensures b <==> AllDigitsFrom(s, DigitsStart(s, hexIsDefault), ReprRadix(hexIsDefault))
  {
    var radix := if hexIsDefault then 16 else 10;
    var pos := 0;
    if s[0] == '-' {
      pos := pos + 1;
    }
    if !hexIsDefault && HasHexPrefix(s, pos) {
      pos := pos + 2;
    }
    ghost var start := pos;
    var max := |s|;
    while pos < max
      invariant start <= pos <= max == |s|
      invariant forall j :: start <= j < pos ==> IsDigitIn(s[j], radix)
    {
      var d := ToDigit(s[pos]);
      if d < 0 || d >= radix {
        return false;
      }
      pos := pos + 1;
    }
    return true;
  }

  // ---------------------------------------------------------------------
  // Laws of formatting and parsing

  lemma AllDigitsConsumed(s: string, pos: nat, radix: nat)
    requires pos <= |s| && AllDigitsFrom(s, pos, radix)
    ensures DigitRunEnd(s, pos, radix) == |s|
  {
  }

  lemma {:induction false} LeadingZeros(z: string, h: string, radix: nat)
    requires forall k :: 0 <= k < |z| ==> z[k] == '0'
    ensures DigitsValue(z + h, radix) == DigitsValue(h, radix)
    decreases |h|
  {
    if h == [] {
      assert z + h == z;
      ZerosValue(z, radix);
    } else {
      assert (z + h)[..|z + h| - 1] == z + h[..|h| - 1];
      LeadingZeros(z, h[..|h| - 1], radix);
    }
  }

  lemma {:induction false} ZerosValue(z: string, radix: nat)
    requires forall k :: 0 <= k < |z| ==> z[k] == '0'
    ensures DigitsValue(z, radix) == 0
  {
    if z != [] {
      ZerosValue(z[..|z| - 1], radix);
    }
  }

  lemma {:induction false} NatToHexValue(n: nat)
    ensures DigitsValue(NatToHex(n), 16) == n
  {
    if n < 16 {
      assert NatToHex(n)[..0] == [];
    } else {
      var h := NatToHex(n / 16);
      assert (h + [HexChar(n % 16)])[..|h|] == h;
      NatToHexValue(n / 16);
    }
  }

  lemma {:induction false} NatToDecimalValue(n: nat)
    ensures DigitsValue(NatToDecimal(n), 10) == n
  {
    if n < 10 {
      assert NatToDecimal(n)[..0] == [];
    } else {
      var h := NatToDecimal(n / 10);
      assert (h + [DecimalDigit(n % 10)])[..|h|] == h;
      NatToDecimalValue(n / 10);
    }
  }

  /** Round trip: `fromHex(asHex(i), true) == i` for every 32-bit `i`, the
      wrap-around of the accumulation turning eight digits from 8 up into
      a negative number again. */
  lemma AsHexRoundTrip(i: Word)
    ensures FromHexValue(AsHex(i), true) == i
  {
    var h := ToHexString(i);
    var z := ZeroChars[|h|..];
    var s := AsHex(i);
    assert s == z + h;
    assert s[0] != '-';
    assert DigitsStart(s, true) == 0 && ParseRadix(s, true) == 16;
    AllDigitsConsumed(s, 0, 16);
    assert s[0..] == s;
    LeadingZeros(z, h, 16);
    NatToHexValue(Unsigned(i));
  }

  /** Round trip of every form of `asHex` through `fromHex` with the same
      default radix, except where `asHex` writes hexadecimal digits
      without the "0x" that `fromHex` needs to read them: a negative value
      printed unsigned with decimal as the default, and `Integer.MIN_VALUE`
      printed signed. */
  lemma AsHexWithRoundTrip(i: Word, hexIsDefault: bool, signed: bool, padZero: bool)
    requires hexIsDefault || (if signed then i != -TwoTo31 else i >= 0)
    ensures FromHexValue(AsHexWith(i, hexIsDefault, signed, padZero), hexIsDefault) == i
  {
    var neg := signed && i < 0;
    var sign := if neg then "-" else "";
    var j := if neg then Neg(i) else i;
    var h := ToHexString(j);
    var r := AsHexWith(i, hexIsDefault, signed, padZero);
    SignedMagnitude(i, signed);
    NatToHexValue(Unsigned(j));
    if hexIsDefault {
      var z := if padZero then ZeroChars[|h|..] else "";
      ZeroSuffix(|h|);
      assert r == sign + z + h;
      PaddedHexParses(sign, z, h);
    } else if j >= 10 {
      assert r == sign + "0x" + h;
      PrefixedHexParses(sign, h);
    } else {
      assert h == [HexChar(j)];
      assert r == sign + h;
      DecimalDigitParses(sign, j);
    }
  }

  /** Any suffix of `ZeroChars` is all zeros. */
  lemma ZeroSuffix(n: nat)
    requires n <= |ZeroChars|
    ensures forall k :: 0 <= k < |ZeroChars[n..]| ==> ZeroChars[n..][k] == '0'
  {
    forall k | 0 <= k < |ZeroChars[n..]|
      ensures ZeroChars[n..][k] == '0'
    {
      assert ZeroChars[n..][k] == ZeroChars[n + k];
    }
  }

  /** The sign factor of an optional minus. */
  function SignOf(sign: string): int {
    if sign == "-" then -1 else 1
  }

  /** A sign, zeros and hexadecimal digits read with hexadecimal as the default. */
  lemma PaddedHexParses(sign: string, z: string, h: string)
    requires sign == "" || sign == "-"
    requires forall k :: 0 <= k < |z| ==> z[k] == '0'
    requires |h| >= 1 && forall k :: 0 <= k < |h| ==> IsLowerHexDigit(h[k])
    ensures FromHexValue(sign + z + h, true) == Wrap(SignOf(sign) * DigitsValue(h, 16))
  {
    var w := z + h;
    var r := sign + w;
    assert sign + z + h == r;
    var p := |sign|;
    assert r[p..] == w;
    assert r[0] == '-' <==> sign == "-";
    ZerosThenHex(z, h);
    DigitsAfter(sign, w, 16);
    LeadingZeros(z, h, 16);
    ParsesAs(r, true, p, 16, w);
  }

  lemma ZerosThenHex(z: string, h: string)
    requires forall k :: 0 <= k < |z| ==> z[k] == '0'
    requires forall k :: 0 <= k < |h| ==> IsLowerHexDigit(h[k])
    ensures AllDigitsFrom(z + h, 0, 16)
  {
    forall k | 0 <= k < |z + h|
      ensures IsDigitIn((z + h)[k], 16)
    {
      if k >= |z| {
        assert (z + h)[k] == h[k - |z|];
      }
    }
  }

  lemma DigitsAfter(pre: string, w: string, radix: nat)
    requires AllDigitsFrom(w, 0, radix)
    ensures AllDigitsFrom(pre + w, |pre|, radix)
  {
    forall k | |pre| <= k < |pre + w|
      ensures IsDigitIn((pre + w)[k], radix)
    {
      assert (pre + w)[k] == w[k - |pre|];
    }
  }

  /** A sign, "0x" and hexadecimal digits read with decimal as the default. */
  lemma PrefixedHexParses(sign: string, h: string)
    requires sign == "" || sign == "-"
    requires |h| >= 1 && forall k :: 0 <= k < |h| ==> IsLowerHexDigit(h[k])
    ensures FromHexValue(sign + "0x" + h, false) == Wrap(SignOf(sign) * DigitsValue(h, 16))
  {
    var pre := sign + "0x";
    var r := pre + h;
    var p := |sign|;
    assert r[0] == '-' <==> sign == "-";
    assert r[p] == '0' && r[p + 1] == 'x';
    assert DigitsStart(r, false) == p + 2 && ParseRadix(r, false) == 16;
    assert r[p + 2..] == h;
    assert AllDigitsFrom(h, 0, 16);
    DigitsAfter(pre, h, 16);
    ParsesAs(r, false, p + 2, 16, h);
  }

  /** A sign and one decimal digit read with decimal as the default. */
  lemma DecimalDigitParses(sign: string, d: nat)
    requires sign == "" || sign == "-"
    requires d < 10
    ensures FromHexValue(sign + [HexChar(d)], false) == Wrap(SignOf(sign) * d)
  {
    var r := sign + [HexChar(d)];
    var p := |sign|;
    assert r[p..] == [HexChar(d)];
    assert [HexChar(d)][..0] == [];
    assert DigitsValue([HexChar(d)], 10) == d;
    ParsesAs(r, false, p, 10, [HexChar(d)]);
  }

  /** A string read to its end is worth its signed digit value. */
  lemma ParsesAs(r: string, hexIsDefault: bool, start: nat, radix: nat, body: string)
    requires |r| > 0 && DigitsStart(r, hexIsDefault) == start && ParseRadix(r, hexIsDefault) == radix
    requires r[start..] == body && AllDigitsFrom(r, start, radix)
    ensures FromHexValue(r, hexIsDefault) == Wrap(Sign(r) * DigitsValue(body, radix))
  {
    AllDigitsConsumed(r, start, radix);
  }

  /** The sign and the unsigned magnitude `asHex` prints give `i` back. */
  lemma SignedMagnitude(i: Word, signed: bool)
    ensures var j := if signed && i < 0 then Neg(i) else i;
            Wrap((if signed && i < 0 then -1 else 1) * Unsigned(j)) == i
  {
    if signed && i < 0 && i != -TwoTo31 {
      assert Neg(i) == -(i as int);
    }
  }

  /** Round trip through Java's decimal printing: `fromHex("" + i, false) == i`. */
  lemma DecimalRoundTrip(i: Word)
    ensures FromHexValue(ToDecimal(i), false) == i
  {
    var s := ToDecimal(i);
    var n: nat := if i < 0 then -(i as int) else i;
    var p := SignLength(s);
    DecimalShape(i, n);
    AllDigitsConsumed(s, p, 10);
    NatToDecimalValue(n);
    assert Sign(s) * n == i;
  }

  /** Java's decimal form of `i`: the sign, then digits only. */
  lemma DecimalShape(i: int, n: nat)
    requires n == if i < 0 then -i else i
    ensures var s := ToDecimal(i);
            var p := SignLength(s);
            s[p..] == NatToDecimal(n) && !HasHexPrefix(s, p)
            && DigitsStart(s, false) == p && ParseRadix(s, false) == 10
            && AllDigitsFrom(s, p, 10)
  {
    var s := ToDecimal(i);
    var d := NatToDecimal(n);
    var p := SignLength(s);
    assert s[p..] == d;
    if p + 2 <= |s| {
      assert s[p + 1] == d[1];
    }
    forall j | p <= j < |s|
      ensures IsDigitIn(s[j], 10)
    {
      assert s[j] == d[j - p];
    }
  }

  /** When `isNumberRepr` accepts `s`, `fromHex` reads every character and
      applies the sign. */
  lemma NumberReprIsParsed(s: string, hexIsDefault: bool)
    requires |s| > 0
    requires AllDigitsFrom(s, DigitsStart(s, hexIsDefault), ReprRadix(hexIsDefault))
    ensures var start := DigitsStart(s, hexIsDefault);
            var radix := ParseRadix(s, hexIsDefault);
            DigitRunEnd(s, start, radix) == |s|
            && FromHexValue(s, hexIsDefault) == Wrap(Sign(s) * DigitsValue(s[start..], radix))
  {
    var start := DigitsStart(s, hexIsDefault);
    var radix := ParseRadix(s, hexIsDefault);
    assert ReprRadix(hexIsDefault) <= radix;
    AllDigitsConsumed(s, start, radix);
  }

  /** At the first character that is not a digit `fromHex` returns what it
      has read so far, without the sign. */
  lemma FromHexStopsEarly(s: string, hexIsDefault: bool, k: nat)
    requires |s| > 0
    requires DigitsStart(s, hexIsDefault) <= k < |s|
    requires AllDigitsFrom(s[..k], DigitsStart(s, hexIsDefault), ParseRadix(s, hexIsDefault))
    requires !IsDigitIn(s[k], ParseRadix(s, hexIsDefault))
    ensures FromHexValue(s, hexIsDefault)
            == Wrap(DigitsValue(s[DigitsStart(s, hexIsDefault)..k], ParseRadix(s, hexIsDefault)))
  {
    var start := DigitsStart(s, hexIsDefault);
    var radix := ParseRadix(s, hexIsDefault);
    var e := DigitRunEnd(s, start, radix);
  }

  /** With decimal as the default, `isNumberRepr` skips a "0x" prefix but
      goes on checking decimal digits, while `fromHex` reads hexadecimal
      after it: "0xff" is rejected although `fromHex` reads all of it as
      255. */
  lemma NumberReprRejectsHexLetters()
    ensures !AllDigitsFrom("0xff", DigitsStart("0xff", false), ReprRadix(false))
    ensures DigitRunEnd("0xff", DigitsStart("0xff", false), ParseRadix("0xff", false)) == 4
    ensures FromHexValue("0xff", false) == 255
  {
    var s := "0xff";
    assert DigitsStart(s, false) == 2 && ParseRadix(s, false) == 16;
    assert !IsDigitIn(s[2], ReprRadix(false));
    assert s[2..] == "ff" && s[2..][..1] == "f" && "f"[..0] == [];
    assert DigitsValue("ff", 16) == 255;
  }

  /** `isNumberRepr` checking the radix `fromHex` reads in. */
  predicate IsNumberReprFixed(s: string, hexIsDefault: bool)
    requires |s| > 0
  {
    AllDigitsFrom(s, DigitsStart(s, hexIsDefault), ParseRadix(s, hexIsDefault))
  }

  /** The corrected check accepts exactly the strings `fromHex` reads to
      the end, and so applies the sign to. */
  lemma NumberReprFixedIsParsed(s: string, hexIsDefault: bool)
    requires |s| > 0
    ensures IsNumberReprFixed(s, hexIsDefault)
            <==> DigitRunEnd(s, DigitsStart(s, hexIsDefault), ParseRadix(s, hexIsDefault)) == |s|
    ensures IsNumberReprFixed(s, hexIsDefault) ==>
              FromHexValue(s, hexIsDefault)
              == Wrap(Sign(s) * DigitsValue(s[DigitsStart(s, hexIsDefault)..], ParseRadix(s, hexIsDefault)))
  {
    var start := DigitsStart(s, hexIsDefault);
    var radix := ParseRadix(s, hexIsDefault);
    if IsNumberReprFixed(s, hexIsDefault) {
      AllDigitsConsumed(s, start, radix);
    }
  }

  // ---------------------------------------------------------------------
  // Splitting, joining and repeating

  /** The pieces of `v` separated by `sep`. */
  function Join(v: seq<string>, sep: string): string {
    if v == [] then []
    else if |v| == 1 then v[0]
    else Join(v[..|v| - 1], sep) + sep + v[|v| - 1]
  }

  /** `s.indexOf(c)`: the first position of `c`, or -1. */
  function IndexOfChar(s: string, c: char): (i: int)
    ensures -1 <= i < |s|
    ensures i >= 0 ==> s[i] == c && c !in s[..i]
    ensures i < 0 ==> c !in s
  {
    if s == [] then -1
    else if s[0] == c then 0
    else var j := IndexOfChar(s[1..], c); if j < 0 then -1 else j + 1
  }

  /** What precedes the unsplit rest after the pieces `v`: each piece
      followed by its separator. */
  function SplitPrefix(v: seq<string>, sep: char): string {
    if v == [] then [] else Join(v, [sep]) + [sep]
  }

  lemma SplitPrefixSnoc(v: seq<string>, x: string, sep: char)
    ensures SplitPrefix(v + [x], sep) == SplitPrefix(v, sep) + x + [sep]
    ensures Join(v + [x], [sep]) == SplitPrefix(v, sep) + x
  {
    if v != [] {
      assert (v + [x])[..|v|] == v;
    }
  }

  /** Cutting the rest at a separator moves one piece into the prefix. */
  lemma SplitStep(v: seq<string>, rest: string, i: nat, sep: char)
    requires i < |rest| && rest[i] == sep
    ensures SplitPrefix(v, sep) + rest == SplitPrefix(v + [rest[..i]], sep) + rest[i + 1..]
  {
    SplitPrefixSnoc(v, rest[..i], sep);
    assert rest == rest[..i] + [sep] + rest[i + 1..];
  }

  /** The last piece is the rest, when it is not empty. */
  lemma SplitLastPiece(v: seq<string>, rest: string, sep: char, s: string, w: seq<string>)
    requires SplitPrefix(v, sep) + rest == s && sep !in rest
    requires w == if |rest| > 0 then v + [rest] else v
    ensures w == [] <==> s == []
    ensures s != [] && s[|s| - 1] != sep ==> Join(w, [sep]) == s
    ensures s != [] && s[|s| - 1] == sep ==> Join(w, [sep]) + [sep] == s
  {
    if |rest| > 0 {
      SplitPrefixSnoc(v, rest, sep);
      assert s[|s| - 1] == rest[|rest| - 1];
    } else {
      assert SplitPrefix(v, sep) == s;
    }
  }

  lemma NoSeparatorAppended(v: seq<string>, x: string, sep: char)
    requires forall k :: 0 <= k < |v| ==> sep !in v[k]
    requires sep !in x
    ensures forall k :: 0 <= k < |v + [x]| ==> sep !in (v + [x])[k]
  {
  }

  /** `splitAt(s, sep)`: the pieces between the separators, empty ones
      included, except that nothing follows a trailing separator. */
  method SplitAt(s: string, sep: char) returns (v: seq<string>)
    ensures v == [] <==> s == []
    ensures forall k :: 0 <= k < |v| ==> sep !in v[k]
    ensures s != [] && s[|s| - 1] != sep ==> Join(v, [sep]) == s
    ensures s != [] && s[|s| - 1] == sep ==> Join(v, [sep]) + [sep] == s
  {
    v := [];
    var rest := s;
    while true
      invariant SplitPrefix(v, sep) + rest == s
      invariant forall k :: 0 <= k < |v| ==> sep !in v[k]
      decreases |rest|
    {
      var i := IndexOfChar(rest, sep);
      if i < 0 {
        ghost var v0 := v;
        if |rest| > 0 {
          NoSeparatorAppended(v, rest, sep);
          v := v + [rest];
        }
        SplitLastPiece(v0, rest, sep, s, v);
        return;
      }
      SplitStep(v, rest, i, sep);
      NoSeparatorAppended(v, rest[..i], sep);
      v := v + [rest[..i]];
      rest := rest[i + 1..];
    }
  }

  /** `l` copies of `s` after each other. */
  function Repeated(s: string, l: nat): string {
    if l == 0 then [] else Repeated(s, l - 1) + s
  }

  lemma {:induction false} RepeatedLength(s: string, l: nat)
    ensures |Repeated(s, l)| == l * |s|
  {
    if l > 0 {
      RepeatedLength(s, l - 1);
      assert (l - 1) * |s| + |s| == l * |s|;
    }
  }

  /** `repeat(s, l)`; a negative count gives the empty string. */
  method Repeat(s: string, l: int) returns (r: string)
    ensures r == Repeated(s, if l < 0 then 0 else l)
  {
    r := [];
    var i := 0;
    while i < l
      invariant 0 <= i <= (if l < 0 then 0 else l)
      invariant r == Repeated(s, i)
    {
      r := r + s;
      i := i + 1;
    }
  }

  /** `ppList(e, o, s, c)` on the elements' printed forms. */
  method PpList(elems: seq<string>, open: string, sep: string, close: string) returns (r: string)
    ensures r == open + Join(elems, sep) + close
  {
    var b := open;
    if |elems| > 0 {
      b := b + elems[0];
      var i := 1;
      while i < |elems|
        invariant 1 <= i <= |elems|
        invariant b == open + Join(elems[..i], sep)
      {
        assert elems[..i + 1][..i] == elems[..i];
        b := b + sep + elems[i];
        i := i + 1;
      }
      assert elems[..i] == elems;
    }
    r := b + close;
  }

  /** `ppList(list)`: bracketed and comma-separated. */
  method PpListBracketed(elems: seq<string>) returns (r: string)
    ensures r == "[" + Join(elems, ",") + "]"
  {
    r := PpList(elems, "[", ",", "]");
  }

  // ---------------------------------------------------------------------
  // Searching an int array

  /** `indexOf(a, v)`: returns `v` itself, not its position, when `v` occurs. */
  method IndexOf(a: seq<Word>, v: Word) returns (r: int)
    ensures v in a ==> r == v
    ensures v !in a ==> r == -1
  {
    var i := 0;
    while i < |a|
      invariant 0 <= i <= |a|
      invariant v !in a[..i]
    {
      if a[i] == v {
        return v;
      }
      assert a[..i + 1] == a[..i] + [a[i]];
      i := i + 1;
    }
    assert a[..i] == a;
    return -1;
  }

  /** `contains(a, v)`: because of `IndexOf`, a negative `v` is never found. */
  method Contains(a: seq<Word>, v: Word) returns (b: bool)
    ensures b <==> v in a && v >= 0
  {
    var i := IndexOf(a, v);
    b := i >= 0;
  }

  // ---------------------------------------------------------------------
  // File names

  /** `s.lastIndexOf(c)`: the last position of `c`, or -1. */
  function LastIndexOfChar(s: string, c: char): (i: int)
    ensures -1 <= i < |s|
    ensures i >= 0 ==> s[i] == c && c !in s[i + 1..]
    ensures i < 0 ==> c !in s
  {
    if s == [] then -1
    else if s[|s| - 1] == c then |s| - 1
    else LastIndexOfChar(s[..|s| - 1], c)
  }

  /** `getExtension(f)` on the name of `f`: the lower-cased text after the
      last dot, when that dot is neither the first nor the last character. */
  function GetExtension(name: string): (r: Option<string>)
    ensures r.Some? <==> (exists i :: 0 < i < |name| && name[i] == '.') && name[|name| - 1] != '.'
    ensures r.Some? ==> exists i :: 0 < i < |name| - 1 && name[i] == '.' && '.' !in name[i + 1..]
                                    && r.value == ToLower(name[i + 1..])
  {
    var i := LastIndexOfChar(name, '.');
    if i > 0 && i < |name| - 1 then
      Some(ToLower(name[i + 1..]))
    else
      assert i > 0 ==> name[|name| - 1] == '.';
      assert (exists j :: 0 < j < |name| && name[j] == '.') ==> i > 0 by {
        if j :| 0 < j < |name| && name[j] == '.' {
          if i < j {
            assert name[i + 1..][j - i - 1] == '.';
          }
        }
      }
      None
  }
}
