/** The 0x-prefixed 32-byte hexadecimal texts of the wire and of the database. */
module HexText {
  import opened Bytes

  const HEX_DIGITS: nat := 64

  predicate IsHexDigit(c: char) {
    '0' <= c <= '9' || 'a' <= c <= 'f' || 'A' <= c <= 'F'
  }

  /** The validator: 0x and 64 digits of either case. */
  predicate IsHex32(s: string) {
    |s| == 66 && s[..2] == "0x" && AllHex(s[2..])
  }

  predicate AllHex(s: string) {
    forall i :: 0 <= i < |s| ==> IsHexDigit(s[i])
  }

  function DigitValue(c: char): (v: nat)
    requires IsHexDigit(c)
    ensures v < 16
  {
    if '0' <= c <= '9' then c as int - '0' as int
    else if 'a' <= c <= 'f' then c as int - 'a' as int + 10
    else c as int - 'A' as int + 10
  }

  function Digit(v: nat): (c: char)
    requires v < 16
    ensures IsHexDigit(c) && DigitValue(c) == v && Lower(c) == c
  {
    if v < 10 then ('0' as int + v) as char else ('a' as int + v - 10) as char
  }

  function Lower(c: char): char {
    if 'A' <= c <= 'F' then (c as int - 'A' as int + 'a' as int) as char else c
  }

  function LowerText(s: string): string {
    seq(|s|, i requires 0 <= i < |s| => Lower(s[i]))
  }

  function Number(s: string): nat
    requires AllHex(s)
  {
    if s == "" then 0 else Number(s[..|s| - 1]) * 16 + DigitValue(s[|s| - 1])
  }

  /** BigInt of a validated text. */
  function ValueOf(s: string): nat
    requires IsHex32(s)
  {
    Number(s[2..])
  }

  function Pow16(n: nat): (r: nat)
    ensures r > 0
  {
    if n == 0 then 1 else 16 * Pow16(n - 1)
  }

  /** The n low digits of v in lower case: toString(16) padded with zeros. */
  function Digits(v: nat, n: nat): (s: string)
    ensures |s| == n && AllHex(s)
    ensures forall i :: 0 <= i < n ==> Lower(s[i]) == s[i]
  {
    if n == 0 then "" else Digits(v / 16, n - 1) + [Digit(v % 16)]
  }

  /** A number that bigintToHex32 accepts. */
  predicate FitsHex32(v: int) { 0 <= v < Pow16(HEX_DIGITS) }

  /** bigintToHex32. */
  function Hex32(v: int): (s: string)
    requires FitsHex32(v)
    ensures IsHex32(s)
  {
    var d := Digits(v, HEX_DIGITS);
    assert ("0x" + d)[2..] == d;
    "0x" + d
  }

  /** Two digits a byte, the first the high one. */
  function DigitBytes(d: string): (b: seq<Byte>)
    requires AllHex(d) && |d| % 2 == 0
    ensures |b| == |d| / 2
  {
    seq(|d| / 2, i requires 0 <= i < |d| / 2 => 16 * DigitValue(d[2 * i]) + DigitValue(d[2 * i + 1]))
  }

  /** The 32 bytes of a validated text. */
  function HexBytes(s: string): (b: seq<Byte>)
    requires IsHex32(s)
    ensures |b| == 32
  {
    DigitBytes(s[2..])
  }

  lemma LastByte(d: string)
    requires AllHex(d) && |d| % 2 == 0 && d != ""
    ensures DigitBytes(d) == DigitBytes(d[..|d| - 2]) + [16 * DigitValue(d[|d| - 2]) + DigitValue(d[|d| - 1])]
  {
    hide DigitValue;
    var k := |d| - 2;
    var h := k / 2;
    assert |d| == 2 * h + 2 && |d| / 2 == h + 1;
    forall i | 0 <= i < h ensures DigitBytes(d)[i] == DigitBytes(d[..k])[i] {
      assert d[..k][2 * i] == d[2 * i] && d[..k][2 * i + 1] == d[2 * i + 1];
    }
    assert DigitBytes(d)[h] == 16 * DigitValue(d[k]) + DigitValue(d[k + 1]);
  }

  lemma LastTwoDigits(d: string)
    requires AllHex(d) && |d| >= 2
    ensures Number(d) == Number(d[..|d| - 2]) * 256 + (16 * DigitValue(d[|d| - 2]) + DigitValue(d[|d| - 1]))
  {
    hide DigitValue;
    var front := d[..|d| - 1];
    assert front[..|front| - 1] == d[..|d| - 2];
    assert Number(front) == Number(d[..|d| - 2]) * 16 + DigitValue(d[|d| - 2]);
  }

  lemma {:induction false} DigitBytesSpell(d: string)
    requires AllHex(d) && |d| % 2 == 0
    ensures BE(DigitBytes(d)) == Number(d)
  {
    if d != "" {
      var front := d[..|d| - 2];
      LastByte(d);
      LastTwoDigits(d);
      DigitBytesSpell(front);
      hide DigitBytes, Number, DigitValue;
      var b := DigitBytes(d);
      assert b[..|b| - 1] == DigitBytes(front);
    }
  }

  /** The bytes of a text and the text itself are one number. */
  lemma BytesSpellValue(s: string)
    requires IsHex32(s)
    ensures BE(HexBytes(s)) == ValueOf(s)
  {
    DigitBytesSpell(s[2..]);
  }

  lemma {:induction false} DigitsInvert(v: nat, n: nat)
    requires v < Pow16(n)
    ensures Number(Digits(v, n)) == v
  {
    if n > 0 {
      assert v / 16 < Pow16(n - 1);
      DigitsInvert(v / 16, n - 1);
      assert Digits(v, n)[..n - 1] == Digits(v / 16, n - 1);
    }
  }

  /** Reading a formatted number gives it back. */
  lemma HexRoundTrip(v: int)
    requires FitsHex32(v)
    ensures ValueOf(Hex32(v)) == v
  {
    DigitsInvert(v, HEX_DIGITS);
    assert Hex32(v)[2..] == Digits(v, HEX_DIGITS);
  }

  lemma {:induction false} NumberBound(s: string)
    requires AllHex(s)
    ensures Number(s) < Pow16(|s|)
  {
    if s != "" {
      NumberBound(s[..|s| - 1]);
    }
  }

  /** Every validated text names a number that can be formatted again. */
  lemma ValueFits(s: string)
    requires IsHex32(s)
    ensures FitsHex32(ValueOf(s))
  {
    NumberBound(s[2..]);
  }

  lemma SameDigit(c: char, d: char)
    requires IsHexDigit(c) && IsHexDigit(d)
    ensures DigitValue(c) == DigitValue(d) <==> Lower(c) == Lower(d)
  {}

  /** Digit strings of one length spell the same number exactly when they agree
      up to case. */
  lemma {:induction false} SameNumber(s: string, t: string)
    requires |s| == |t| && AllHex(s) && AllHex(t)
    ensures Number(s) == Number(t) <==> forall i :: 0 <= i < |s| ==> Lower(s[i]) == Lower(t[i])
  {
    if s != "" {
      var k := |s| - 1;
      SameNumber(s[..k], t[..k]);
      SameDigit(s[k], t[k]);
      LastDigit(Number(s[..k]), DigitValue(s[k]), Number(t[..k]), DigitValue(t[k]));
      assert forall i :: 0 <= i < k ==> s[..k][i] == s[i] && t[..k][i] == t[i];
    }
  }

  lemma LastDigit(a: nat, c: nat, b: nat, d: nat)
    requires c < 16 && d < 16
    ensures a * 16 + c == b * 16 + d <==> a == b && c == d
  {}

  /** Two validated texts name the same number exactly when they differ at
      most in case. */
  lemma SameValue(s: string, t: string)
    requires IsHex32(s) && IsHex32(t)
    ensures ValueOf(s) == ValueOf(t) <==> LowerText(s) == LowerText(t)
  {
    SameNumber(s[2..], t[2..]);
    assert s[0] == s[..2][0] && s[1] == s[..2][1] && t[0] == t[..2][0] && t[1] == t[..2][1];
    if LowerText(s) == LowerText(t) {
      forall i | 0 <= i < 64 ensures Lower(s[2..][i]) == Lower(t[2..][i]) {
        assert LowerText(s)[i + 2] == LowerText(t)[i + 2];
      }
    }
    if ValueOf(s) == ValueOf(t) {
      forall i | 0 <= i < 66 ensures Lower(s[i]) == Lower(t[i]) {
        if i >= 2 {
          assert Lower(s[2..][i - 2]) == Lower(t[2..][i - 2]);
        }
      }
      assert LowerText(s) == LowerText(t);
    }
  }

  // ----- digit by digit -------------------------------------------------------------------------

  const LOWER_DIGITS := "0123456789abcdef"
  const UPPER_DIGITS := "0123456789ABCDEF"

  /** The digits, and what each is worth. */
  lemma DigitTable(c: char, v: nat)
    ensures IsHexDigit(c) <==> c in LOWER_DIGITS || c in UPPER_DIGITS
    ensures v < 16 ==> IsHexDigit(LOWER_DIGITS[v]) && DigitValue(LOWER_DIGITS[v]) == v
    ensures v < 16 ==> IsHexDigit(UPPER_DIGITS[v]) && DigitValue(UPPER_DIGITS[v]) == v
  {
    if '0' <= c <= '9' {
      assert c == LOWER_DIGITS[c as int - '0' as int];
    } else if 'a' <= c <= 'f' {
      assert c == LOWER_DIGITS[c as int - 'a' as int + 10];
    } else if 'A' <= c <= 'F' {
      assert c == UPPER_DIGITS[c as int - 'A' as int + 10];
    }
  }

  /** The left digits weigh more: with DigitTable this fixes the number of a text. */
  lemma {:induction false} NumberConcat(a: string, b: string)
    requires AllHex(a) && AllHex(b)
    ensures Number(a + b) == Number(a) * Pow16(|b|) + Number(b)
  {
    if b == "" {
      assert a + b == a;
    } else {
      var k := |b| - 1;
      NumberConcat(a, b[..k]);
      assert (a + b)[..|a + b| - 1] == a + b[..k];
      hide DigitValue;
      ShiftedSum(Number(a), Pow16(k), Number(b[..k]), DigitValue(b[k]));
    }
  }

  lemma ShiftedSum(x: int, p: int, y: int, d: int)
    ensures (x * p + y) * 16 + d == x * (16 * p) + (y * 16 + d)
  {}

  lemma NumberOfDigit(c: char)
    requires IsHexDigit(c)
    ensures Number("") == 0 && Number([c]) == DigitValue(c)
  {
    assert [c][..0] == "";
    assert Number([c][..0]) == 0;
  }

  /** The validator, character by character. */
  lemma ValidatorIs(s: string)
    ensures IsHex32(s) <==>
      && |s| == 66 && s[0] == '0' && s[1] == 'x'
      && forall i :: 2 <= i < 66 ==> s[i] in LOWER_DIGITS || s[i] in UPPER_DIGITS
  {
    if |s| == 66 {
      var digits := s[2..];
      assert s[..2] == [s[0], s[1]];
      assert forall i :: 0 <= i < 64 ==> digits[i] == s[i + 2];
      forall c: char ensures IsHexDigit(c) <==> c in LOWER_DIGITS || c in UPPER_DIGITS {
        DigitTable(c, 0);
      }
      hide IsHexDigit;
      forall i | 2 <= i < 66 ensures s[i] == digits[i - 2] {}
    }
  }
}
