/** Reading and writing of DER elements: one tag octet, a definite length in at
    most four octets (sections 8.1.3 and 10.1 of X.690), contents. */
module Der {
  import opened Bytes
  import opened Int32
  import opened Wrappers

  // ----- reading ---------------------------------------------------------------------------------

  /** The tag is -1 where the program reads an undefined octet. */
  datatype Tlv = Tlv(tag: int, contentStart: int, contentEnd: int)
  datatype DerError = PastEnd | TruncatedLength | UnsupportedForm | ContentPastEnd

  /** der[i], undefined outside the array. */
  function ByteAt(der: seq<Byte>, i: int): Option<Byte> {
    if 0 <= i < |der| then Some(der[i]) else None
  }

  function TagAt(der: seq<Byte>, i: int): int {
    if 0 <= i < |der| then der[i] else -1
  }

  /** len shifted left by an octet, with the next octet in the low bits. */
  function ShiftIn(len: int, octet: Byte): int { ToInt32(len * 256) + octet }

  /** The value accumulated from n length octets after lenOff. */
  function LengthOctets(der: seq<Byte>, lenOff: int, n: nat): Option<int> {
    if n == 0 then Some(0)
    else
      match (LengthOctets(der, lenOff, n - 1), ByteAt(der, lenOff + n))
      case (Some(len), Some(octet)) => Some(ShiftIn(len, octet))
      case _ => None
  }

  datatype Header = Header(headerLen: nat, contentLen: int)

  /** The length field at lenOff. */
  function ReadLength(der: seq<Byte>, lenOff: int): Result<Header, DerError> {
    match ByteAt(der, lenOff)
    case None => Err(TruncatedLength)
    case Some(b0) =>
      if b0 < 0x80 then Ok(Header(1, b0))
      else
        var n := b0 - 0x80;
        if n == 0 || n > 4 then Err(UnsupportedForm)
        else
          match LengthOctets(der, lenOff, n)
          case None => Err(TruncatedLength)
          case Some(len) => Ok(Header(1 + n, len))
  }

  /** readTLV. */
  function ReadTlv(der: seq<Byte>, off: int): Result<Tlv, DerError> {
    if off >= |der| then Err(PastEnd)
    else
      match ReadLength(der, off + 1)
      case Err(e) => Err(e)
      case Ok(h) =>
        var contentStart := off + 1 + h.headerLen;
        var contentEnd := contentStart + h.contentLen;
        if contentEnd > |der| then Err(ContentPastEnd)
        else Ok(Tlv(TagAt(der, off), contentStart, contentEnd))
  }

  /** The loop that reads a length field. */
  method ReadDerLength(der: seq<Byte>, lenOff: int) returns (r: Result<Header, DerError>)
    ensures r == ReadLength(der, lenOff)
  {
    hide ShiftIn;
    if !(0 <= lenOff < |der|) {
      return Err(TruncatedLength);
    }
    var b0 := der[lenOff];
    if b0 < 0x80 {
      return Ok(Header(1, b0));
    }
    var n := b0 % 0x80;
    assert n == b0 - 0x80;
    if n == 0 || n > 4 {
      return Err(UnsupportedForm);
    }
    var len := 0;
    for k := 1 to n + 1
      invariant LengthOctets(der, lenOff, k - 1) == Some(len)
    {
      if lenOff + k >= |der| {
        MissingOctet(der, lenOff, k, n);
        return Err(TruncatedLength);
      }
      len := ShiftIn(len, der[lenOff + k]);
    }
    r := Ok(Header(1 + n, len));
  }

  lemma {:induction false} MissingOctet(der: seq<Byte>, lenOff: int, k: nat, n: nat)
    requires 1 <= k <= n && ByteAt(der, lenOff + k).None?
    ensures LengthOctets(der, lenOff, n).None?
  {
    if k < n {
      MissingOctet(der, lenOff, k, n - 1);
    }
  }

  method ReadElement(der: seq<Byte>, off: int) returns (r: Result<Tlv, DerError>)
    ensures r == ReadTlv(der, off)
  {
    if off >= |der| {
      return Err(PastEnd);
    }
    var h := ReadDerLength(der, off + 1);
    if h.Err? {
      return Err(h.error);
    }
    var contentStart := off + 1 + h.value.headerLen;
    var contentEnd := contentStart + h.value.contentLen;
    if contentEnd > |der| {
      return Err(ContentPastEnd);
    }
    r := Ok(Tlv(TagAt(der, off), contentStart, contentEnd));
  }

  // ----- what the length octets mean ------------------------------------------------------------------

  /** The octets of a long-form length. */
  function Octets(der: seq<Byte>, lenOff: nat): seq<Byte>
    requires lenOff < |der| && 0x80 <= der[lenOff] && lenOff + 1 + (der[lenOff] - 0x80) <= |der|
  {
    der[lenOff + 1..lenOff + 1 + (der[lenOff] - 0x80)]
  }

  /** The length that the octets at lenOff declare, as an unsigned number. */
  function Declared(der: seq<Byte>, lenOff: nat): nat
    requires ReadLength(der, lenOff).Ok?
  {
    if der[lenOff] < 0x80 then der[lenOff]
    else
      OctetsPresent(der, lenOff, der[lenOff] - 0x80);
      BE(Octets(der, lenOff))
  }

  lemma {:induction false} OctetsPresent(der: seq<Byte>, lenOff: nat, n: nat)
    requires LengthOctets(der, lenOff, n).Some? && lenOff < |der|
    ensures lenOff + 1 + n <= |der|
  {
    if n > 0 {
      OctetsPresent(der, lenOff, n - 1);
    }
  }

  /** The accumulated value is the declared number wrapped to 32 bits. */
  lemma {:induction false} OctetsWrap(der: seq<Byte>, lenOff: nat, n: nat)
    requires n <= 4 && lenOff + 1 + n <= |der|
    ensures LengthOctets(der, lenOff, n) == Some(ToInt32(BE(der[lenOff + 1..lenOff + 1 + n])))
    ensures BE(der[lenOff + 1..lenOff + 1 + n]) < Pow256(n)
  {
    var s := der[lenOff + 1..lenOff + 1 + n];
    BEBound(s);
    if n > 0 {
      OctetsWrap(der, lenOff, n - 1);
      var t := der[lenOff + 1..lenOff + n];
      assert s[..n - 1] == t;
      SmallPowers(n - 1);
      WrapStep(BE(t), s[n - 1]);
    }
  }

  lemma SmallPowers(n: nat)
    requires n <= 4
    ensures n <= 3 ==> Pow256(n) <= 0x100_0000
    ensures n == 4 ==> Pow256(n) == 0x1_0000_0000
  {
    assert Pow256(1) == 0x100 && Pow256(2) == 0x1_0000 && Pow256(3) == 0x100_0000;
  }

  lemma WrapStep(v: nat, octet: Byte)
    requires v < 0x100_0000
    ensures ShiftIn(v, octet) == ToInt32(v * 256 + octet)
  {}

  /** The content length read is the declared length when that is below 2^31,
      and 2^32 less otherwise. */
  lemma LengthMeaning(der: seq<Byte>, lenOff: nat)
    requires ReadLength(der, lenOff).Ok?
    ensures Declared(der, lenOff) < 0x1_0000_0000
    ensures ReadLength(der, lenOff).value.contentLen
         == if Declared(der, lenOff) < 0x8000_0000 then Declared(der, lenOff)
            else Declared(der, lenOff) - 0x1_0000_0000
    ensures Declared(der, lenOff) >= 0x8000_0000 ==> ReadLength(der, lenOff).value.headerLen == 5
  {
    if der[lenOff] >= 0x80 {
      var n := der[lenOff] - 0x80;
      OctetsPresent(der, lenOff, n);
      OctetsWrap(der, lenOff, n);
      SmallPowers(n);
    }
  }

  /** An element read at off ends behind off exactly when its declared length is
      below 2^31 or within five of 2^32; below 2^31 it ends behind its header. */
  lemma AdvancesWhen(der: seq<Byte>, off: nat)
    requires ReadTlv(der, off).Ok?
    ensures var t := ReadTlv(der, off).value; var n := Declared(der, off + 1);
      && (t.contentEnd > off <==> n < 0x8000_0000 || n >= 0xffff_fffb)
      && (t.contentEnd >= t.contentStart <==> n < 0x8000_0000)
      && t.contentStart >= off + 2
  {
    LengthMeaning(der, off + 1);
  }

  lemma {:induction false} OctetsMissing(der: seq<Byte>, lenOff: nat, n: nat)
    requires lenOff < |der|
    ensures LengthOctets(der, lenOff, n).None? <==> |der| <= lenOff + n
  {
    if n > 0 {
      OctetsMissing(der, lenOff, n - 1);
    }
  }

  /** Which length fields are refused, and why: one that is cut off by the end of
      the input; and the indefinite form 0x80 and more than four octets. */
  lemma LengthErrors(der: seq<Byte>, lenOff: int)
    ensures ReadLength(der, lenOff) == Err(TruncatedLength) <==>
      !(0 <= lenOff < |der|) || (0x81 <= der[lenOff] <= 0x84 && |der| <= lenOff + (der[lenOff] - 0x80))
    ensures ReadLength(der, lenOff) == Err(UnsupportedForm) <==>
      0 <= lenOff < |der| && (der[lenOff] == 0x80 || der[lenOff] > 0x84)
    ensures ReadLength(der, lenOff).Err? ==> ReadLength(der, lenOff).error in {TruncatedLength, UnsupportedForm}
  {
    if 0 <= lenOff < |der| && der[lenOff] >= 0x80 {
      OctetsMissing(der, lenOff, der[lenOff] - 0x80);
    }
  }

  /** Which elements are refused, and why. An element whose declared length is
      2^31 or more is never too long. */
  lemma ElementErrors(der: seq<Byte>, off: int)
    ensures ReadTlv(der, off) == Err(PastEnd) <==> off >= |der|
    ensures off < |der| && ReadLength(der, off + 1).Err? ==> ReadTlv(der, off) == Err(ReadLength(der, off + 1).error)
    ensures ReadTlv(der, off) == Err(ContentPastEnd) <==>
      && off < |der| && ReadLength(der, off + 1).Ok? && Declared(der, off + 1) < 0x8000_0000
      && off + 1 + ReadLength(der, off + 1).value.headerLen + Declared(der, off + 1) > |der|
  {
    LengthErrors(der, off + 1);
    if off < |der| && ReadLength(der, off + 1).Ok? {
      LengthMeaning(der, off + 1);
      HeaderInside(der, off + 1);
    }
  }

  lemma HeaderInside(der: seq<Byte>, lenOff: nat)
    requires ReadLength(der, lenOff).Ok?
    ensures lenOff + ReadLength(der, lenOff).value.headerLen <= |der|
  {
    if der[lenOff] >= 0x80 {
      OctetsMissing(der, lenOff, der[lenOff] - 0x80);
    }
  }

  lemma ShiftSmall(len: int, octet: Byte)
    requires 0 <= len < 0x80_0000
    ensures ShiftIn(len, octet) == len * 256 + octet
  {}

  lemma ShiftLarge(len: int, octet: Byte)
    requires 0x80_0000 <= len < 0x100_0000
    ensures ShiftIn(len, octet) == len * 256 + octet - 0x1_0000_0000
  {}

  lemma NegativeLength(d: seq<Byte>, off: int)
    requires 0 <= off && off + 5 <= |d|
    requires d[off + 1] == 0xff && d[off + 2] == 0xff && d[off + 3] == 0xff
    ensures LengthOctets(d, off, 4) == Some((d[off + 4] as int) - 256)
  {
    hide ShiftIn;
    ShiftSmall(0, 0xff);
    ShiftSmall(0xff, 0xff);
    ShiftSmall(0xffff, 0xff);
    ShiftLarge(0xff_ffff, d[off + 4]);
    OctetStep(d, off, 0, 0);
    OctetStep(d, off, 1, 0xff);
    OctetStep(d, off, 2, 0xffff);
    OctetStep(d, off, 3, 0xff_ffff);
  }

  lemma OctetStep(d: seq<Byte>, off: int, n: nat, len: int)
    requires 0 <= off + n + 1 < |d| && LengthOctets(d, off, n) == Some(len)
    ensures LengthOctets(d, off, n + 1) == Some(ShiftIn(len, d[off + n + 1]))
  {}

  /** Tag, four length octets and the length 2^32 - k for k up to 256: the 32-bit
      shift makes it -k, so the element ends k octets before its contents. */
  lemma ReadNegative(d: seq<Byte>, off: nat)
    requires off + 6 <= |d| && d[off] == 0x30 && d[off + 1] == 0x84
    requires d[off + 2] == 0xff && d[off + 3] == 0xff && d[off + 4] == 0xff
    ensures ReadTlv(d, off) == Ok(Tlv(0x30, off + 6, off + 6 - 256 + d[off + 5] as int))
  {
    NegativeLength(d, off + 1);
    hide LengthOctets;
  }

  // ----- writing -----------------------------------------------------------------------------------------

  /** How many octets a positive number needs. */
  function OctetCount(n: nat): (k: nat)
    ensures k >= 1 && n < Pow256(k)
    ensures forall j: nat :: n < Pow256(j) && n > 0 ==> k <= j
  {
    if n < 256 then
      assert Pow256(1) == 256 && Pow256(0) == 1;
      1
    else
      var k := OctetCount(n / 256);
      assert forall j: nat :: n < Pow256(j) ==> j > 0 && n / 256 < Pow256(j - 1);
      k + 1
  }

  /** The shortest definite length field. */
  function EncodeLength(n: nat): seq<Byte>
    requires n < 0x8000_0000
  {
    if n < 0x80 then [n]
    else
      SmallPowers(4);
      var k := OctetCount(n);
      [0x80 + k] + ToBE(n, k)
  }

  function EncodeTlv(tag: Byte, content: seq<Byte>): seq<Byte>
    requires |content| < 0x8000_0000
  {
    [tag] + EncodeLength(|content|) + content
  }

  /** s stands in der at off. */
  predicate HoldsAt(der: seq<Byte>, off: int, s: seq<Byte>) {
    0 <= off && off + |s| <= |der| && der[off..off + |s|] == s
  }

  lemma HoldsParts(der: seq<Byte>, off: nat, a: seq<Byte>, b: seq<Byte>)
    requires HoldsAt(der, off, a + b)
    ensures HoldsAt(der, off, a) && HoldsAt(der, off + |a|, b)
  {
    var w := der[off..off + |a + b|];
    assert w[..|a|] == a && w[|a|..] == b;
    assert der[off..off + |a|] == w[..|a|];
    assert der[off + |a|..off + |a| + |b|] == w[|a|..];
  }

  lemma {:induction false} ToBEValue(v: nat, n: nat)
    requires v < Pow256(n)
    ensures BE(ToBE(v, n)) == v
  {
    if n > 0 {
      assert v / 256 < Pow256(n - 1);
      ToBEValue(v / 256, n - 1);
      assert ToBE(v, n)[..n - 1] == ToBE(v / 256, n - 1);
    }
  }

  lemma ReadLongLength(der: seq<Byte>, lenOff: nat, v: nat, n: nat)
    requires 1 <= n <= 4 && v < Pow256(n) && v < 0x8000_0000
    requires HoldsAt(der, lenOff, [0x80 + n] + ToBE(v, n))
    ensures ReadLength(der, lenOff) == Ok(Header(1 + n, v))
  {
    HoldsParts(der, lenOff, [0x80 + n], ToBE(v, n));
    assert der[lenOff] == der[lenOff..lenOff + 1][0];
    OctetsWrap(der, lenOff, n);
    ToBEValue(v, n);
  }

  /** Reading an encoded length gives it back. */
  lemma ReadEncodedLength(der: seq<Byte>, lenOff: nat, n: nat)
    requires n < 0x8000_0000 && HoldsAt(der, lenOff, EncodeLength(n))
    ensures ReadLength(der, lenOff) == Ok(Header(|EncodeLength(n)|, n))
  {
    SmallPowers(4);
    if n < 0x80 {
      assert der[lenOff] == der[lenOff..lenOff + 1][0];
    } else {
      ReadLongLength(der, lenOff, n, OctetCount(n));
    }
  }

  /** A tag, a readable length field and that many octets are an element. */
  lemma ReadParts(der: seq<Byte>, off: nat, tag: Byte, len: seq<Byte>, content: seq<Byte>)
    requires HoldsAt(der, off, [tag] + len + content)
    requires ReadLength(der, off + 1) == Ok(Header(|len|, |content|))
    ensures ReadTlv(der, off) == Ok(Tlv(tag, off + 1 + |len|, off + 1 + |len| + |content|))
  {
    assert ([tag] + len + content)[0] == tag;
    assert der[off] == der[off..off + 1 + |len| + |content|][0];
  }

  /** Reading an encoded element gives its tag and the bounds of its contents. */
  lemma ReadEncoded(der: seq<Byte>, off: nat, tag: Byte, content: seq<Byte>)
    requires |content| < 0x8000_0000 && HoldsAt(der, off, EncodeTlv(tag, content))
    ensures var e := EncodeTlv(tag, content);
      && ReadTlv(der, off) == Ok(Tlv(tag, off + |e| - |content|, off + |e|))
      && HoldsAt(der, off + |e| - |content|, content)
      && |e| >= |content| + 2
  {
    var n := |content|;
    var len := EncodeLength(n);
    HoldsParts(der, off, [tag] + len, content);
    HoldsParts(der, off, [tag], len);
    ReadEncodedLength(der, off + 1, n);
    ReadParts(der, off, tag, len, content);
  }
}
