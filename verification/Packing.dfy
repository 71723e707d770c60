/** Packing of byte strings into field elements: the SPKI commitment's 34
    fields and the two limbs of an OPRF output. */
module Packing {
  import opened Bytes
  import opened Der
  import opened Wrappers

  const MAX_SPKI_BYTES: nat := 1024
  const CHUNK_BYTES: nat := 31
  const FULL_CHUNKS: nat := 33
  const NUM_CHUNKS: nat := 34

  datatype PackError = EmptySpki | SpkiTooLong | WrongLength

  /** packBE. */
  method PackBE(chunk: seq<Byte>) returns (acc: nat)
    ensures acc == BE(chunk)
  {
    acc := 0;
    assert chunk[..0] == [];
    for i := 0 to |chunk|
      invariant acc == BE(chunk[..i])
    {
      acc := acc * 256 + chunk[i];
      assert chunk[..i + 1][..i] == chunk[..i];
    }
    assert chunk[..|chunk|] == chunk;
  }

  // ----- the 34 fields of a key ------------------------------------------------------------------

  /** Zero-padding to 1024 bytes. */
  function Pad(s: seq<Byte>): (p: seq<Byte>)
    requires |s| <= MAX_SPKI_BYTES
    ensures |p| == MAX_SPKI_BYTES
  {
    s + seq(MAX_SPKI_BYTES - |s|, _ => 0)
  }

  /** The c-th chunk: 31 bytes, except the last, which is the last byte alone. */
  function Chunk(padded: seq<Byte>, c: nat): (s: seq<Byte>)
    requires |padded| == MAX_SPKI_BYTES && c < NUM_CHUNKS
    ensures |s| == ChunkLength(c)
  {
    padded[c * CHUNK_BYTES..c * CHUNK_BYTES + ChunkLength(c)]
  }

  function ChunkLength(c: nat): nat {
    if c < FULL_CHUNKS then CHUNK_BYTES else 1
  }

  function Fields(padded: seq<Byte>): seq<nat>
    requires |padded| == MAX_SPKI_BYTES
  {
    seq(NUM_CHUNKS, c requires 0 <= c < NUM_CHUNKS => BE(Chunk(padded, c)))
  }

  /** The packing of spkiCommit, before the hash. */
  method SpkiFields(spkiDer: seq<Byte>) returns (r: Result<seq<nat>, PackError>)
    ensures r == if |spkiDer| == 0 then Err(EmptySpki)
                 else if |spkiDer| > MAX_SPKI_BYTES then Err(SpkiTooLong)
                 else Ok(Fields(Pad(spkiDer)))
  {
    if |spkiDer| == 0 {
      return Err(EmptySpki);
    }
    if |spkiDer| > MAX_SPKI_BYTES {
      return Err(SpkiTooLong);
    }
    var padded := new Byte[MAX_SPKI_BYTES](_ => 0);
    for i := 0 to |spkiDer|
      invariant forall j :: 0 <= j < i ==> padded[j] == spkiDer[j]
      invariant forall j :: i <= j < MAX_SPKI_BYTES ==> padded[j] == 0
    {
      padded[i] := spkiDer[i];
    }
    ghost var all := padded[..];
    assert all == Pad(spkiDer);
    var fields := new nat[NUM_CHUNKS](_ => 0);
    for c := 0 to FULL_CHUNKS
      invariant padded[..] == all
      invariant forall d :: 0 <= d < c ==> fields[d] == BE(Chunk(all, d))
    {
      var start := c * CHUNK_BYTES;
      var packed := PackBE(padded[start..start + CHUNK_BYTES]);
      assert padded[start..start + CHUNK_BYTES] == Chunk(all, c);
      fields[c] := packed;
    }
    fields[FULL_CHUNKS] := padded[MAX_SPKI_BYTES - 1];
    LastChunk(all);
    assert fields[..] == Fields(all);
    r := Ok(fields[..]);
  }

  lemma LastChunk(padded: seq<Byte>)
    requires |padded| == MAX_SPKI_BYTES
    ensures BE(Chunk(padded, FULL_CHUNKS)) == padded[MAX_SPKI_BYTES - 1]
  {
    var s := Chunk(padded, FULL_CHUNKS);
    assert s == [padded[MAX_SPKI_BYTES - 1]];
    assert s[..0] == [];
    assert BE(s[..0]) == 0;
  }

  /** Which octets a field spells: 31 of them, big-endian, or the last one alone;
      beyond the end of the key they are zero. */
  lemma FieldIs(s: seq<Byte>, c: nat, i: nat)
    requires |s| <= MAX_SPKI_BYTES && c < NUM_CHUNKS && i < MAX_SPKI_BYTES
    ensures |Pad(s)| == 1024 && |Fields(Pad(s))| == 34
    ensures Pad(s)[i] == if i < |s| then s[i] else 0
    ensures Fields(Pad(s))[c] == if c < 33 then BE(Pad(s)[31 * c..31 * c + 31]) else Pad(s)[1023]
  {
    if c == 33 {
      LastChunk(Pad(s));
    }
  }

  /** Every field is below 2^248, that is below the field modulus. */
  lemma FieldsAreSmall(padded: seq<Byte>, c: nat)
    requires |padded| == MAX_SPKI_BYTES && c < NUM_CHUNKS
    ensures Fields(padded)[c] < Pow256(CHUNK_BYTES)
  {
    BEBound(Chunk(padded, c));
    PowersGrow(ChunkLength(c), CHUNK_BYTES);
  }

  lemma {:induction false} PowersGrow(a: nat, b: nat)
    requires a <= b
    ensures Pow256(a) <= Pow256(b)
    decreases b
  {
    if a < b {
      PowersGrow(a, b - 1);
    }
  }

  /** The bytes spelled by the first k fields. */
  function Unpack(fields: seq<nat>, k: nat): seq<Byte>
    requires k <= |fields| == NUM_CHUNKS
  {
    if k == 0 then [] else Unpack(fields, k - 1) + ToBE(fields[k - 1], ChunkLength(k - 1))
  }

  /** How many bytes the first k chunks cover. */
  function CoveredBy(k: nat): (n: nat)
    requires k <= NUM_CHUNKS
    ensures n <= MAX_SPKI_BYTES
  {
    if k == NUM_CHUNKS then MAX_SPKI_BYTES else k * CHUNK_BYTES
  }

  /** The next field adds its chunk. */
  lemma UnpackStep(padded: seq<Byte>, k: nat)
    requires |padded| == MAX_SPKI_BYTES && k < NUM_CHUNKS
    ensures Unpack(Fields(padded), k + 1) == Unpack(Fields(padded), k) + Chunk(padded, k)
  {
    ToBEInverts(Chunk(padded, k));
    assert Fields(padded)[k] == BE(Chunk(padded, k));
    hide BE, ToBE, Chunk, Fields;
  }

  lemma CoverStep(padded: seq<Byte>, k: nat)
    requires |padded| == MAX_SPKI_BYTES && k < NUM_CHUNKS
    ensures padded[..CoveredBy(k + 1)] == padded[..CoveredBy(k)] + Chunk(padded, k)
  {}

  /** Unpacking inverts packing: every padded byte is in exactly one field. */
  lemma {:induction false} UnpackInverts(padded: seq<Byte>, k: nat)
    requires |padded| == MAX_SPKI_BYTES && k <= NUM_CHUNKS
    ensures Unpack(Fields(padded), k) == padded[..CoveredBy(k)]
    decreases k
  {
    if k > 0 {
      hide Fields, Chunk, CoveredBy;
      UnpackInverts(padded, k - 1);
      UnpackStep(padded, k - 1);
      CoverStep(padded, k - 1);
    }
  }

  lemma FieldsInjective(a: seq<Byte>, b: seq<Byte>)
    requires |a| == |b| == MAX_SPKI_BYTES && Fields(a) == Fields(b)
    ensures a == b
  {
    UnpackInverts(a, NUM_CHUNKS);
    UnpackInverts(b, NUM_CHUNKS);
    assert a[..MAX_SPKI_BYTES] == a && b[..MAX_SPKI_BYTES] == b;
  }

  /** b is a followed by zero bytes only. */
  ghost predicate ZeroExtends(a: seq<Byte>, b: seq<Byte>) {
    && |a| <= |b| && b[..|a|] == a
    && forall i :: |a| <= i < |b| ==> b[i] == 0
  }

  /** Two keys get the same fields exactly when one is the other with zero
      bytes appended. */
  lemma SameFieldsIff(a: seq<Byte>, b: seq<Byte>)
    requires |a| <= |b| <= MAX_SPKI_BYTES
    ensures Fields(Pad(a)) == Fields(Pad(b)) <==> ZeroExtends(a, b)
  {
    if Fields(Pad(a)) == Fields(Pad(b)) {
      FieldsInjective(Pad(a), Pad(b));
      assert b == Pad(b)[..|b|];
      assert b[..|a|] == Pad(b)[..|a|] == a;
      forall i | |a| <= i < |b| ensures b[i] == 0 {
        assert b[i] == Pad(a)[i];
      }
    }
    if ZeroExtends(a, b) {
      SamePadding(a, b);
    }
  }

  lemma SamePadding(a: seq<Byte>, b: seq<Byte>)
    requires |b| <= MAX_SPKI_BYTES && ZeroExtends(a, b)
    ensures Pad(a) == Pad(b)
  {
    forall i | 0 <= i < MAX_SPKI_BYTES ensures Pad(a)[i] == Pad(b)[i] {
      if i < |a| {
        assert a[i] == b[..|a|][i];
      }
    }
  }

  /** The string is one DER element, whole. */
  ghost predicate IsElement(s: seq<Byte>) {
    ReadTlv(s, 0).Ok? && ReadTlv(s, 0).value.contentEnd == |s|
  }

  lemma {:induction false} PrefixOctets(a: seq<Byte>, b: seq<Byte>, lenOff: nat, n: nat)
    requires |a| <= |b| && b[..|a|] == a && LengthOctets(a, lenOff, n).Some?
    ensures LengthOctets(b, lenOff, n) == LengthOctets(a, lenOff, n)
  {
    if n > 0 {
      PrefixOctets(a, b, lenOff, n - 1);
      assert a[lenOff + n] == b[..|a|][lenOff + n];
    }
  }

  /** An element read from a string reads the same from any extension of it. */
  lemma PrefixReads(a: seq<Byte>, b: seq<Byte>)
    requires |a| <= |b| && b[..|a|] == a && ReadTlv(a, 0).Ok?
    ensures ReadTlv(b, 0) == ReadTlv(a, 0)
  {
    assert a[1] == b[..|a|][1] && a[0] == b[..|a|][0];
    if a[1] >= 0x80 {
      PrefixOctets(a, b, 1, a[1] - 0x80);
    }
  }

  /** A DER element carries its own length, so for keys that are each exactly
      one element the fields determine the key. */
  lemma KeysDetermined(a: seq<Byte>, b: seq<Byte>)
    requires |a| <= MAX_SPKI_BYTES && |b| <= MAX_SPKI_BYTES
    requires IsElement(a) && IsElement(b) && Fields(Pad(a)) == Fields(Pad(b))
    ensures a == b
  {
    if |a| <= |b| {
      SameFieldsIff(a, b);
      PrefixReads(a, b);
    } else {
      SameFieldsIff(b, a);
      PrefixReads(b, a);
    }
  }

  // ----- the two limbs of an OPRF output ------------------------------------------------------------

  datatype Limbs = Limbs(hi: nat, lo: nat)

  function Split(n: seq<Byte>): Limbs
    requires |n| == 32
  {
    Limbs(BE(n[..16]), BE(n[16..]))
  }

  /** splitOprfOutput. */
  method SplitOprfOutput(n: seq<Byte>) returns (r: Result<Limbs, PackError>)
    ensures r == if |n| != 32 then Err(WrongLength) else Ok(Split(n))
  {
    if |n| != 32 {
      return Err(WrongLength);
    }
    var hi: nat := 0;
    assert n[..0] == [];
    for i := 0 to 16
      invariant hi == BE(n[..i])
    {
      hi := hi * 256 + n[i];
      assert n[..i + 1][..i] == n[..i];
    }
    var lo: nat := 0;
    assert n[16..16] == [];
    for i := 16 to 32
      invariant lo == BE(n[16..i])
    {
      lo := lo * 256 + n[i];
      assert n[16..i + 1][..i - 16] == n[16..i];
    }
    assert n[16..32] == n[16..];
    r := Ok(Limbs(hi, lo));
  }

  /** The limbs are the high and the low 128 bits of the big-endian value. */
  lemma LimbsMeaning(n: seq<Byte>)
    requires |n| == 32
    ensures Split(n).hi * Pow256(16) + Split(n).lo == BE(n)
    ensures Split(n).hi < Pow256(16) && Split(n).lo < Pow256(16)
  {
    BEConcat(n[..16], n[16..]);
    assert n[..16] + n[16..] == n;
    BEBound(n[..16]);
    BEBound(n[16..]);
    assert |n[..16]| == 16 && |n[16..]| == 16;
    hide BE, Pow256;
  }

  lemma LimbsInjective(a: seq<Byte>, b: seq<Byte>)
    requires |a| == |b| == 32 && Split(a) == Split(b)
    ensures a == b
  {
    BEInjective(a[..16], b[..16]);
    BEInjective(a[16..], b[16..]);
    assert a == a[..16] + a[16..] && b == b[..16] + b[16..];
  }
}
