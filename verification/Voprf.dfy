/** The single-node verifiable OPRF over ristretto255 (section 3.3.2 of
    RFC 9497, batch size one): scalar encoding, the proof of equal discrete
    logarithms and the blinding round trip. */
module Voprf {
  import opened PrimeField
  import opened PrimeGroup
  import opened Bytes
  import opened Wrappers

  const SCALAR_BYTES: nat := 32

  /** The group with its 32-byte element encoding and hash-to-scalar. */
  datatype Suite<!P> = Suite(g: Group<P>, enc: P -> seq<Byte>, dec: seq<Byte> -> Option<P>, hash: seq<Byte> -> int)

  ghost predicate Encodes<P>(s: Suite<P>, x: P) {
    |s.enc(x)| == 32 && s.dec(s.enc(x)) == Some(x)
  }

  ghost predicate Canonically<P>(s: Suite<P>, b: seq<Byte>) {
    s.dec(b).Some? ==> s.enc(s.dec(b).value) == b
  }

  ghost predicate HashesToScalar<P>(s: Suite<P>, b: seq<Byte>) {
    0 <= s.hash(b) < s.g.order
  }

  /** A prime-order group whose scalars fit in 32 bytes and whose element
      encoding is canonical. */
  ghost predicate IsSuite<P(!new)>(s: Suite<P>) {
    && IsGroup(s.g)
    && s.g.order <= Pow256(SCALAR_BYTES)
    && (forall x :: Encodes(s, x))
    && (forall b :: Canonically(s, b))
    && (forall b :: HashesToScalar(s, b))
  }

  datatype OprfError = BadScalarLength | BadEncoding | BadScalar | NoInverse

  // ----- scalars ---------------------------------------------------------------------------------

  /** ss: the 32-byte little-endian encoding of a scalar modulo the order. */
  method SerializeScalar(scalar: int, order: nat) returns (out: array<Byte>)
    requires 0 < order
    ensures fresh(out) && out[..] == ToLE(scalar % order, SCALAR_BYTES)
  {
    out := new Byte[32];
    var x: nat := scalar % order;
    ghost var all := ToLE(x, SCALAR_BYTES);
    for i := 0 to SCALAR_BYTES
      invariant x >= 0
      invariant out[..i] + ToLE(x, SCALAR_BYTES - i) == all
    {
      out[i] := x % 256;
      assert out[..i + 1] + ToLE(x / 256, SCALAR_BYTES - 1 - i) == out[..i] + ToLE(x, SCALAR_BYTES - i);
      x := x / 256;
    }
    assert out[..32] == out[..];
  }

  lemma LEFrom(bytes: seq<Byte>, i: nat)
    requires i < |bytes|
    ensures LE(bytes[i..]) == bytes[i] + 256 * LE(bytes[i + 1..])
  {
    assert bytes[i..][1..] == bytes[i + 1..];
  }

  /** The accumulating loop of ds, and of the reader of the service's key. */
  method ReadLE(bytes: seq<Byte>) returns (acc: nat)
    ensures acc == LE(bytes)
  {
    acc := 0;
    var i := |bytes| - 1;
    assert LE(bytes[|bytes|..]) == 0;
    hide LE;
    while i >= 0
      invariant -1 <= i < |bytes|
      invariant acc == LE(bytes[i + 1..])
    {
      acc := acc * 256 + bytes[i];
      LEFrom(bytes, i);
      i := i - 1;
    }
    assert bytes[0..] == bytes;
  }

  /** ds: reads a little-endian scalar and reduces it. */
  method DeserializeScalar(bytes: seq<Byte>, order: nat) returns (r: Result<int, OprfError>)
    requires 0 < order
    ensures r == if |bytes| == 32 then Ok(LE(bytes) % order) else Err(BadScalarLength)
  {
    if |bytes| != 32 {
      return Err(BadScalarLength);
    }
    var acc := ReadLE(bytes);
    r := Ok(acc % order);
  }

  function ScalarOf(bytes: seq<Byte>, order: nat): Result<int, OprfError>
    requires 0 < order
  {
    if |bytes| != 32 then Err(BadScalarLength) else Ok(LE(bytes) % order)
  }

  /** A scalar survives its encoding. */
  lemma ScalarRoundTrip(y: nat, order: nat)
    requires y < order <= Pow256(SCALAR_BYTES)
    ensures ScalarOf(ToLE(y, SCALAR_BYTES), order) == Ok(y)
  {
    LEInverts(y, SCALAR_BYTES);
    BelowModulus(y, order);
  }

  // ----- the transcript -------------------------------------------------------------------------

  /** Two-byte big-endian length prefix. */
  function I2OSP2(n: nat): seq<Byte>
    requires n <= 0xffff
  {
    [n / 256, n % 256]
  }

  function Prefixed(b: seq<Byte>): seq<Byte>
    requires |b| <= 0xffff
  {
    I2OSP2(|b|) + b
  }

  /** The text "Challenge" followed by the five prefixed elements. */
  function Transcript(key: seq<Byte>, m: seq<Byte>, y: seq<Byte>, t2: seq<Byte>, t3: seq<Byte>): seq<Byte>
    requires |key| <= 0xffff && |m| <= 0xffff && |y| <= 0xffff && |t2| <= 0xffff && |t3| <= 0xffff
  {
    CHALLENGE + (Prefixed(key) + (Prefixed(m) + (Prefixed(y) + (Prefixed(t2) + Prefixed(t3)))))
  }

  const CHALLENGE: seq<Byte> := [0x43, 0x68, 0x61, 0x6c, 0x6c, 0x65, 0x6e, 0x67, 0x65]

  /** Where the octets of each 32-octet element stand in the transcript. */
  lemma TranscriptLayout(key: seq<Byte>, m: seq<Byte>, y: seq<Byte>, t2: seq<Byte>, t3: seq<Byte>)
    requires |key| == |m| == |y| == |t2| == |t3| == 32
    ensures var t := Transcript(key, m, y, t2, t3);
      && |t| == 179 && t[..9] == CHALLENGE
      && t[9..43] == [0, 32] + key && t[43..77] == [0, 32] + m && t[77..111] == [0, 32] + y
      && t[111..145] == [0, 32] + t2 && t[145..] == [0, 32] + t3
  {}

  /** A prefixed string can be told apart from what follows. */
  lemma PrefixSplits(a: seq<Byte>, b: seq<Byte>, r: seq<Byte>, s: seq<Byte>)
    requires |a| <= 0xffff && |b| <= 0xffff && Prefixed(a) + r == Prefixed(b) + s
    ensures a == b && r == s
  {
    var x, y := Prefixed(a) + r, Prefixed(b) + s;
    assert x[0] == |a| / 256 && x[1] == |a| % 256;
    assert y[0] == |b| / 256 && y[1] == |b| % 256;
    assert |a| == |b|;
    assert x[2..2 + |a|] == a && y[2..2 + |b|] == b;
    assert x[2 + |a|..] == r && y[2 + |b|..] == s;
  }

  /** The transcript determines every element that goes into it. */
  lemma TranscriptBinds(k: seq<Byte>, m: seq<Byte>, y: seq<Byte>, t2: seq<Byte>, t3: seq<Byte>,
                        k': seq<Byte>, m': seq<Byte>, y': seq<Byte>, t2': seq<Byte>, t3': seq<Byte>)
    requires |k| <= 0xffff && |m| <= 0xffff && |y| <= 0xffff && |t2| <= 0xffff && |t3| <= 0xffff
    requires |k'| <= 0xffff && |m'| <= 0xffff && |y'| <= 0xffff && |t2'| <= 0xffff && |t3'| <= 0xffff
    requires Transcript(k, m, y, t2, t3) == Transcript(k', m', y', t2', t3')
    ensures k == k' && m == m' && y == y' && t2 == t2' && t3 == t3'
  {
    var c := |CHALLENGE|;
    var tail := Prefixed(k) + (Prefixed(m) + (Prefixed(y) + (Prefixed(t2) + Prefixed(t3))));
    var tail' := Prefixed(k') + (Prefixed(m') + (Prefixed(y') + (Prefixed(t2') + Prefixed(t3'))));
    assert (CHALLENGE + tail)[c..] == tail && (CHALLENGE + tail')[c..] == tail';
    PrefixSplits(k, k', Prefixed(m) + (Prefixed(y) + (Prefixed(t2) + Prefixed(t3))),
                 Prefixed(m') + (Prefixed(y') + (Prefixed(t2') + Prefixed(t3'))));
    PrefixSplits(m, m', Prefixed(y) + (Prefixed(t2) + Prefixed(t3)), Prefixed(y') + (Prefixed(t2') + Prefixed(t3')));
    PrefixSplits(y, y', Prefixed(t2) + Prefixed(t3), Prefixed(t2') + Prefixed(t3'));
    PrefixSplits(t2, t2', Prefixed(t3), Prefixed(t3'));
    assert Prefixed(t3) + [] == Prefixed(t3) && Prefixed(t3') + [] == Prefixed(t3');
    PrefixSplits(t3, t3', [], []);
  }

  // ----- evaluation and proof ---------------------------------------------------------------------

  function Scaled<P>(s: Suite<P>, x: P, k: int): Result<P, OprfError> {
    match Multiply(s.g, x, k) case Ok(y) => Ok(y) case Err(_) => Err(BadScalar)
  }

  /** The challenge for a statement and its two commitments. */
  function Challenge<P>(s: Suite<P>, key: seq<Byte>, m: seq<Byte>, y: seq<Byte>, t2: P, t3: P): int
    requires |key| <= 0xffff && |m| <= 0xffff && |y| <= 0xffff
    requires |s.enc(t2)| <= 0xffff && |s.enc(t3)| <= 0xffff
  {
    s.hash(Transcript(key, m, y, s.enc(t2), s.enc(t3)))
  }

  lemma DecodedLength<P(!new)>(s: Suite<P>, b: seq<Byte>)
    requires IsSuite(s) && s.dec(b).Some?
    ensures |b| == 32
  {
    assert Canonically(s, b) && Encodes(s, s.dec(b).value);
  }

  /** generateProof with the random scalar r: c || s for s = r - c k. */
  ghost function GenerateProof<P(!new)>(s: Suite<P>, k: int, key: seq<Byte>, mp: P, m: seq<Byte>, y: seq<Byte>, r: int)
    : Result<seq<Byte>, OprfError>
    requires IsSuite(s) && |key| == 32 && |m| == 32 && |y| == 32
  {
    match (Scaled(s, s.g.base, r), Scaled(s, mp, r))
    case (Ok(t2), Ok(t3)) =>
      assert Encodes(s, t2) && Encodes(s, t3);
      var c := Challenge(s, key, m, y, t2, t3);
      Ok(ToLE(c % s.g.order, SCALAR_BYTES) + ToLE((r - c * k) % s.g.order, SCALAR_BYTES))
    case _ => Err(BadScalar)
  }

  datatype Evaluation = Evaluation(y: seq<Byte>, proof: seq<Byte>)

  /** blindEvaluate. */
  ghost function BlindEvaluate<P(!new)>(s: Suite<P>, m: seq<Byte>, k: int, key: seq<Byte>, r: int)
    : Result<Evaluation, OprfError>
    requires IsSuite(s) && |key| == 32
  {
    match s.dec(m)
    case None => Err(BadEncoding)
    case Some(mp) =>
      DecodedLength(s, m);
      match Scaled(s, mp, k)
      case Err(e) => Err(e)
      case Ok(yp) =>
        assert Encodes(s, yp);
        match GenerateProof(s, k, key, mp, m, s.enc(yp), r)
        case Err(e) => Err(e)
        case Ok(proof) => Ok(Evaluation(s.enc(yp), proof))
  }

  /** The verifier's commitments t2' = s G + c K and t3' = s M + c Y. */
  function Recomputed<P>(s: Suite<P>, kp: P, mp: P, yp: P, c: int, z: int): Result<(P, P), OprfError> {
    match (Scaled(s, s.g.base, z), Scaled(s, kp, c), Scaled(s, mp, z), Scaled(s, yp, c))
    case (Ok(zg), Ok(ck), Ok(zm), Ok(cy)) => Ok((s.g.add(zg, ck), s.g.add(zm, cy)))
    case _ => Err(BadScalar)
  }

  /** The verdict on decoded elements and scalars: the challenge is recomputed from
      the octets received. */
  ghost function Check<P(!new)>(s: Suite<P>, key: seq<Byte>, m: seq<Byte>, y: seq<Byte>, kp: P, mp: P, yp: P,
                                c: int, z: int): Result<bool, OprfError>
    requires IsSuite(s) && |key| == |m| == |y| == 32
  {
    match Recomputed(s, kp, mp, yp, c, z)
    case Err(e) => Err(e)
    case Ok((t2, t3)) =>
      assert Encodes(s, t2) && Encodes(s, t3);
      Ok(c == Challenge(s, key, m, y, t2, t3))
  }

  /** verifyProof: undecodable inputs are rejected, zero scalars throw. */
  ghost function VerifyProof<P(!new)>(s: Suite<P>, key: seq<Byte>, m: seq<Byte>, y: seq<Byte>, proof: seq<Byte>)
    : Result<bool, OprfError>
    requires IsSuite(s)
  {
    if |proof| != 64 then Ok(false)
    else
      match (s.dec(key), s.dec(m), s.dec(y))
      case (Some(kp), Some(mp), Some(yp)) =>
        DecodedLength(s, key);
        DecodedLength(s, m);
        DecodedLength(s, y);
        Check(s, key, m, y, kp, mp, yp, LE(proof[..SCALAR_BYTES]) % s.g.order, LE(proof[SCALAR_BYTES..]) % s.g.order)
      case _ => Ok(false)
  }

  /** z X + c (k X) = r X for z = r - c k. */
  lemma HonestSum<P(!new)>(g: Group<P>, k: int, c: int, r: int, x: P)
    requires IsGroup(g)
    ensures g.add(g.mul((r - c * k) % g.order, x), g.mul(c, g.mul(k, x))) == g.mul(r, x)
  {
    assert ReducedActs(g, r - c * k, x) && ActsTwice(g, c, k, x) && SumActs(g, r - c * k, c * k, x);
  }

  /** The verifier reads back the prover's scalars and commitments. */
  lemma HonestRecomputed<P(!new)>(s: Suite<P>, k: int, x: P, c: int, r: int)
    requires IsSuite(s) && 0 <= c < s.g.order
    ensures var z := (r - c * k) % s.g.order;
      Recomputed(s, s.g.mul(k, s.g.base), x, s.g.mul(k, x), c, z)
        == if c == 0 || z == 0 then Err(BadScalar) else Ok((s.g.mul(r, s.g.base), s.g.mul(r, x)))
  {
    HonestSum(s.g, k, c, r, s.g.base);
    HonestSum(s.g, k, c, r, x);
  }

  lemma ProofDecodes(c: int, z: int, order: nat)
    requires 0 <= c < order <= Pow256(SCALAR_BYTES) && 0 <= z < order
    ensures var proof := ToLE(c, SCALAR_BYTES) + ToLE(z, SCALAR_BYTES);
      LE(proof[..SCALAR_BYTES]) % order == c && LE(proof[SCALAR_BYTES..]) % order == z
  {
    var proof := ToLE(c, SCALAR_BYTES) + ToLE(z, SCALAR_BYTES);
    assert proof[..SCALAR_BYTES] == ToLE(c, SCALAR_BYTES) && proof[SCALAR_BYTES..] == ToLE(z, SCALAR_BYTES);
    ScalarRoundTrip(c, order);
    ScalarRoundTrip(z, order);
  }

  /** The challenge of the honest proof for the key k, the input x and the nonce r. */
  ghost function HonestChallenge<P(!new)>(s: Suite<P>, x: P, k: int, r: int): (c: int)
    requires IsSuite(s)
    ensures 0 <= c < s.g.order
  {
    var g := s.g;
    var kp, yp, t2, t3 := g.mul(k, g.base), g.mul(k, x), g.mul(r, g.base), g.mul(r, x);
    assert Encodes(s, kp) && Encodes(s, x) && Encodes(s, yp) && Encodes(s, t2) && Encodes(s, t3);
    var h := Transcript(s.enc(kp), s.enc(x), s.enc(yp), s.enc(t2), s.enc(t3));
    assert HashesToScalar(s, h);
    s.hash(h)
  }

  ghost function PublicKey<P(!new)>(s: Suite<P>, k: int): (key: seq<Byte>)
    requires IsSuite(s)
    ensures |key| == 32 && s.dec(key) == Some(s.g.mul(k, s.g.base))
  {
    assert Encodes(s, s.g.mul(k, s.g.base));
    s.enc(s.g.mul(k, s.g.base))
  }

  lemma HonestProof<P(!new)>(s: Suite<P>, x: P, k: int, r: int, c: int, z: int)
    requires IsSuite(s) && 1 <= r < s.g.order
    requires c == HonestChallenge(s, x, k, r) && z == (r - c * k) % s.g.order
    ensures |s.enc(x)| == 32 && |s.enc(s.g.mul(k, x))| == 32
    ensures GenerateProof(s, k, PublicKey(s, k), x, s.enc(x), s.enc(s.g.mul(k, x)), r)
         == Ok(ToLE(c, SCALAR_BYTES) + ToLE(z, SCALAR_BYTES))
  {
    HonestParts(s, x, k, r);
    assert 0 < s.g.order;
    assert c % s.g.order == c by {
      BelowModulus(c, s.g.order);
    }
    hide IsSuite, IsGroup, IsPrime, ToLE, Challenge, Scaled, HonestChallenge, PublicKey;
  }

  /** The commitments and the challenge of the prover. */
  lemma HonestParts<P(!new)>(s: Suite<P>, x: P, k: int, r: int)
    requires IsSuite(s) && 1 <= r < s.g.order
    ensures Encodes(s, x) && Encodes(s, s.g.mul(k, x))
    ensures Scaled(s, s.g.base, r) == Ok(s.g.mul(r, s.g.base)) && Scaled(s, x, r) == Ok(s.g.mul(r, x))
    ensures Encodes(s, s.g.mul(r, s.g.base)) && Encodes(s, s.g.mul(r, x))
    ensures HonestChallenge(s, x, k, r)
         == Challenge(s, PublicKey(s, k), s.enc(x), s.enc(s.g.mul(k, x)), s.g.mul(r, s.g.base), s.g.mul(r, x))
  {
    assert Encodes(s, x) && Encodes(s, s.g.mul(k, x));
    assert Encodes(s, s.g.mul(r, s.g.base)) && Encodes(s, s.g.mul(r, x));
    hide IsGroup, Transcript;
  }

  lemma HonestEvaluation<P(!new)>(s: Suite<P>, x: P, k: int, r: int, c: int, z: int)
    requires IsSuite(s) && 1 <= k < s.g.order && 1 <= r < s.g.order
    requires c == HonestChallenge(s, x, k, r) && z == (r - c * k) % s.g.order
    ensures BlindEvaluate(s, s.enc(x), k, PublicKey(s, k), r) ==
        Ok(Evaluation(s.enc(s.g.mul(k, x)), ToLE(c, SCALAR_BYTES) + ToLE(z, SCALAR_BYTES)))
  {
    assert Encodes(s, x);
    HonestProof(s, x, k, r, c, z);
    hide IsPrime, ToLE, HonestChallenge, PublicKey, GenerateProof;
  }

  lemma HonestCheck<P(!new)>(s: Suite<P>, x: P, k: int, r: int, c: int, z: int)
    requires IsSuite(s)
    requires c == HonestChallenge(s, x, k, r) && z == (r - c * k) % s.g.order
    ensures |s.enc(x)| == 32 && |s.enc(s.g.mul(k, x))| == 32
    ensures Check(s, PublicKey(s, k), s.enc(x), s.enc(s.g.mul(k, x)), s.g.mul(k, s.g.base), x, s.g.mul(k, x), c, z)
         == if c == 0 || z == 0 then Err(BadScalar) else Ok(true)
  {
    assert Encodes(s, x) && Encodes(s, s.g.mul(k, x));
    HonestRecomputed(s, k, x, c, r);
  }

  /** Completeness: for every key and every input the 64-byte proof is accepted,
      except when one of its two scalars is zero, which the library refuses to
      multiply by. */
  lemma HonestProofAccepted<P(!new)>(s: Suite<P>, x: P, k: int, r: int, c: int, z: int)
    requires IsSuite(s) && 1 <= k < s.g.order && 1 <= r < s.g.order
    requires c == HonestChallenge(s, x, k, r) && z == (r - c * k) % s.g.order
    ensures var e := BlindEvaluate(s, s.enc(x), k, PublicKey(s, k), r);
      && e.Ok?
      && e.value.y == s.enc(s.g.mul(k, x))
      && |e.value.proof| == 64 && e.value.proof == ToLE(c, SCALAR_BYTES) + ToLE(z, SCALAR_BYTES)
      && VerifyProof(s, PublicKey(s, k), s.enc(x), e.value.y, e.value.proof)
         == (if c == 0 || z == 0 then Err(BadScalar) else Ok(true))
  {
    HonestEvaluation(s, x, k, r, c, z);
    assert Encodes(s, x) && Encodes(s, s.g.mul(k, x));
    ProofDecodes(c, z, s.g.order);
    HonestCheck(s, x, k, r, c, z);
    hide BlindEvaluate, Check, HonestChallenge, PublicKey, IsPrime, LE, ToLE;
  }

  /** The challenge of an honest proof, written out: what is hashed, in which order. */
  lemma HonestChallengeIs<P(!new)>(s: Suite<P>, x: P, k: int, r: int)
    requires IsSuite(s)
    ensures var g := s.g; var e := s.enc;
      && Encodes(s, g.mul(k, g.base)) && Encodes(s, x) && Encodes(s, g.mul(k, x))
      && Encodes(s, g.mul(r, g.base)) && Encodes(s, g.mul(r, x))
      && HonestChallenge(s, x, k, r)
         == s.hash(Transcript(e(g.mul(k, g.base)), e(x), e(g.mul(k, x)), e(g.mul(r, g.base)), e(g.mul(r, x))))
  {
    assert Encodes(s, s.g.mul(k, s.g.base)) && Encodes(s, x) && Encodes(s, s.g.mul(k, x));
    assert Encodes(s, s.g.mul(r, s.g.base)) && Encodes(s, s.g.mul(r, x));
    hide IsGroup, Transcript;
  }

  /** The verdict on every proof, written out. */
  lemma VerdictIs<P(!new)>(s: Suite<P>, key: seq<Byte>, m: seq<Byte>, y: seq<Byte>, proof: seq<Byte>)
    requires IsSuite(s)
    ensures |proof| != 64 || s.dec(key).None? || s.dec(m).None? || s.dec(y).None? ==>
      VerifyProof(s, key, m, y, proof) == Ok(false)
    ensures |proof| == 64 && s.dec(key).Some? && s.dec(m).Some? && s.dec(y).Some? ==>
      var g := s.g; var c, z := LE(proof[..32]) % g.order, LE(proof[32..]) % g.order;
      var t2 := g.add(g.mul(z, g.base), g.mul(c, s.dec(key).value));
      var t3 := g.add(g.mul(z, s.dec(m).value), g.mul(c, s.dec(y).value));
      && |key| == |m| == |y| == 32 && Encodes(s, t2) && Encodes(s, t3)
      && VerifyProof(s, key, m, y, proof)
         == (if c == 0 || z == 0 then Err(BadScalar)
             else Ok(c == s.hash(Transcript(key, m, y, s.enc(t2), s.enc(t3)))))
  {
    if |proof| == 64 && s.dec(key).Some? && s.dec(m).Some? && s.dec(y).Some? {
      DecodedLength(s, key);
      DecodedLength(s, m);
      DecodedLength(s, y);
      var g := s.g;
      var c, z := LE(proof[..32]) % g.order, LE(proof[32..]) % g.order;
      assert Encodes(s, g.add(g.mul(z, g.base), g.mul(c, s.dec(key).value)));
      assert Encodes(s, g.add(g.mul(z, s.dec(m).value), g.mul(c, s.dec(y).value)));
      assert 0 < g.order;
      hide IsGroup, Transcript, LE;
    }
  }

  /** Soundness: two answers to different challenges for the same commitments
      determine one scalar that is the logarithm of both K and Y. */
  lemma ProofIsSound<P(!new)>(s: Suite<P>, kp: P, mp: P, yp: P, c: int, z: int, c': int, z': int) returns (k: int)
    requires IsGroup(s.g)
    requires Recomputed(s, kp, mp, yp, c, z).Ok?
    requires Recomputed(s, kp, mp, yp, c, z) == Recomputed(s, kp, mp, yp, c', z')
    requires c != c'
    ensures kp == s.g.mul(k, s.g.base) && yp == s.g.mul(k, mp)
  {
    var g := s.g;
    DifferentChallenges(c, c', g.order);
    hide Zero, IsPrime;
    var i := Inv(-c - -c', g.order);
    k := i * (z - z');
    ExtractEqual(g, g.base, kp, z, c, z', c', i);
    ExtractEqual(g, mp, yp, z, c, z', c', i);
  }

  /** The evaluation is k times the input for the secret k of the key. */
  ghost predicate IsEvaluation<P>(s: Suite<P>, kp: P, mp: P, yp: P) {
    exists k: int :: kp == s.g.mul(k, s.g.base) && yp == s.g.mul(k, mp)
  }

  /** The scalars that a proof of 64 octets encodes. */
  function ProofChallenge<P>(s: Suite<P>, proof: seq<Byte>): (c: int)
    requires 0 < s.g.order && |proof| == 64
    ensures 0 <= c < s.g.order
  {
    LE(proof[..SCALAR_BYTES]) % s.g.order
  }

  function ProofResponse<P>(s: Suite<P>, proof: seq<Byte>): int
    requires 0 < s.g.order && |proof| == 64
  {
    LE(proof[SCALAR_BYTES..]) % s.g.order
  }

  /** The commitments that the check recomputes from the octets it receives. */
  ghost function ProofCommitments<P(!new)>(s: Suite<P>, key: seq<Byte>, m: seq<Byte>, y: seq<Byte>, proof: seq<Byte>)
    : Result<(P, P), OprfError>
    requires IsSuite(s) && |proof| == 64
    requires s.dec(key).Some? && s.dec(m).Some? && s.dec(y).Some?
  {
    Recomputed(s, s.dec(key).value, s.dec(m).value, s.dec(y).value, ProofChallenge(s, proof), ProofResponse(s, proof))
  }

  /** An accepted proof has 64 octets, its inputs decode, and its challenge is the
      one that is hashed at its commitments. */
  lemma AcceptedProof<P(!new)>(s: Suite<P>, key: seq<Byte>, m: seq<Byte>, y: seq<Byte>, proof: seq<Byte>)
    requires IsSuite(s) && VerifyProof(s, key, m, y, proof) == Ok(true)
    ensures |proof| == 64 && s.dec(key).Some? && s.dec(m).Some? && s.dec(y).Some?
    ensures ProofCommitments(s, key, m, y, proof).Ok?
    ensures var t := ProofCommitments(s, key, m, y, proof).value;
      && Encodes(s, t.0) && Encodes(s, t.1) && |key| == |m| == |y| == 32
      && ProofChallenge(s, proof) == Challenge(s, key, m, y, t.0, t.1)
  {
    DecodedLength(s, key);
    DecodedLength(s, m);
    DecodedLength(s, y);
    hide Recomputed, Challenge;
    var t := ProofCommitments(s, key, m, y, proof);
    assert t.Ok?;
    assert Encodes(s, t.value.0) && Encodes(s, t.value.1);
  }

  /** Only luck lets a false evaluation pass: for any commitments there is at most
      one value that the hash may take there, over all hashes, if some proof is to
      be accepted. */
  lemma FalseEvaluationNeedsOneChallenge<P(!new)>(s: Suite<P>, s': Suite<P>, key: seq<Byte>, m: seq<Byte>, y: seq<Byte>,
                                                  proof: seq<Byte>, proof': seq<Byte>)
    requires IsSuite(s) && IsSuite(s') && s' == s.(hash := s'.hash)
    requires VerifyProof(s, key, m, y, proof) == Ok(true) && VerifyProof(s', key, m, y, proof') == Ok(true)
    requires |proof| == |proof'| == 64 && s.dec(key).Some? && s.dec(m).Some? && s.dec(y).Some?
    requires ProofCommitments(s, key, m, y, proof) == ProofCommitments(s, key, m, y, proof')
    requires !IsEvaluation(s, s.dec(key).value, s.dec(m).value, s.dec(y).value)
    ensures ProofCommitments(s, key, m, y, proof).Ok? && |key| == |m| == |y| == 32
    ensures var t := ProofCommitments(s, key, m, y, proof).value;
      && Encodes(s, t.0) && Encodes(s, t.1)
      && Challenge(s, key, m, y, t.0, t.1) == Challenge(s', key, m, y, t.0, t.1)
  {
    AcceptedProof(s, key, m, y, proof);
    AcceptedProof(s', key, m, y, proof');
    var t := ProofCommitments(s, key, m, y, proof);
    assert ProofCommitments(s', key, m, y, proof') == t;
    assert Encodes(s', t.value.0) && Encodes(s', t.value.1);
    hide VerifyProof, Challenge;
    OneChallengeOrEvaluation(s, s.dec(key).value, s.dec(m).value, s.dec(y).value, ProofChallenge(s, proof),
                             ProofResponse(s, proof), ProofChallenge(s, proof'), ProofResponse(s, proof'));
  }

  lemma OneChallengeOrEvaluation<P(!new)>(s: Suite<P>, kp: P, mp: P, yp: P, c: int, z: int, c': int, z': int)
    requires IsGroup(s.g)
    requires Recomputed(s, kp, mp, yp, c, z).Ok?
    requires Recomputed(s, kp, mp, yp, c, z) == Recomputed(s, kp, mp, yp, c', z')
    ensures c == c' || IsEvaluation(s, kp, mp, yp)
  {
    if c != c' {
      var k := ProofIsSound(s, kp, mp, yp, c, z, c', z');
      assert IsEvaluation(s, kp, mp, yp);
    }
  }

  lemma DifferentChallenges(c: int, c': int, n: nat)
    requires 0 <= c < n && 0 <= c' < n && c != c'
    ensures !Zero(-c - -c', n)
  {
    if Zero(-c - -c', n) {
      ScaleZero(-1, -c - -c', n);
      Canonical(c, c', n);
    }
  }

  lemma ExtractEqual<P(!new)>(g: Group<P>, x: P, y: P, z: int, c: int, z': int, c': int, i: int)
    requires IsGroup(g) && Zero((-c - -c') * i - 1, g.order)
    requires g.add(g.mul(z, x), g.mul(c, y)) == g.add(g.mul(z', x), g.mul(c', y))
    ensures y == g.mul(i * (z - z'), x)
  {
    AsDifference(g, x, y, z, c);
    AsDifference(g, x, y, z', c');
    ExtractLogarithm(g, x, y, z, -c, z', -c', i);
  }

  /** z X + c Y = z X - (-c) Y. */
  lemma AsDifference<P(!new)>(g: Group<P>, x: P, y: P, z: int, c: int)
    requires IsGroup(g)
    ensures g.add(g.mul(z, x), g.mul(c, y)) == g.add(g.mul(z, x), g.neg(g.mul(-c, y)))
  {
    assert NegIsMinusOne(g, g.mul(-c, y)) && ActsTwice(g, -1, -c, y);
  }

  // ----- blinding ---------------------------------------------------------------------------------------

  /** blind, for the hashed input x and the random scalar r. */
  function Blind<P>(s: Suite<P>, x: P, r: int): Result<seq<Byte>, OprfError> {
    match Scaled(s, x, r) case Ok(m) => Ok(s.enc(m)) case Err(e) => Err(e)
  }

  /** unblind. */
  ghost function Unblind<P>(s: Suite<P>, r: int, y: seq<Byte>): Result<seq<Byte>, OprfError>
    requires IsPrime(s.g.order)
  {
    if Zero(r, s.g.order) then Err(NoInverse)
    else
      match s.dec(y)
      case None => Err(BadEncoding)
      case Some(yp) =>
        match Scaled(s, yp, Inv(r, s.g.order))
        case Ok(n) => Ok(s.enc(n))
        case Err(e) => Err(e)
  }

  /** Which inputs are refused: a scalar outside 1 .. order - 1, an encoding of no
      element, and a blinding scalar that has no inverse. */
  lemma RefusedWhen<P(!new)>(s: Suite<P>, x: P, m: seq<Byte>, k: int, key: seq<Byte>, r: int, y: seq<Byte>, b: int)
    requires IsSuite(s) && |key| == 32
    ensures Blind(s, x, b).Ok? <==> 1 <= b < s.g.order
    ensures BlindEvaluate(s, m, k, key, r).Ok? <==> s.dec(m).Some? && 1 <= k < s.g.order && 1 <= r < s.g.order
    ensures BlindEvaluate(s, m, k, key, r) == Err(BadEncoding) <==> s.dec(m).None?
    ensures Unblind(s, b, y) == Err(NoInverse) <==> Zero(b, s.g.order)
    ensures Unblind(s, b, y) == Err(BadEncoding) <==> !Zero(b, s.g.order) && s.dec(y).None?
    ensures Unblind(s, b, y).Ok? <==> !Zero(b, s.g.order) && s.dec(y).Some?
  {
    if !Zero(b, s.g.order) {
      InverseInRange(b, Inv(b, s.g.order), s.g.order);
    }
    hide IsPrime, Zero, Transcript, ToLE;
  }

  /** Blinding, evaluating and unblinding gives the encoding of k H, whatever
      the blinding scalar. */
  lemma BlindingRoundTrip<P(!new)>(s: Suite<P>, x: P, r: int, k: int, t: int)
    requires IsSuite(s) && 1 <= r < s.g.order && 1 <= k < s.g.order && 1 <= t < s.g.order
    ensures var m := Blind(s, x, r);
      && m == Ok(s.enc(s.g.mul(r, x)))
      && var e := BlindEvaluate(s, m.value, k, PublicKey(s, k), t);
      && e.Ok?
      && e.value.y == s.enc(s.g.mul(k, s.g.mul(r, x)))
      && Unblind(s, r, e.value.y) == Ok(s.enc(s.g.mul(k, x)))
  {
    var g := s.g;
    var c := HonestChallenge(s, g.mul(r, x), k, t);
    HonestEvaluation(s, g.mul(r, x), k, t, c, (t - c * k) % g.order);
    UnblindsTo(s, x, r, k);
  }

  lemma UnblindsTo<P(!new)>(s: Suite<P>, x: P, r: int, k: int)
    requires IsSuite(s) && 1 <= r < s.g.order
    ensures Unblind(s, r, s.enc(s.g.mul(k, s.g.mul(r, x)))) == Ok(s.enc(s.g.mul(k, x)))
  {
    hide IsPrime, Zero;
    var g := s.g;
    if Zero(r, g.order) {
      Canonical(r, 0, g.order);
    }
    var i := Inv(r, g.order);
    InverseInRange(r, i, g.order);
    assert Encodes(s, g.mul(k, g.mul(r, x)));
    assert ActsTwice(g, i, k, g.mul(r, x)) && ActsTwice(g, i * k, r, x);
    RoundTripScalar(i, k, r, g.order);
    CongruentScalars(g, i * k * r, k, x);
  }

  lemma InverseInRange(a: int, i: int, n: int)
    requires 1 < n && 0 <= i < n && Zero(a * i - 1, n)
    ensures 1 <= i < n
  {
    if i == 0 {
      ScaleZero(-1, a * i - 1, n);
    }
  }

  lemma RoundTripScalar(i: int, k: int, r: int, n: int)
    requires 0 < n && Zero(r * i - 1, n)
    ensures Zero(i * k * r - k, n)
  {
    ScaleZero(k, r * i - 1, n);
    assert k * (r * i - 1) == i * k * r - k;
  }
}
