/** A small field, a small group, two suites over it and a race that meet the
    hypotheses of the other modules, so that what is proved from them is not
    empty. */
module Instances {
  import opened Bytes
  import opened HexText
  import opened MerkleTree
  import opened Overlap
  import opened Packing
  import opened PrimeField
  import opened PrimeGroup
  import opened Wrappers
  import MerkleIndex
  import S = Service
  import SvdwMap
  import Threshold
  import Voprf

  type Residue = x: int | 0 <= x < 13

  function Sqrt13(v: int): Option<int> {
    if v == 0 then Some(0)
    else if v == 1 then Some(1)
    else if v == 3 then Some(4)
    else if v == 4 then Some(2)
    else if v == 9 then Some(3)
    else if v == 10 then Some(6)
    else if v == 12 then Some(5)
    else None
  }

  lemma ThirteenIsPrime()
    ensures IsPrime(13)
  {
    forall d | 1 < d < 13 ensures 13 % d != 0 {
      assert d in {2, 3, 4, 5, 6, 7, 8, 9, 10, 11, 12};
    }
  }

  lemma SquareResidue(y: int, r: int)
    requires r == y % 13
    ensures (y * y) % 13 == (r * r) % 13
  {
    var q := y / 13;
    assert y == 13 * q + r;
    assert y * y == 13 * (13 * q * q + 2 * q * r) + r * r;
    ReduceZero(r * r, 13);
    MultipleZero(13 * q * q + 2 * q * r, 13);
    SameResidue(y * y, r * r, 13);
  }

  lemma SmallSquares(r: int)
    requires 0 <= r < 13
    ensures (r * r) % 13 in {0, 1, 3, 4, 9, 10, 12}
  {
    assert r == 0 || r == 1 || r == 2 || r == 3 || r == 4 || r == 5 || r == 6 || r == 7 || r == 8 || r == 9 || r == 10
        || r == 11 || r == 12;
  }

  lemma SquaresOf13(v: int)
    requires 0 <= v < 13
    ensures IsSquare(v, 13) <==> v in {0, 1, 3, 4, 9, 10, 12}
  {
    if y :| IsRoot(y, v, 13) {
      SquareResidue(y, y % 13);
      SmallSquares(y % 13);
      SameResidue(y * y, v, 13);
    }
    if v in {0, 1, 3, 4, 9, 10, 12} {
      var y := Sqrt13(v).value;
      assert IsRoot(y, v, 13);
    }
  }

  const FIELD_13: SvdwMap.BaseField := SvdwMap.BaseField(13, Sqrt13, 2)

  /** The residues modulo 13, where 48 has the root 3 and 2 has none. */
  lemma SuitableField()
    ensures SvdwMap.Suitable(FIELD_13)
  {
    ThirteenIsPrime();
    forall v | 0 <= v < 13 ensures Sqrt13(v).Some? <==> IsSquare(v, 13) {
      SquaresOf13(v);
    }
    assert IsRoot(3, 48, 13);
    SquaresOf13(2);
  }

  /** The values of the map at u = 1 over that field. */
  lemma ConsistentTrail()
    ensures SvdwMap.Consistent(SvdwMap.Trail(1, 6, 3, 4, 4, 11, 8, 5, 6, 1, 11, 2), 13)
  {}

  function GroupOf13(): Group<Residue> {
    Group(13, 1, (x, y) => (x + y) % 13, x => (-x) % 13, (k, x) => (k * x) % 13)
  }

  lemma ActsTwice13(a: int, b: int, x: int)
    ensures a * (b * x % 13) % 13 == a * b * x % 13
  {
    ReduceZero(b * x, 13);
    ScaleZero(a, b * x % 13 - b * x, 13);
    assert a * (b * x % 13 - b * x) == a * (b * x % 13) - a * b * x;
    hide Zero;
    SameResidue(a * (b * x % 13), a * b * x, 13);
  }

  lemma SumActs13(a: int, b: int, x: int)
    ensures (a * x % 13 + b * x % 13) % 13 == (a + b) * x % 13
  {
    ReduceZero(a * x, 13);
    ReduceZero(b * x, 13);
    SumZero(a * x % 13 - a * x, b * x % 13 - b * x, 13);
    assert (a * x % 13 - a * x) + (b * x % 13 - b * x) == (a * x % 13 + b * x % 13) - (a + b) * x;
    hide Zero;
    SameResidue(a * x % 13 + b * x % 13, (a + b) * x, 13);
  }

  lemma ReducedActs13(a: int, x: int)
    ensures a % 13 * x % 13 == a * x % 13
  {
    ReduceZero(a, 13);
    ScaleZero(x, a % 13 - a, 13);
    assert x * (a % 13 - a) == a % 13 * x - a * x;
    hide Zero;
    SameResidue(a % 13 * x, a * x, 13);
  }

  lemma ActionLaws(a: int, b: int, x: Residue)
    ensures var g := GroupOf13(); ActsTwice(g, a, b, x) && SumActs(g, a, b, x) && ReducedActs(g, a, x)
  {
    ActsTwice13(a, b, x);
    SumActs13(a, b, x);
    ReducedActs13(a, x);
  }

  lemma Associates13(x: int, y: int, z: int)
    ensures ((x + y) % 13 + z) % 13 == (x + (y + z) % 13) % 13
  {
    ReduceZero(x + y, 13);
    ReduceZero(y + z, 13);
    ScaleZero(-1, (y + z) % 13 - (y + z), 13);
    SumZero((x + y) % 13 - (x + y), -1 * ((y + z) % 13 - (y + z)), 13);
    assert ((x + y) % 13 - (x + y)) + -1 * ((y + z) % 13 - (y + z)) == ((x + y) % 13 + z) - (x + (y + z) % 13);
    hide Zero;
    SameResidue((x + y) % 13 + z, x + (y + z) % 13, 13);
  }

  lemma AssociativeLaw(x: Residue, y: Residue, z: Residue)
    ensures Associates(GroupOf13(), x, y, z)
  {
    Associates13(x, y, z);
  }

  lemma OtherLaws(x: Residue, y: Residue)
    ensures var g := GroupOf13();
      Commutes(g, x, y) && ZeroIsNeutral(g, x, y) && NegIsMinusOne(g, x) && OneActs(g, x)
  {}

  /** The residues modulo 13 under addition. */
  lemma SmallGroup()
    ensures IsGroup(GroupOf13())
  {
    ThirteenIsPrime();
    assert GroupOf13().order == 13;
    hide IsPrime, GroupOf13, Commutes, Associates, ZeroIsNeutral, NegIsMinusOne, OneActs, ActsTwice, SumActs;
    hide ReducedActs;
    forall a: int, b: int, x: Residue
      ensures ActsTwice(GroupOf13(), a, b, x) && SumActs(GroupOf13(), a, b, x)
    {
      ActionLaws(a, b, x);
    }
    forall a: int, x: Residue ensures ReducedActs(GroupOf13(), a, x) {
      ActionLaws(a, 0, x);
    }
    forall x: Residue, y: Residue, z: Residue
      ensures Associates(GroupOf13(), x, y, z)
    {
      AssociativeLaw(x, y, z);
    }
    forall x: Residue, y: Residue ensures Commutes(GroupOf13(), x, y) && ZeroIsNeutral(GroupOf13(), x, y) {
      OtherLaws(x, y);
    }
    forall x: Residue ensures NegIsMinusOne(GroupOf13(), x) && OneActs(GroupOf13(), x) {
      OtherLaws(x, x);
    }
  }

  // ----- two suites ------------------------------------------------------------------------------------------

  /** The residue in the first of 32 octets. */
  function Enc13(x: Residue): seq<Byte> { [x] + Zeros(31) }

  function Zeros(n: nat): seq<Byte> { seq(n, i => 0) }

  function Dec13(b: seq<Byte>): Option<Residue> {
    if |b| == 32 && b[0] < 13 && b[1..] == Zeros(31) then Some(b[0]) else None
  }

  function OprfSuite(): Voprf.Suite<Residue> {
    Voprf.Suite(GroupOf13(), Enc13, Dec13, (b: seq<Byte>) => |b| % 13)
  }

  lemma Encoding13(x: Residue, b: seq<Byte>)
    ensures Voprf.Encodes(OprfSuite(), x) && Voprf.Canonically(OprfSuite(), b) && Voprf.HashesToScalar(OprfSuite(), b)
  {
    assert Enc13(x)[1..] == Zeros(31);
    if Dec13(b).Some? {
      assert b == [b[0]] + b[1..];
    }
  }

  lemma AllEncodings13()
    ensures forall x: Residue :: Voprf.Encodes(OprfSuite(), x)
    ensures forall b: seq<Byte> :: Voprf.Canonically(OprfSuite(), b) && Voprf.HashesToScalar(OprfSuite(), b)
  {
    hide OprfSuite, Voprf.Encodes, Voprf.Canonically, Voprf.HashesToScalar;
    forall x: Residue ensures Voprf.Encodes(OprfSuite(), x) {
      Encoding13(x, []);
    }
    forall b: seq<Byte> ensures Voprf.Canonically(OprfSuite(), b) && Voprf.HashesToScalar(OprfSuite(), b) {
      Encoding13(0, b);
    }
  }

  lemma SmallSuite()
    ensures Voprf.IsSuite(OprfSuite())
  {
    assert OprfSuite().g == GroupOf13() && GroupOf13().order == 13;
    hide IsGroup, GroupOf13, OprfSuite, Voprf.Encodes, Voprf.Canonically, Voprf.HashesToScalar;
    SmallGroup();
    AllEncodings13();
    RoomFor13(Voprf.SCALAR_BYTES);
  }

  lemma RoomFor13(n: nat)
    requires n > 0
    ensures 13 <= Pow256(n)
  {
    assert Pow256(n - 1) > 0;
  }

  /** Over the base field of 17 elements, with a hash that reads one coordinate of
      a commitment. */
  function ThresholdSuite(): Threshold.Suite<Residue> {
    Threshold.Suite(GroupOf13(), 17, (x: Residue) => (x, x), (t: seq<int>) => if |t| > 8 then t[8] else 0)
  }

  lemma SeventeenIsPrime()
    ensures IsPrime(17)
  {
    forall d | 1 < d < 17 ensures 17 % d != 0 {
      assert d in {2, 3, 4, 5, 6, 7, 8, 9, 10, 11, 12, 13, 14, 15, 16};
    }
  }

  /** A false share with an accepted proof: 3 is not twice 1. */
  lemma FalseShareIsAccepted(epoch: int) returns (d: Threshold.Dleq)
    ensures Threshold.Accepts(ThresholdSuite(), 2, 1, 3, epoch, d)
    ensures !Threshold.IsShare(ThresholdSuite(), 2, 1, 3)
  {
    ThirteenIsPrime();
    SeventeenIsPrime();
    hide IsPrime;
    d := Threshold.AcceptanceBindsNoShare(ThresholdSuite(), 2, 1, 3, epoch, 1, 1);
  }

  // ----- a race ------------------------------------------------------------------------------------------------

  /** The sum, where it fits in 32 bytes. */
  function SumHash(a: int, b: int): int { if FitsHex32(a + b) then a + b else 0 }

  function Total(leaves: seq<int>): int {
    if leaves == [] then 0 else leaves[0] + Total(leaves[1..])
  }

  ghost predicate Few(leaves: seq<int>) {
    |leaves| <= 2 && forall i :: 0 <= i < |leaves| ==> 0 <= leaves[i] <= 2
  }

  lemma SmallNumbersFit(v: int)
    requires 0 <= v <= 4
    ensures FitsHex32(v)
  {
    assert HEX_DIGITS > 0;
    PowerPositive(HEX_DIGITS - 1);
  }

  lemma {:induction false} PowerPositive(n: nat)
    ensures Pow16(n) > 0
  {
    if n > 0 {
      PowerPositive(n - 1);
    }
  }

  lemma TotalIsSmall(leaves: seq<int>)
    requires Few(leaves)
    ensures 0 <= Total(leaves) <= 4
    ensures |leaves| <= 2 ==> Total(leaves) == Leaf(leaves, 0) + Leaf(leaves, 1)
  {
    if |leaves| > 1 {
      assert leaves[1..][1..] == [];
    }
  }

  lemma {:induction false} SumNode(leaves: seq<int>, l: nat, i: nat)
    requires Few(leaves)
    ensures Node(SumHash, leaves, l + 1, i) == if i == 0 then Total(leaves) else 0
    decreases l
  {
    hide FitsHex32;
    TotalIsSmall(leaves);
    SmallNumbersFit(0);
    SmallNumbersFit(Total(leaves));
    hide Total;
    if l == 0 {
      assert Node(SumHash, leaves, 0, 2 * i) == Leaf(leaves, 2 * i);
      assert Node(SumHash, leaves, 0, 2 * i + 1) == Leaf(leaves, 2 * i + 1);
    } else {
      SumNode(leaves, l - 1, 2 * i);
      SumNode(leaves, l - 1, 2 * i + 1);
    }
  }

  lemma RootIsTotal(leaves: seq<int>)
    requires Few(leaves)
    ensures S.RootOf(SumHash, leaves) == Total(leaves)
  {
    SumNode(leaves, MerkleIndex.TREE_DEPTH - 1, 0);
  }

  lemma SmallFieldHash()
    ensures S.FieldHash(SumHash)
  {
    SmallNumbersFit(0);
    hide FitsHex32;
  }

  /** A request whose commitment and output are one small number. */
  function RequestFor(v: int): S.Request
    requires FitsHex32(v)
  {
    S.Request(Hex32(v), Hex32(v), Hex32(v), 0)
  }

  lemma RequestIsAdmissible(v: int)
    requires 0 <= v <= 4
    ensures FitsHex32(v) && S.Admissible(SumHash, RequestFor(v)) && ValueOf(Hex32(v)) == v
  {
    SmallNumbersFit(v);
    HexRoundTrip(v);
    hide FitsHex32;
    var octets := HexBytes(Hex32(v));
    BytesSpellValue(Hex32(v));
    LimbsMeaning(octets);
    SmallLimbs(Split(octets).hi, Split(octets).lo, Pow256(16), v);
  }

  lemma SmallLimbs(hi: nat, lo: nat, m: nat, v: int)
    requires hi * m + lo == v && v < m && 0 < m
    ensures hi == 0 && lo == v
  {
    SmallMultiple(hi, m);
  }

  lemma RoomForTwo()
    ensures MerkleIndex.Capacity() > 1
  {}

  lemma DifferentTexts()
    ensures FitsHex32(1) && FitsHex32(2) && Hex32(1) != Hex32(2)
  {
    hide Hex32, ValueOf;
    RequestIsAdmissible(1);
    RequestIsAdmissible(2);
    hide FitsHex32;
  }

  lemma EmptyService(texts: seq<string>) returns (w: S.World)
    requires |texts| == 0
    ensures S.Consistent(SumHash, w, texts) && w.enrolled == map[]
  {
    SmallFieldHash();
    S.FirstBoot(SumHash, map[], texts);
    w := S.Boot(SumHash, map[], map[], [], texts).value;
    hide FitsHex32, Hex32, S.FieldHash, S.Consistent, SumHash, MerkleIndex.TreeOf, MerkleIndex.Capacity;
  }

  lemma SmallRoots(leaves: seq<int>, a: int, b: int)
    requires 1 <= a <= 2 && 1 <= b <= 2 && |leaves| == 0
    ensures S.RootOf(SumHash, leaves + [a]) == a
    ensures S.RootOf(SumHash, leaves + [a] + [b]) == a + b
  {
    hide S.RootOf, SumHash;
    var one, two := leaves + [a], leaves + [a] + [b];
    TotalIsSmall(one);
    TotalIsSmall(two);
    hide Total;
    RootIsTotal(one);
    RootIsTotal(two);
  }

  /** Two requests that meet on an empty service, with different leaves and
      different roots. */
  lemma SmallRace(texts: seq<string>) returns (x: Race)
    requires |texts| == 0
    ensures Fair(x, texts) && x.la != x.lb && !x.Same() && !x.Tight()
    ensures Root1(x) != Root2(x) && Root1(x.Mirrored()) != Root2(x.Mirrored())
  {
    hide FitsHex32, Hex32, ValueOf, S.Admissible, SumHash, S.RootOf, S.FieldHash, S.Consistent, MerkleIndex.Capacity;
    SmallFieldHash();
    RequestIsAdmissible(1);
    RequestIsAdmissible(2);
    DifferentTexts();
    RoomForTwo();
    SmallRoots(S.Values(texts), 1, 2);
    SmallRoots(S.Values(texts), 2, 1);
    var w := EmptyService(texts);
    x := Race(SumHash, w, S.Values(texts), RequestFor(1), RequestFor(2), 1, 2);
  }

  // ----- a hash that does not commute ------------------------------------------------------------------------

  /** The second argument counts double, where the result fits in 32 bytes. */
  function SkewHash(a: int, b: int): int { if FitsHex32(a + 2 * b) then a + 2 * b else 0 }

  /** The number whose upper half is 1 and whose lower half is 2. */
  const SKEW_OUTPUT: int := S.TWO_TO_128 + 2

  /** An output with the halves 1 and 2 derives h(1, 2), and not h(2, 1). */
  lemma HalvesAreNotSwapped()
    ensures FitsHex32(SKEW_OUTPUT) && FitsHex32(5) && FitsHex32(4)
    ensures SkewHash(1, 2) == 5 && SkewHash(2, 1) == 4
    ensures S.Admissible(SkewHash, S.Request(Hex32(5), Hex32(0), Hex32(SKEW_OUTPUT), 0))
    ensures !S.Admissible(SkewHash, S.Request(Hex32(4), Hex32(0), Hex32(SKEW_OUTPUT), 0))
  {
    LargeEnough();
    var text := Hex32(SKEW_OUTPUT);
    HexRoundTrip(SKEW_OUTPUT);
    HexRoundTrip(5);
    HexRoundTrip(4);
    hide FitsHex32, Hex32, ValueOf;
    S.DerivedIs(SkewHash, text);
    assert SKEW_OUTPUT / S.TWO_TO_128 == 1 && SKEW_OUTPUT % S.TWO_TO_128 == 2;
  }

  lemma LargeEnough()
    ensures FitsHex32(0) && FitsHex32(4) && FitsHex32(5) && FitsHex32(SKEW_OUTPUT)
  {
    assert Pow16(4) == 0x1_0000;
    assert Pow16(8) == 0x1_0000_0000;
    assert Pow16(12) == 0x1_0000_0000_0000;
    assert Pow16(16) == 0x1_0000_0000_0000_0000;
    assert Pow16(20) == 0x1_0000_0000_0000_0000_0000;
    assert Pow16(24) == 0x1_0000_0000_0000_0000_0000_0000;
    assert Pow16(28) == 0x1_0000_0000_0000_0000_0000_0000_0000;
    assert Pow16(32) == 0x1_0000_0000_0000_0000_0000_0000_0000_0000;
    assert Pow16(33) == 0x10_0000_0000_0000_0000_0000_0000_0000_0000;
    PowersGrow16(33, HEX_DIGITS);
  }

  lemma {:induction false} PowersGrow16(a: nat, b: nat)
    requires a <= b
    ensures Pow16(a) <= Pow16(b)
    decreases b
  {
    if a < b {
      PowersGrow16(a, b - 1);
    }
  }
}
