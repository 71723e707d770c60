/** The zero-padded binary Merkle tree of the trust list and of the enrollment
    index: the sparse layers that the program stores against the perfect tree
    they stand for. The node hash h is a parameter. */
module MerkleTree {
  import opened Int32
  import opened Wrappers

  function Pow2(n: nat): (r: nat)
    ensures r > 0
  {
    if n == 0 then 1 else 2 * Pow2(n - 1)
  }

  // ----- the perfect tree --------------------------------------------------------------------

  function Leaf(leaves: seq<int>, i: nat): int {
    if i < |leaves| then leaves[i] else 0
  }

  /** Node i of level l of the infinite tree over the leaves padded with 0. */
  function Node(h: (int, int) -> int, leaves: seq<int>, l: nat, i: nat): int
    decreases l, leaves, i
  {
    if l == 0 then Leaf(leaves, i)
    else h(Node(h, leaves, l - 1, 2 * i), Node(h, leaves, l - 1, 2 * i + 1))
  }

  /** The root of an all-zero subtree of height l. */
  function ZeroHash(h: (int, int) -> int, l: nat): int {
    if l == 0 then 0 else h(ZeroHash(h, l - 1), ZeroHash(h, l - 1))
  }

  /** How many nodes of level l are stored for n leaves: halved and rounded up
      at each level. */
  function LayerLen(n: nat, l: nat): nat {
    if l == 0 then n else (LayerLen(n, l - 1) + 1) / 2
  }

  /** That is the quotient by 2^l, rounded up. */
  lemma {:induction false} LayerLenIsCeiling(n: nat, l: nat)
    ensures LayerLen(n, l) * Pow2(l) >= n
    ensures LayerLen(n, l) > 0 ==> (LayerLen(n, l) - 1) * Pow2(l) < n
  {
    if l > 0 {
      LayerLenIsCeiling(n, l - 1);
      CeilingStep(n, LayerLen(n, l - 1), LayerLen(n, l), Pow2(l - 1));
    }
  }

  lemma CeilingStep(n: nat, k: nat, m: nat, p: nat)
    requires m == (k + 1) / 2 && k * p >= n && (k > 0 ==> (k - 1) * p < n)
    ensures m * (2 * p) >= n && (m > 0 ==> (m - 1) * (2 * p) < n)
  {
    assert m * (2 * p) == (2 * m) * p;
    Monotone(k, 2 * m, p);
    if m > 0 {
      assert (m - 1) * (2 * p) == (2 * m - 2) * p;
      Monotone(2 * m - 2, k - 1, p);
    }
  }

  lemma Monotone(a: int, b: int, p: nat)
    requires a <= b
    ensures a * p <= b * p
  {
    assert (b - a) * p >= 0;
  }

  /** Past the stored nodes every node is the zero subtree. */
  lemma {:induction false} BeyondLayer(h: (int, int) -> int, leaves: seq<int>, l: nat, i: nat)
    requires LayerLen(|leaves|, l) <= i
    ensures Node(h, leaves, l, i) == ZeroHash(h, l)
    decreases l
  {
    if l > 0 {
      BeyondLayer(h, leaves, l - 1, 2 * i);
      BeyondLayer(h, leaves, l - 1, 2 * i + 1);
    }
  }

  lemma {:induction false} TopLayer(n: nat, depth: nat)
    requires n <= Pow2(depth)
    ensures LayerLen(n, depth) == if n == 0 then 0 else 1
  {
    LayerLenIsCeiling(n, depth);
    CeilingIsOne(n, LayerLen(n, depth), Pow2(depth));
  }

  lemma CeilingIsOne(n: nat, m: nat, p: nat)
    requires n <= p && m * p >= n && (m > 0 ==> (m - 1) * p < n)
    ensures m == if n == 0 then 0 else 1
  {
    if m >= 2 {
      Monotone(1, m - 1, p);
    } else if m == 1 {
      assert (m - 1) * p == 0;
    } else {
      assert m * p == 0;
    }
  }

  lemma {:induction false} LeftNode(h: (int, int) -> int, a: seq<int>, b: seq<int>, l: nat, i: nat)
    requires (i + 1) * Pow2(l) <= |a|
    ensures Node(h, a + b, l, i) == Node(h, a, l, i)
    decreases l
  {
    if l > 0 {
      BothChildren(i, Pow2(l - 1), |a|);
      LeftNode(h, a, b, l - 1, 2 * i);
      LeftNode(h, a, b, l - 1, 2 * i + 1);
    } else {
      assert (a + b)[i] == a[i];
    }
  }

  lemma BothChildren(i: nat, p: nat, n: nat)
    requires (i + 1) * (2 * p) <= n
    ensures (2 * i + 1) * p <= n && (2 * i + 2) * p <= n
  {
    assert (2 * i + 2) * p == (i + 1) * (2 * p);
    Monotone(2 * i + 1, 2 * i + 2, p);
  }

  lemma {:induction false} RightNode(h: (int, int) -> int, a: seq<int>, b: seq<int>, l: nat, i: nat, k: nat)
    requires |a| == k * Pow2(l)
    ensures Node(h, a + b, l, k + i) == Node(h, b, l, i)
    decreases l
  {
    if l > 0 {
      assert |a| == (2 * k) * Pow2(l - 1);
      RightNode(h, a, b, l - 1, 2 * i, 2 * k);
      RightNode(h, a, b, l - 1, 2 * i + 1, 2 * k);
    }
  }

  /** The root over two halves is the hash of the left root and the right root, the
      root of height 0 is the leaf, and missing leaves are zero: this fixes the tree. */
  lemma RootOfHalves(h: (int, int) -> int, a: seq<int>, b: seq<int>, depth: nat)
    requires |a| == Pow2(depth)
    ensures Node(h, a + b, depth + 1, 0) == h(Node(h, a, depth, 0), Node(h, b, depth, 0))
    ensures forall leaf :: Node(h, [leaf], 0, 0) == leaf
    ensures Node(h, [], 0, 0) == 0
  {
    LeftNode(h, a, b, depth, 0);
    RightNode(h, a, b, depth, 0, 1);
  }

  // ----- the stored layers -----------------------------------------------------------------------

  datatype BuiltTree = BuiltTree(root: int, layers: seq<seq<int>>)
  datatype TreeError = BadDepth | TooManyLeaves | NoLayers | BadIndex

  function Layer(h: (int, int) -> int, leaves: seq<int>, l: nat): seq<int> {
    seq(LayerLen(|leaves|, l), i requires 0 <= i < LayerLen(|leaves|, l) => Node(h, leaves, l, i))
  }

  function Layers(h: (int, int) -> int, leaves: seq<int>, depth: nat): seq<seq<int>> {
    seq(depth + 1, l requires 0 <= l <= depth => Layer(h, leaves, l))
  }

  /** What buildTree returns. */
  function Built(h: (int, int) -> int, leaves: seq<int>, depth: int): Result<BuiltTree, TreeError> {
    if depth < 0 then Err(BadDepth)
    else if |leaves| > Pow2(depth) then Err(TooManyLeaves)
    else Ok(BuiltTree(Node(h, leaves, depth, 0), Layers(h, leaves, depth)))
  }

  method ZeroHashes(h: (int, int) -> int, depth: nat) returns (zeros: array<int>)
    ensures fresh(zeros) && zeros.Length == depth + 1
    ensures forall l :: 0 <= l <= depth ==> zeros[l] == ZeroHash(h, l)
  {
    zeros := new int[depth + 1];
    zeros[0] := 0;
    for i := 1 to depth + 1
      invariant forall l :: 0 <= l < i ==> zeros[l] == ZeroHash(h, l)
    {
      zeros[i] := h(zeros[i - 1], zeros[i - 1]);
    }
  }

  /** The stored pair under a node, with missing nodes as zero, hashes to it. */
  lemma PairHashes(h: (int, int) -> int, cur: seq<int>, zero: int, leaves: seq<int>, l: nat, i: nat)
    requires cur == Layer(h, leaves, l) && zero == ZeroHash(h, l) && 2 * i < |cur|
    ensures h(cur[2 * i], if 2 * i + 1 < |cur| then cur[2 * i + 1] else zero) == Node(h, leaves, l + 1, i)
  {
    if 2 * i + 1 >= |cur| {
      BeyondLayer(h, leaves, l, 2 * i + 1);
    }
  }

  /** The next layer: parents of pairs, a missing right sibling being zero. */
  method NextLayer(h: (int, int) -> int, cur: seq<int>, zero: int, ghost leaves: seq<int>, ghost l: nat)
    returns (next: seq<int>)
    requires cur == Layer(h, leaves, l) && zero == ZeroHash(h, l)
    ensures next == Layer(h, leaves, l + 1)
  {
    hide Node;
    var nextLen := (|cur| + 1) / 2;
    var buffer := new int[nextLen];
    for i := 0 to nextLen
      invariant forall j :: 0 <= j < i ==> buffer[j] == Node(h, leaves, l + 1, j)
    {
      var left := if 2 * i < |cur| then cur[2 * i] else zero;
      var right := if 2 * i + 1 < |cur| then cur[2 * i + 1] else zero;
      PairHashes(h, cur, zero, leaves, l, i);
      buffer[i] := h(left, right);
    }
    next := buffer[..];
  }

  /** buildTree: the layers are those of the perfect tree, cut off at the last
      node that covers a leaf, and the root is the perfect tree's root. */
  method BuildTree(h: (int, int) -> int, leaves: seq<int>, depth: int) returns (r: Result<BuiltTree, TreeError>)
    ensures r == Built(h, leaves, depth)
  {
    if depth < 0 {
      return Err(BadDepth);
    }
    var capacity := Pow2(depth);
    if |leaves| > capacity {
      return Err(TooManyLeaves);
    }
    var zeros := ZeroHashes(h, depth);
    var layers: seq<seq<int>> := [leaves];
    assert leaves == Layer(h, leaves, 0);
    for level := 0 to depth
      invariant |layers| == level + 1
      invariant forall l :: 0 <= l <= depth ==> zeros[l] == ZeroHash(h, l)
      invariant forall l :: 0 <= l <= level ==> layers[l] == Layer(h, leaves, l)
    {
      var next := NextLayer(h, layers[level], zeros[level], leaves, level);
      layers := layers + [next];
    }
    var top := layers[depth];
    TopLayer(|leaves|, depth);
    if |top| != 1 {
      BeyondLayer(h, leaves, depth, 0);
    }
    var root := if |top| == 1 then top[0] else zeros[depth];
    assert layers == Layers(h, leaves, depth);
    r := Ok(BuiltTree(root, layers));
  }

  // ----- inclusion proofs ---------------------------------------------------------------------------

  datatype Proof = Proof(path: seq<int>, indices: seq<int>)

  /** x >> 1, which first converts x to 32 bits. */
  function ShiftRight1(x: int): int { ToInt32(x) / 2 }

  /** The position the program computes at a level. */
  function Position(index: int, l: nat): int {
    if l == 0 then index else ShiftRight1(Position(index, l - 1))
  }

  lemma NextPosition(index: int, l: nat)
    ensures Position(index, l + 1) == ShiftRight1(Position(index, l))
  {}

  /** x % 2 === 1, where the remainder of a negative number is not positive. */
  predicate IsRight(x: int) { x >= 0 && x % 2 == 1 }

  function SiblingAt(x: int): int { if IsRight(x) then x - 1 else x + 1 }

  /** layer[i], or the zero subtree where there is no such element. */
  function Lookup(h: (int, int) -> int, layer: seq<int>, i: int, l: nat): int {
    if 0 <= i < |layer| then layer[i] else ZeroHash(h, l)
  }

  function PathEntry(h: (int, int) -> int, layer: seq<int>, index: int, l: nat): int {
    Lookup(h, layer, SiblingAt(Position(index, l)), l)
  }

  function BitEntry(index: int, l: nat): int {
    if IsRight(Position(index, l)) then 1 else 0
  }

  /** The entries below level n. */
  function PathTo(h: (int, int) -> int, layers: seq<seq<int>>, index: int, n: nat): seq<int>
    requires n <= |layers|
  {
    seq(n, l requires 0 <= l < n => PathEntry(h, layers[l], index, l))
  }

  function BitsTo(index: int, n: nat): seq<int> {
    seq(n, l requires 0 <= l < n => BitEntry(index, l))
  }

  /** What proveInclusion returns. */
  function Proved(h: (int, int) -> int, layers: seq<seq<int>>, index: int): Result<Proof, TreeError> {
    if |layers| == 0 then Err(NoLayers)
    else if index < 0 then Err(BadIndex)
    else
      var depth := |layers| - 1;
      Ok(Proof(PathTo(h, layers, index, depth), BitsTo(index, depth)))
  }

  lemma EntriesGrow(h: (int, int) -> int, layers: seq<seq<int>>, index: int, n: nat)
    requires n < |layers|
    ensures PathTo(h, layers, index, n + 1) == PathTo(h, layers, index, n) + [PathEntry(h, layers[n], index, n)]
    ensures BitsTo(index, n + 1) == BitsTo(index, n) + [BitEntry(index, n)]
  {
    hide PathEntry, BitEntry;
  }

  method ProveInclusion(h: (int, int) -> int, layers: seq<seq<int>>, index: int) returns (r: Result<Proof, TreeError>)
    ensures r == Proved(h, layers, index)
  {
    if |layers| == 0 {
      return Err(NoLayers);
    }
    if index < 0 {
      return Err(BadIndex);
    }
    var depth := |layers| - 1;
    var zeros := ZeroHashes(h, depth);
    var path := new int[depth];
    var indices := new int[depth];
    var i := index;
    for level := 0 to depth
      invariant i == Position(index, level)
      invariant forall l :: 0 <= l <= depth ==> zeros[l] == ZeroHash(h, l)
      invariant path[..level] == PathTo(h, layers, index, level)
      invariant indices[..level] == BitsTo(index, level)
    {
      NextPosition(index, level);
      var layer := layers[level];
      var isRight := IsRight(i);
      var siblingIdx := if isRight then i - 1 else i + 1;
      var sibling := if 0 <= siblingIdx < |layer| then layer[siblingIdx] else zeros[level];
      var bit := if isRight then 1 else 0;
      assert sibling == PathEntry(h, layers[level], index, level) && bit == BitEntry(index, level);
      EntriesGrow(h, layers, index, level);
      hide Position, ZeroHash, IsRight, ShiftRight1, PathEntry, BitEntry, PathTo, BitsTo;
      path[level] := sibling;
      indices[level] := bit;
      assert path[..level + 1] == path[..level] + [sibling] && indices[..level + 1] == indices[..level] + [bit];
      i := ShiftRight1(i);
    }
    assert path[..depth] == path[..] && indices[..depth] == indices[..];
    r := Ok(Proof(path[..], indices[..]));
  }

  /** Recomputes the root from a value, as the circuit does: at each level the
      sibling goes left when the bit is 1. */
  function Walk(h: (int, int) -> int, v: int, path: seq<int>, bits: seq<int>): int
    requires |path| == |bits|
    decreases |path|
  {
    if path == [] then v
    else Walk(h, if bits[0] == 1 then h(path[0], v) else h(v, path[0]), path[1..], bits[1..])
  }

  /** i halved l times. */
  function Halved(i: nat, l: nat): nat {
    if l == 0 then i else Halved(i, l - 1) / 2
  }

  function Sibling(i: nat): nat { if i % 2 == 1 then i - 1 else i + 1 }

  /** The siblings and the digits met on the way up from leaf i. */
  function TruePath(h: (int, int) -> int, leaves: seq<int>, depth: nat, i: nat): seq<int> {
    seq(depth, l requires 0 <= l < depth => Node(h, leaves, l, Sibling(Halved(i, l))))
  }

  function TrueBits(depth: nat, i: nat): seq<int> {
    seq(depth, l requires 0 <= l < depth => Halved(i, l) % 2)
  }

  lemma {:induction false} HalvedToZero(i: nat, depth: nat)
    requires i < Pow2(depth)
    ensures Halved(i, depth) == 0
  {
    HalvedBound(i, depth, depth);
  }

  lemma {:induction false} HalvedBound(i: nat, depth: nat, l: nat)
    requires i < Pow2(depth) && l <= depth
    ensures Halved(i, l) < Pow2(depth - l)
  {
    if l > 0 {
      HalvedBound(i, depth, l - 1);
    }
  }

  /** One step of the walk. */
  lemma WalkStep(h: (int, int) -> int, v: int, path: seq<int>, bits: seq<int>, l: nat)
    requires l < |path| == |bits|
    ensures Walk(h, v, path[l..], bits[l..])
         == Walk(h, if bits[l] == 1 then h(path[l], v) else h(v, path[l]), path[l + 1..], bits[l + 1..])
  {
    assert path[l..][1..] == path[l + 1..] && bits[l..][1..] == bits[l + 1..];
  }

  /** The path and the bits are those of leaf i. */
  ghost predicate IsTruePath(h: (int, int) -> int, leaves: seq<int>, i: nat, path: seq<int>, bits: seq<int>) {
    && |path| == |bits|
    && (forall l :: 0 <= l < |path| ==> path[l] == Node(h, leaves, l, Sibling(Halved(i, l))))
    && (forall l :: 0 <= l < |bits| ==> bits[l] == Halved(i, l) % 2)
  }

  /** From any level on, the true path leads from the node above leaf i to the root. */
  lemma {:induction false} WalkFrom(h: (int, int) -> int, leaves: seq<int>, i: nat, path: seq<int>, bits: seq<int>,
                                   l: nat)
    requires IsTruePath(h, leaves, i, path, bits) && l <= |path|
    ensures Walk(h, Node(h, leaves, l, Halved(i, l)), path[l..], bits[l..])
         == Node(h, leaves, |path|, Halved(i, |path|))
    decreases |path| - l
  {
    if l < |path| {
      var x := Halved(i, l);
      assert Halved(i, l + 1) == x / 2;
      assert path[l] == Node(h, leaves, l, Sibling(x)) && bits[l] == x % 2;
      hide Walk, Node, Halved, Sibling, IsTruePath;
      WalkStep(h, Node(h, leaves, l, x), path, bits, l);
      StepUp(h, leaves, l, x);
      WalkFrom(h, leaves, i, path, bits, l + 1);
    } else {
      assert path[l..] == [];
    }
  }

  /** A node, its sibling and the digit give the parent. */
  lemma StepUp(h: (int, int) -> int, leaves: seq<int>, l: nat, x: nat)
    ensures var v, s := Node(h, leaves, l, x), Node(h, leaves, l, Sibling(x));
      (if x % 2 == 1 then h(s, v) else h(v, s)) == Node(h, leaves, l + 1, x / 2)
  {
    assert x == 2 * (x / 2) + x % 2;
  }

  /** Folding the true path of any leaf, present or padding, gives the root. */
  lemma TruePathFolds(h: (int, int) -> int, leaves: seq<int>, depth: nat, i: nat)
    requires i < Pow2(depth)
    ensures Walk(h, Leaf(leaves, i), TruePath(h, leaves, depth, i), TrueBits(depth, i)) == Node(h, leaves, depth, 0)
  {
    var path, bits := TruePath(h, leaves, depth, i), TrueBits(depth, i);
    assert path[0..] == path && bits[0..] == bits;
    WalkFrom(h, leaves, i, path, bits, 0);
    HalvedToZero(i, depth);
  }

  lemma {:induction false} PositionIsHalved(index: nat, l: nat)
    requires index < 0x8000_0000
    ensures Position(index, l) == Halved(index, l) < 0x8000_0000
  {
    if l > 0 {
      PositionIsHalved(index, l - 1);
    }
  }

  /** Sparse equals perfect: for every index below 2^31 the proof computed from
      the stored layers is the path of the perfect tree, so it folds to the root. */
  lemma ProofIsTruePath(h: (int, int) -> int, leaves: seq<int>, depth: nat, index: nat)
    requires index < 0x8000_0000
    ensures Proved(h, Layers(h, leaves, depth), index)
         == Ok(Proof(TruePath(h, leaves, depth, index), TrueBits(depth, index)))
  {
    var layers := Layers(h, leaves, depth);
    var proof := Proved(h, layers, index).value;
    forall l | 0 <= l < depth
      ensures proof.path[l] == TruePath(h, leaves, depth, index)[l]
      ensures proof.indices[l] == TrueBits(depth, index)[l]
    {
      PositionIsHalved(index, l);
      var s := Sibling(Halved(index, l));
      if s >= |layers[l]| {
        BeyondLayer(h, leaves, l, s);
      }
    }
    assert proof.path == TruePath(h, leaves, depth, index);
    assert proof.indices == TrueBits(depth, index);
  }

  lemma InclusionFolds(h: (int, int) -> int, leaves: seq<int>, depth: nat, index: nat)
    requires index < 0x8000_0000 && index < Pow2(depth)
    ensures var r := Proved(h, Layers(h, leaves, depth), index);
      r.Ok? && |r.value.path| == |r.value.indices| == depth
      && Walk(h, Leaf(leaves, index), r.value.path, r.value.indices) == Node(h, leaves, depth, 0)
  {
    ProofIsTruePath(h, leaves, depth, index);
    TruePathFolds(h, leaves, depth, index);
  }

  // ----- the direction bits ----------------------------------------------------------------------------

  /** The number whose binary digits, least significant first, are given. */
  function Spell(bits: seq<int>): int {
    if bits == [] then 0 else bits[0] + 2 * Spell(bits[1..])
  }

  lemma {:induction false} BitsSpellFrom(depth: nat, i: nat, l: nat)
    requires l <= depth && i < Pow2(depth)
    ensures Spell(TrueBits(depth, i)[l..]) == Halved(i, l)
    decreases depth - l
  {
    if l < depth {
      BitsSpellFrom(depth, i, l + 1);
      assert TrueBits(depth, i)[l..][1..] == TrueBits(depth, i)[l + 1..];
    } else {
      HalvedToZero(i, depth);
    }
  }

  lemma {:induction false} SmallSpell(bits: seq<int>, k: nat)
    requires forall l :: 0 <= l < |bits| ==> 0 <= bits[l] <= if l < k then 1 else 0
    ensures 0 <= Spell(bits) < Pow2(k)
    decreases |bits|
  {
    if bits != [] {
      var t := bits[1..];
      var j := if k == 0 then 0 else k - 1;
      assert forall l :: 0 <= l < |t| ==> t[l] == bits[l + 1];
      SmallSpell(t, j);
    }
  }

  lemma {:induction false} PositionBound(index: int, l: nat)
    requires 1 <= l <= 31
    ensures -(Pow2(31 - l) as int) <= Position(index, l) < Pow2(31 - l)
  {
    if l == 1 {
      Pow2Of30();
    } else {
      PositionBound(index, l - 1);
      Pow2Of30();
      Pow2Grows(31 - (l - 1), 30);
    }
  }

  lemma {:induction false} Pow2Grows(a: nat, b: nat)
    requires a <= b
    ensures Pow2(a) <= Pow2(b)
  {
    if a < b {
      Pow2Grows(a, b - 1);
    }
  }

  lemma Pow2Of30()
    ensures Pow2(30) == 0x4000_0000 && Pow2(31) == 0x8000_0000
  {
    assert Pow2(8) == 0x100;
    assert Pow2(16) == 0x1_0000;
    assert Pow2(24) == 0x100_0000;
    assert Pow2(30) == 0x4000_0000;
  }

  lemma {:induction false} PositionVanishes(index: int, l: nat)
    requires 31 <= l
    ensures -1 <= Position(index, l) <= 0
  {
    if l == 31 {
      PositionBound(index, 31);
    } else {
      PositionVanishes(index, l - 1);
    }
  }

  lemma LargeIndexLosesBits(h: (int, int) -> int, layers: seq<seq<int>>, index: nat)
    requires 0x8000_0000 <= index && |layers| > 0
    ensures Spell(Proved(h, layers, index).value.indices) < index
  {
    var bits := Proved(h, layers, index).value.indices;
    forall l | 0 <= l < |bits| ensures 0 <= bits[l] <= if l < 31 then 1 else 0 {
      if l >= 31 {
        PositionVanishes(index, l);
      }
    }
    SmallSpell(bits, 31);
    Pow2Of30();
  }

  /** The direction bits are the binary digits of the index exactly when the
      index is below 2^31: the 32-bit shift loses the rest. */
  lemma BitsSpellIndex(h: (int, int) -> int, leaves: seq<int>, depth: nat, index: nat)
    requires index < Pow2(depth)
    ensures var r := Proved(h, Layers(h, leaves, depth), index);
      r.Ok? && (Spell(r.value.indices) == index <==> index < 0x8000_0000)
  {
    if index < 0x8000_0000 {
      ProofIsTruePath(h, leaves, depth, index);
      BitsSpellFrom(depth, index, 0);
      assert TrueBits(depth, index)[0..] == TrueBits(depth, index);
    } else {
      LargeIndexLosesBits(h, Layers(h, leaves, depth), index);
    }
  }

  lemma {:induction false} SamePosition(index: nat, r: nat, l: nat)
    requires ToInt32(index) == ToInt32(r) && l > 0
    ensures Position(index, l) == Position(r, l)
  {
    hide ToInt32;
    NextPosition(index, l - 1);
    NextPosition(r, l - 1);
    if l > 1 {
      SamePosition(index, r, l - 1);
    }
  }

  /** The bits depend on the index modulo 2^32 only. */
  lemma SameBits(index: nat, r: nat, l: nat)
    requires r == index % 0x1_0000_0000
    ensures BitEntry(index, l) == BitEntry(r, l)
  {
    SameInt32(index, r);
    if l > 0 {
      SamePosition(index, r, l);
      hide ToInt32, Position;
    } else {
      SameParity(index, r);
    }
  }

  lemma SameInt32(x: int, r: int)
    requires r == x % 0x1_0000_0000
    ensures ToInt32(x) == ToInt32(r)
  {
    assert x == 0x1_0000_0000 * (x / 0x1_0000_0000) + r;
  }

  lemma SameParity(x: int, r: int)
    requires r == x % 0x1_0000_0000
    ensures x % 2 == r % 2
  {
    var q := x / 0x1_0000_0000;
    assert x == 0x1_0000_0000 * q + r;
    EvenPlus(0x8000_0000 * q, r);
  }

  lemma EvenPlus(k: int, r: int)
    ensures (2 * k + r) % 2 == r % 2
  {}

  lemma {:induction false} PositionStaysNegative(r: nat, l: nat)
    requires 0x8000_0000 <= r < 0x1_0000_0000 && l > 0
    ensures -0x8000_0000 <= Position(r, l) < 0 && BitEntry(r, l) == 0
  {
    if l > 1 {
      PositionStaysNegative(r, l - 1);
    } else {
      NextPosition(r, 0);
    }
  }

  lemma {:induction false} ZerosSpell(bits: seq<int>)
    requires forall l :: 0 <= l < |bits| ==> bits[l] == 0
    ensures Spell(bits) == 0
  {
    if bits != [] {
      ZerosSpell(bits[1..]);
    }
  }

  /** What the bits spell, for every index: its low 32 bits when they are below 2^31,
      and otherwise its lowest bit alone. */
  lemma WhatBitsSpell(h: (int, int) -> int, leaves: seq<int>, depth: nat, index: nat)
    requires index < Pow2(depth) && depth > 0
    ensures var p := Proved(h, Layers(h, leaves, depth), index); var r := index % 0x1_0000_0000;
      p.Ok? && Spell(p.value.indices) == if r < 0x8000_0000 then r else r % 2
  {
    var r := index % 0x1_0000_0000;
    var bits := BitsTo(index, depth);
    assert Proved(h, Layers(h, leaves, depth), index).value.indices == bits;
    forall l | 0 <= l < depth ensures bits[l] == BitEntry(r, l) {
      SameBits(index, r, l);
    }
    if r < 0x8000_0000 {
      forall l | 0 <= l < depth ensures bits[l] == TrueBits(depth, r)[l] {
        PositionIsHalved(r, l);
      }
      assert bits == TrueBits(depth, r);
      BitsSpellFrom(depth, r, 0);
      assert bits[0..] == bits;
    } else {
      forall l | 0 <= l < depth - 1 ensures bits[1..][l] == 0 {
        PositionStaysNegative(r, l + 1);
      }
      ZerosSpell(bits[1..]);
      assert bits[0] == r % 2;
    }
  }

  // ----- binding -------------------------------------------------------------------------------------------

  /** The two children of a node. */
  datatype Children = Children(left: int, right: int)
  datatype Clash = Clash(a: Children, b: Children)

  function Ordered(bit: int, v: int, sibling: int): Children {
    if bit == 1 then Children(sibling, v) else Children(v, sibling)
  }

  /** Two different openings of one root along the same bits contain two
      different pairs of children with the same hash; this function finds them. */
  function FindClash(h: (int, int) -> int, v: int, path: seq<int>, v': int, path': seq<int>, bits: seq<int>): (c: Clash)
    requires |path| == |path'| == |bits|
    requires Walk(h, v, path, bits) == Walk(h, v', path', bits)
    requires v != v' || path != path'
    ensures c.a != c.b && h(c.a.left, c.a.right) == h(c.b.left, c.b.right)
    decreases |path|
  {
    var a, a' := Ordered(bits[0], v, path[0]), Ordered(bits[0], v', path'[0]);
    var n, n' := h(a.left, a.right), h(a'.left, a'.right);
    if a != a' && n == n' then Clash(a, a')
    else
      assert a == a' ==> path == [path[0]] + path[1..] && path' == [path'[0]] + path'[1..];
      FindClash(h, n, path[1..], n', path'[1..], bits[1..])
  }

  ghost predicate Injective(h: (int, int) -> int) {
    forall a, b, c, d :: h(a, b) == h(c, d) ==> a == c && b == d
  }

  /** Binding of a position: what folds to the root along the digits of i is
      the padded leaf i with the path that is served. */
  lemma OpeningIsUnique(h: (int, int) -> int, leaves: seq<int>, depth: nat, i: nat, v: int, path: seq<int>)
    requires Injective(h) && i < Pow2(depth) && |path| == depth
    requires Walk(h, v, path, TrueBits(depth, i)) == Node(h, leaves, depth, 0)
    ensures v == Leaf(leaves, i) && path == TruePath(h, leaves, depth, i)
  {
    TruePathFolds(h, leaves, depth, i);
    if v != Leaf(leaves, i) || path != TruePath(h, leaves, depth, i) {
      var c := FindClash(h, v, path, Leaf(leaves, i), TruePath(h, leaves, depth, i), TrueBits(depth, i));
    }
  }

  lemma LongerListDiffers(a: seq<int>, b: seq<int>)
    requires 0 !in b && |a| < |b|
    ensures Leaf(a, |a|) != Leaf(b, |a|)
  {
    assert b[|a|] in b;
  }

  /** Binding of the whole list: the root determines the nonzero leaves. */
  lemma RootDeterminesLeaves(h: (int, int) -> int, a: seq<int>, b: seq<int>, depth: nat)
    requires Injective(h) && |a| <= Pow2(depth) && |b| <= Pow2(depth)
    requires 0 !in a && 0 !in b
    requires Node(h, a, depth, 0) == Node(h, b, depth, 0)
    ensures a == b
  {
    forall i: nat | i < Pow2(depth) ensures Leaf(a, i) == Leaf(b, i) {
      TruePathFolds(h, a, depth, i);
      OpeningIsUnique(h, b, depth, i, Leaf(a, i), TruePath(h, a, depth, i));
    }
    SameLeavesSameList(a, b, Pow2(depth));
  }

  lemma SameLeavesSameList(a: seq<int>, b: seq<int>, n: nat)
    requires |a| <= n && |b| <= n && 0 !in a && 0 !in b
    requires forall i: nat :: i < n ==> Leaf(a, i) == Leaf(b, i)
    ensures a == b
  {
    if |a| < |b| {
      LongerListDiffers(a, b);
    } else if |b| < |a| {
      LongerListDiffers(b, a);
    }
    forall i | 0 <= i < |a| ensures a[i] == b[i] {
      assert Leaf(a, i) == Leaf(b, i);
    }
  }
}
