/** The in-memory Merkle index of the enrolled commitments: a tree of depth 20
    that is rebuilt on every append. */
module MerkleIndex {
  import opened MerkleTree
  import opened Wrappers

  const TREE_DEPTH: nat := 20

  /** The three private fields of the index. */
  datatype Tree = Tree(layers: seq<seq<int>>, root: int, leafCount: nat) {
    function Leaves(): seq<int> {
      if layers == [] then [] else layers[0]
    }
  }

  function Capacity(): nat { Pow2(TREE_DEPTH) }

  /** The index over the given leaves. */
  function TreeOf(h: (int, int) -> int, leaves: seq<int>): (t: Tree)
    ensures t.Leaves() == leaves
  {
    assert Layers(h, leaves, TREE_DEPTH)[0] == leaves;
    Tree(Layers(h, leaves, TREE_DEPTH), Node(h, leaves, TREE_DEPTH, 0), |leaves|)
  }

  /** The effect of append on the fields; beyond the capacity buildTree throws
      before any field is assigned. */
  function Appended(h: (int, int) -> int, t: Tree, leaf: int): Tree {
    if |t.Leaves()| + 1 > Capacity() then t else TreeOf(h, t.Leaves() + [leaf])
  }

  datatype AppendResult = AppendResult(leafIndex: nat, oldRoot: int, newRoot: int, path: seq<int>, indices: seq<int>)
  datatype Inclusion = Inclusion(leafIndex: int, path: seq<int>, indices: seq<int>, root: int)
  datatype IndexError = Overflow | OutOfRange | Broken(TreeError)

  /** The result of append. */
  function AppendReply(h: (int, int) -> int, t: Tree, leaf: int): Result<AppendResult, IndexError> {
    if |t.Leaves()| + 1 > Capacity() then Err(Overflow)
    else
      var leaves := t.Leaves() + [leaf];
      match Proved(h, Layers(h, leaves, TREE_DEPTH), |leaves| - 1)
      case Err(e) => Err(Broken(e))
      case Ok(p) => Ok(AppendResult(|leaves| - 1, t.root, Node(h, leaves, TREE_DEPTH, 0), p.path, p.indices))
  }

  /** The result of proofAt. */
  function InclusionReply(h: (int, int) -> int, t: Tree, leafIndex: int): Result<Inclusion, IndexError> {
    if leafIndex < 0 || leafIndex >= t.leafCount then Err(OutOfRange)
    else
      match Proved(h, t.layers, leafIndex)
      case Err(e) => Err(Broken(e))
      case Ok(p) => Ok(Inclusion(leafIndex, p.path, p.indices, t.root))
  }

  class MerkleIndex {
    const h: (int, int) -> int
    var layers: seq<seq<int>>
    var root: int
    var leafCount: nat

    function State(): Tree
      reads this
    {
      Tree(layers, root, leafCount)
    }

    constructor (h: (int, int) -> int)
      ensures this.h == h && State() == Tree([], 0, 0)
    {
      this.h := h;
      layers := [];
      root := 0;
      leafCount := 0;
    }

    /** Builds the index of the given leaves, or fails beyond the capacity. */
    static method FromLeaves(h: (int, int) -> int, leaves: seq<int>)
      returns (idx: MerkleIndex, r: Result<(), IndexError>)
      ensures fresh(idx) && idx.h == h
      ensures r.Ok? <==> |leaves| <= Capacity()
      ensures r.Ok? ==> idx.State() == TreeOf(h, leaves)
    {
      idx := new MerkleIndex(h);
      r := idx.Rebuild(leaves);
    }

    method Rebuild(leaves: seq<int>) returns (r: Result<(), IndexError>)
      modifies this
      ensures r.Ok? <==> |leaves| <= Capacity()
      ensures r.Ok? ==> State() == TreeOf(h, leaves)
      ensures r.Err? ==> r == Err(Overflow) && State() == old(State())
    {
      var built := BuildTree(h, leaves, TREE_DEPTH);
      if built.Err? {
        return Err(Overflow);
      }
      layers := built.value.layers;
      root := built.value.root;
      leafCount := |leaves|;
      if |leaves| == 0 {
        var zeros := ZeroHashes(h, TREE_DEPTH);
        root := zeros[TREE_DEPTH];
        BeyondLayer(h, leaves, TREE_DEPTH, 0) by { TopLayer(0, TREE_DEPTH); }
      }
      r := Ok(());
    }

    method Append(leaf: int) returns (r: Result<AppendResult, IndexError>)
      modifies this
      ensures State() == Appended(h, old(State()), leaf)
      ensures r == AppendReply(h, old(State()), leaf)
    {
      var oldRoot := root;
      var allLeaves := (if |layers| > 0 then layers[0] else []) + [leaf];
      var built := Rebuild(allLeaves);
      if built.Err? {
        return Err(Overflow);
      }
      var leafIndex := leafCount - 1;
      var proof := ProveInclusion(h, layers, leafIndex);
      match proof
      case Err(e) => r := Err(Broken(e));
      case Ok(p) => r := Ok(AppendResult(leafIndex, oldRoot, root, p.path, p.indices));
    }

    method ProofAt(leafIndex: int) returns (r: Result<Inclusion, IndexError>)
      ensures r == InclusionReply(h, State(), leafIndex)
    {
      if leafIndex < 0 || leafIndex >= leafCount {
        return Err(OutOfRange);
      }
      var proof := ProveInclusion(h, layers, leafIndex);
      r := if proof.Err? then Err(Broken(proof.error))
           else Ok(Inclusion(leafIndex, proof.value.path, proof.value.indices, root));
    }
  }

  // ----- what an append proves ------------------------------------------------------------------

  /** Nodes off the path of leaf n do not see it. */
  lemma {:induction false} OffPathUnchanged(h: (int, int) -> int, leaves: seq<int>, leaf: int, l: nat, j: nat)
    requires j != Halved(|leaves|, l)
    ensures Node(h, leaves + [leaf], l, j) == Node(h, leaves, l, j)
    decreases l
  {
    if l > 0 {
      OffPathUnchanged(h, leaves, leaf, l - 1, 2 * j);
      OffPathUnchanged(h, leaves, leaf, l - 1, 2 * j + 1);
    }
  }

  lemma SamePath(h: (int, int) -> int, leaves: seq<int>, leaf: int, depth: nat)
    ensures TruePath(h, leaves + [leaf], depth, |leaves|) == TruePath(h, leaves, depth, |leaves|)
  {
    forall l | 0 <= l < depth
      ensures TruePath(h, leaves + [leaf], depth, |leaves|)[l] == TruePath(h, leaves, depth, |leaves|)[l]
    {
      OffPathUnchanged(h, leaves, leaf, l, Sibling(Halved(|leaves|, l)));
    }
  }

  lemma CapacityBelowShift()
    ensures Capacity() == 0x10_0000
  {
    assert Pow2(8) == 0x100;
    assert Pow2(16) == 0x1_0000;
    assert Pow2(20) == 0x10_0000;
  }

  /** One path witnesses the append: it folds the new leaf to the new root and
      the empty leaf to the old root. */
  lemma AppendWitness(h: (int, int) -> int, leaves: seq<int>, leaf: int)
    requires |leaves| < Capacity()
    ensures var r := AppendReply(h, TreeOf(h, leaves), leaf);
      && r.Ok?
      && r.value.leafIndex == |leaves|
      && |r.value.path| == |r.value.indices| == TREE_DEPTH
      && Spell(r.value.indices) == |leaves|
      && r.value.oldRoot == TreeOf(h, leaves).root
      && r.value.newRoot == TreeOf(h, leaves + [leaf]).root
      && Walk(h, leaf, r.value.path, r.value.indices) == r.value.newRoot
      && Walk(h, 0, r.value.path, r.value.indices) == r.value.oldRoot
  {
    CapacityBelowShift();
    var n, all := |leaves|, leaves + [leaf];
    ProofIsTruePath(h, all, TREE_DEPTH, n);
    TruePathFolds(h, all, TREE_DEPTH, n);
    SamePath(h, leaves, leaf, TREE_DEPTH);
    TruePathFolds(h, leaves, TREE_DEPTH, n);
    BitsSpellIndex(h, all, TREE_DEPTH, n);
  }

  /** The served proof of an enrolled leaf folds it to the root. */
  lemma InclusionWitness(h: (int, int) -> int, leaves: seq<int>, i: nat)
    requires i < |leaves| <= Capacity()
    ensures var r := InclusionReply(h, TreeOf(h, leaves), i);
      && r.Ok?
      && |r.value.path| == |r.value.indices| == TREE_DEPTH
      && Spell(r.value.indices) == i
      && r.value.root == TreeOf(h, leaves).root
      && Walk(h, leaves[i], r.value.path, r.value.indices) == r.value.root
  {
    CapacityBelowShift();
    InclusionFolds(h, leaves, TREE_DEPTH, i);
    BitsSpellIndex(h, leaves, TREE_DEPTH, i);
  }

  /** Which requests are refused: an append to a full index, and an index that is
      not that of a leaf. */
  lemma RefusedWhen(h: (int, int) -> int, leaves: seq<int>, leaf: int, i: int)
    requires |leaves| <= Capacity()
    ensures Capacity() == 0x10_0000
    ensures AppendReply(h, TreeOf(h, leaves), leaf) == Err(Overflow) <==> |leaves| == Capacity()
    ensures AppendReply(h, TreeOf(h, leaves), leaf).Err? <==> |leaves| == Capacity()
    ensures InclusionReply(h, TreeOf(h, leaves), i) == Err(OutOfRange) <==> i < 0 || |leaves| <= i
    ensures InclusionReply(h, TreeOf(h, leaves), i).Err? <==> i < 0 || |leaves| <= i
  {
    CapacityBelowShift();
    hide Layer, Node, PathTo, BitsTo, Capacity;
  }

  function AppendAll(h: (int, int) -> int, t: Tree, xs: seq<int>): Tree {
    if xs == [] then t else Appended(h, AppendAll(h, t, xs[..|xs| - 1]), xs[|xs| - 1])
  }

  /** What fits in the index. */
  function Fitting(all: seq<int>): (r: seq<int>)
    ensures |r| <= Capacity()
  {
    if |all| <= Capacity() then all else all[..Capacity()]
  }

  lemma AppendedFits(h: (int, int) -> int, front: seq<int>, leaf: int)
    ensures Appended(h, TreeOf(h, Fitting(front)), leaf) == TreeOf(h, Fitting(front + [leaf]))
  {
    hide TreeOf;
    if |front| >= Capacity() {
      assert Fitting(front + [leaf]) == Fitting(front);
    }
  }

  /** After any run of appends the index is the one built from all leaves at
      once, as far as they fit; the rest change nothing. */
  lemma {:induction false} AppendsBuild(h: (int, int) -> int, start: seq<int>, xs: seq<int>)
    requires |start| <= Capacity()
    ensures AppendAll(h, TreeOf(h, start), xs) == TreeOf(h, Fitting(start + xs))
  {
    if xs == [] {
      assert start + xs == start;
    } else {
      hide TreeOf, Fitting, Appended;
      var k := |xs| - 1;
      AppendsBuild(h, start, xs[..k]);
      assert start + xs == (start + xs[..k]) + [xs[k]];
      AppendedFits(h, start + xs[..k], xs[k]);
    }
  }
}
