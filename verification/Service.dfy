/** The enrollment service: the table of commitments, the Merkle index in
    memory, the chain of signed roots, and the handlers that change them. A
    handler is cut at its awaits, so that two of them can also be interleaved. */
module Service {
  import opened Bytes
  import opened HexText
  import opened MerkleIndex
  import opened MerkleTree
  import opened Packing
  import opened Store
  import opened Wrappers

  const CURRENT_ROOT := "current_root"

  /** What the attester signs. */
  datatype RootUpdate = RootUpdate(oldRoot: int, newRoot: int, leaf: int)

  /** The table and the key-value rows on disk, the index in memory, and all
      updates signed so far. */
  datatype World = World(enrolled: Enrolled, kv: map<string, string>, tree: Tree, signed: seq<RootUpdate>)

  datatype Request = Request(commitment: string, blindedInput: string, unblindedOutput: string, now: int)

  datatype Reply =
    | Registered(leafIndex: int, path: seq<string>, indices: seq<int>, oldRoot: string, newRoot: string)
    | Served(leafIndex: int, path: seq<string>, indices: seq<int>, root: string)
    | BadRequest
    | CommitmentMismatch
    | AlreadyEnrolled
    | NotEnrolled
    | Failed

  // ----- texts and numbers -----------------------------------------------------------------------

  predicate AllTexts(texts: seq<string>) {
    forall i :: 0 <= i < |texts| ==> IsHex32(texts[i])
  }

  function Values(texts: seq<string>): (v: seq<int>)
    requires AllTexts(texts)
    ensures |v| == |texts|
  {
    seq(|texts|, i requires 0 <= i < |texts| => ValueOf(texts[i]))
  }

  predicate AllFit(v: seq<int>) {
    forall i :: 0 <= i < |v| ==> FitsHex32(v[i])
  }

  function HexAll(v: seq<int>): (texts: seq<string>)
    requires AllFit(v)
    ensures AllTexts(texts) && |texts| == |v|
  {
    seq(|v|, i requires 0 <= i < |v| => Hex32(v[i]))
  }

  /** The hash of two field elements is a field element: it fits in 32 bytes. */
  ghost predicate FieldHash(h: (int, int) -> int) {
    forall a, b :: FitsHex32(h(a, b))
  }

  lemma ValuesFit(texts: seq<string>)
    requires AllTexts(texts)
    ensures AllFit(Values(texts))
  {
    hide FitsHex32;
    forall i | 0 <= i < |texts| ensures FitsHex32(Values(texts)[i]) {
      ValueFits(texts[i]);
    }
  }

  lemma ValuesAppend(texts: seq<string>, c: string)
    requires AllTexts(texts) && IsHex32(c)
    ensures AllTexts(texts + [c]) && Values(texts + [c]) == Values(texts) + [ValueOf(c)]
  {}

  /** The served texts read back as the numbers they format. */
  lemma HexAllReads(v: seq<int>)
    requires AllFit(v)
    ensures Values(HexAll(v)) == v
  {
    hide FitsHex32;
    forall i | 0 <= i < |v| ensures Values(HexAll(v))[i] == v[i] {
      HexRoundTrip(v[i]);
    }
  }

  lemma ZeroFits()
    ensures FitsHex32(0)
  {}

  lemma NodeFits(h: (int, int) -> int, leaves: seq<int>, l: nat, i: nat)
    requires FieldHash(h) && AllFit(leaves)
    ensures FitsHex32(Node(h, leaves, l, i))
  {
    ZeroFits();
    hide FitsHex32;
  }

  // ----- the registration handler, cut at its awaits ---------------------------------------------------

  datatype Progress =
    | Waiting
    | Building(leaf: int, oldRoot: int, leaves: seq<int>)
    | Rebuilt(leaf: int, oldRoot: int)
    | Proving(leaf: int, oldRoot: int, leafIndex: int, proof: Proof)
    | Returned(leaf: int, oldRoot: int, leafIndex: int, proof: Proof, newRoot: int)
    | Answered(reply: Reply)

  datatype Moved = Moved(world: World, progress: Progress)

  /** The leaf that the unblinded output derives. */
  function Derived(h: (int, int) -> int, unblindedOutput: string): int
    requires IsHex32(unblindedOutput)
  {
    var n := Split(HexBytes(unblindedOutput));
    h(n.hi, n.lo)
  }

  /** The body validates and the commitment is the one the output derives. */
  predicate Admissible(h: (int, int) -> int, q: Request) {
    && IsHex32(q.commitment) && IsHex32(q.blindedInput) && IsHex32(q.unblindedOutput)
    && Derived(h, q.unblindedOutput) == ValueOf(q.commitment)
  }

  const TWO_TO_128: nat := 0x1_0000_0000_0000_0000_0000_0000_0000_0000

  /** The leaf is the hash of the upper and of the lower 128 bits of the output, in
      this order. */
  lemma DerivedIs(h: (int, int) -> int, unblindedOutput: string)
    requires IsHex32(unblindedOutput)
    ensures var v := ValueOf(unblindedOutput);
      Derived(h, unblindedOutput) == h(v / TWO_TO_128, v % TWO_TO_128)
  {
    var octets := HexBytes(unblindedOutput);
    BytesSpellValue(unblindedOutput);
    LimbsMeaning(octets);
    SixteenOctets();
    var n := Split(octets);
    hide HexBytes, Split, BE, ValueOf, IsHex32, Pow256;
    HighAndLow(n.hi, n.lo, TWO_TO_128);
  }

  lemma SixteenOctets()
    ensures Pow256(16) == TWO_TO_128
  {
    assert Pow256(4) == 0x1_0000_0000;
    assert Pow256(8) == 0x1_0000_0000_0000_0000;
    assert Pow256(12) == 0x1_0000_0000_0000_0000_0000_0000;
  }

  lemma HighAndLow(hi: nat, lo: nat, m: nat)
    requires lo < m
    ensures (hi * m + lo) / m == hi && (hi * m + lo) % m == lo
  {
    var v := hi * m + lo;
    assert v == m * hi + lo;
    Quotient(v, m, hi, lo);
  }

  /** The three texts of the body validate. */
  predicate ValidBody(q: Request) {
    IsHex32(q.commitment) && IsHex32(q.blindedInput) && IsHex32(q.unblindedOutput)
  }

  /** The commitment is the hash of the two halves of the output. */
  ghost predicate CommitsToOutput(h: (int, int) -> int, q: Request)
    requires ValidBody(q)
  {
    ValueOf(q.commitment) == h(ValueOf(q.unblindedOutput) / TWO_TO_128, ValueOf(q.unblindedOutput) % TWO_TO_128)
  }

  lemma AdmissibleWhen(h: (int, int) -> int, q: Request)
    ensures Admissible(h, q) <==> ValidBody(q) && CommitsToOutput(h, q)
  {
    if ValidBody(q) {
      DerivedIs(h, q.unblindedOutput);
    }
    hide IsHex32, ValueOf, Derived;
  }

  /** Up to the await inside append: the checks, and the copy of the leaves. */
  function Begin(h: (int, int) -> int, w: World, q: Request): Progress {
    if !(IsHex32(q.commitment) && IsHex32(q.blindedInput) && IsHex32(q.unblindedOutput)) then
      Answered(BadRequest)
    else
      var observed := ValueOf(q.commitment);
      if Derived(h, q.unblindedOutput) != observed then Answered(CommitmentMismatch)
      else if q.commitment in w.enrolled then Answered(AlreadyEnrolled)
      else Building(observed, w.tree.root, w.tree.Leaves() + [observed])
  }

  /** After append has returned: insert, sign, stamp the root. A number that does
      not fit in 32 bytes makes the formatter throw. */
  function Conclude(w: World, q: Request, leaf: int, oldRoot: int, leafIndex: int, proof: Proof, newRoot: int)
    : (m: Moved)
    ensures m.progress.Answered?
  {
    if !Insertable(w.enrolled, q.commitment, leafIndex) then Moved(w, Answered(AlreadyEnrolled))
    else
      var stored := w.(enrolled := w.enrolled[q.commitment := Row(leafIndex, q.now, q.blindedInput)]);
      if !(FitsHex32(oldRoot) && FitsHex32(newRoot) && FitsHex32(leaf)) then Moved(stored, Answered(Failed))
      else
        var stamped := stored.(signed := w.signed + [RootUpdate(oldRoot, newRoot, leaf)],
                               kv := w.kv[CURRENT_ROOT := Hex32(newRoot)]);
        if !AllFit(proof.path) then Moved(stamped, Answered(Failed))
        else Moved(stamped, Answered(Registered(leafIndex, HexAll(proof.path), proof.indices,
                                                Hex32(oldRoot), Hex32(newRoot))))
  }

  /** One stretch between two awaits. */
  function Step(h: (int, int) -> int, w: World, q: Request, p: Progress): Moved
    requires !p.Answered?
  {
    match p
    case Waiting => Moved(w, Begin(h, w, q))
    case Building(leaf, oldRoot, leaves) =>
      if |leaves| > Capacity() then Moved(w, Answered(Failed))
      else Moved(w.(tree := TreeOf(h, leaves)), Rebuilt(leaf, oldRoot))
    case Rebuilt(leaf, oldRoot) =>
      var leafIndex := w.tree.leafCount - 1;
      var proved := Proved(h, w.tree.layers, leafIndex);
      Moved(w, if proved.Err? then Answered(Failed) else Proving(leaf, oldRoot, leafIndex, proved.value))
    case Proving(leaf, oldRoot, leafIndex, proof) =>
      Moved(w, Returned(leaf, oldRoot, leafIndex, proof, w.tree.root))
    case Returned(leaf, oldRoot, leafIndex, proof, newRoot) =>
      Conclude(w, q, leaf, oldRoot, leafIndex, proof, newRoot)
  }

  function Rank(p: Progress): nat {
    match p
    case Waiting => 5
    case Building(_, _, _) => 4
    case Rebuilt(_, _) => 3
    case Proving(_, _, _, _) => 2
    case Returned(_, _, _, _, _) => 1
    case Answered(_) => 0
  }

  /** The handler run to its end without interruption. */
  function Drive(h: (int, int) -> int, w: World, q: Request, p: Progress): (m: Moved)
    ensures m.progress.Answered?
    decreases Rank(p)
  {
    if p.Answered? then Moved(w, p)
    else
      var m := Step(h, w, q, p);
      Drive(h, m.world, q, m.progress)
  }

  /** The four stretches after the checks. */
  lemma DriveBuilds(h: (int, int) -> int, w: World, q: Request, leaf: int)
    ensures var reply := AppendReply(h, w.tree, leaf);
      var built := w.(tree := Appended(h, w.tree, leaf));
      Drive(h, w, q, Building(leaf, w.tree.root, w.tree.Leaves() + [leaf]))
        == if reply.Err? then Moved(built, Answered(Failed))
           else Conclude(built, q, leaf, reply.value.oldRoot, reply.value.leafIndex,
                         Proof(reply.value.path, reply.value.indices), reply.value.newRoot)
  {
    hide FitsHex32, Conclude, Layers, Node, Proved, Insertable, AllFit;
    var all := w.tree.Leaves() + [leaf];
    var built := Step(h, w, q, Building(leaf, w.tree.root, all));
    if |all| <= Capacity() {
      var proved := Step(h, built.world, q, built.progress);
      assert Drive(h, built.world, q, built.progress) == Drive(h, proved.world, q, proved.progress);
      if proved.progress.Proving? {
        var returned := Step(h, proved.world, q, proved.progress);
        var last := Step(h, returned.world, q, returned.progress);
        assert Drive(h, proved.world, q, proved.progress) == Drive(h, returned.world, q, returned.progress);
        assert Drive(h, returned.world, q, returned.progress) == Drive(h, last.world, q, last.progress) == last;
      }
    }
  }

  /** Run to its end, the handler appends in one go: the stretches between the
      awaits add up to MerkleIndex.append. */
  lemma DriveAppends(h: (int, int) -> int, w: World, q: Request)
    ensures var begun := Begin(h, w, q);
      Drive(h, w, q, Waiting) == if begun.Answered? then Moved(w, begun) else
        var reply := AppendReply(h, w.tree, begun.leaf);
        var built := w.(tree := Appended(h, w.tree, begun.leaf));
        if reply.Err? then Moved(built, Answered(Failed))
        else Conclude(built, q, begun.leaf, reply.value.oldRoot, reply.value.leafIndex,
                      Proof(reply.value.path, reply.value.indices), reply.value.newRoot)
  {
    hide FitsHex32, Conclude, AppendReply, Appended, IsHex32, Derived, ValueOf;
    var begun := Begin(h, w, q);
    assert Step(h, w, q, Waiting) == Moved(w, begun);
    if begun.Building? {
      DriveBuilds(h, w, q, begun.leaf);
    }
  }

  // ----- the other handlers ---------------------------------------------------------------------------------

  /** The path handler, which changes nothing, is cut at its await as well. */
  datatype PathProgress = PathProving(leafIndex: int, proof: Proof) | PathAnswered(reply: Reply)

  /** Up to the await inside proofAt: the lookup, the range check, and the layers
      from which the path is read. */
  function PathBegin(h: (int, int) -> int, w: World, commitment: string): PathProgress {
    if !IsHex32(commitment) then PathAnswered(BadRequest)
    else if commitment !in w.enrolled then PathAnswered(NotEnrolled)
    else
      var leafIndex := w.enrolled[commitment].leafIndex;
      if leafIndex < 0 || leafIndex >= w.tree.leafCount then PathAnswered(Failed)
      else
        var proved := Proved(h, w.tree.layers, leafIndex);
        if proved.Err? then PathAnswered(Failed) else PathProving(leafIndex, proved.value)
  }

  /** The rest of proofAt reads the root; then the reply is formatted. */
  function PathEnd(w: World, p: PathProgress): Reply {
    match p
    case PathAnswered(reply) => reply
    case PathProving(leafIndex, proof) =>
      if !FitsHex32(w.tree.root) || !AllFit(proof.path) then Failed
      else Served(leafIndex, HexAll(proof.path), proof.indices, Hex32(w.tree.root))
  }

  function PathReply(h: (int, int) -> int, w: World, commitment: string): Reply {
    PathEnd(w, PathBegin(h, w, commitment))
  }

  /** A start of the service on what the disk holds; order lists the stored
      commitments by leaf index. */
  function Boot(h: (int, int) -> int, enrolled: Enrolled, kv: map<string, string>, signed: seq<RootUpdate>,
                order: seq<string>): Option<World>
    requires AllTexts(order)
  {
    if |order| > Capacity() then None
    else
      var tree := TreeOf(h, Values(order));
      if !FitsHex32(tree.root) then None
      else Some(World(enrolled, kv[CURRENT_ROOT := Hex32(tree.root)], tree, signed))
  }

  // ----- the invariant ----------------------------------------------------------------------------------------

  function RootOf(h: (int, int) -> int, leaves: seq<int>): int { TreeOf(h, leaves).root }

  /** Row i of the table, by leaf index, is texts[i], and there are no others. */
  ghost predicate Holds(t: Enrolled, texts: seq<string>) {
    && (forall i :: 0 <= i < |texts| ==> texts[i] in t && t[texts[i]].leafIndex == i)
    && (forall c :: c in t ==> 0 <= t[c].leafIndex < |texts| && texts[t[c].leafIndex] == c)
  }

  /** The update that leaf i calls for. */
  function UpdateFor(h: (int, int) -> int, leaves: seq<int>, i: nat): RootUpdate
    requires i < |leaves|
  {
    RootUpdate(RootOf(h, leaves[..i]), RootOf(h, leaves[..i + 1]), leaves[i])
  }

  /** Update i leads from the root of the first i leaves to that of the first
      i + 1. */
  ghost predicate Chained(h: (int, int) -> int, signed: seq<RootUpdate>, leaves: seq<int>) {
    && |signed| == |leaves|
    && forall i :: 0 <= i < |signed| ==> signed[i] == UpdateFor(h, leaves, i)
  }

  ghost predicate Stamped(kv: map<string, string>, root: int) {
    CURRENT_ROOT in kv && FitsHex32(root) && kv[CURRENT_ROOT] == Hex32(root)
  }

  /** The service after the given enrollments. */
  ghost predicate Consistent(h: (int, int) -> int, w: World, texts: seq<string>) {
    && |texts| <= Capacity() && AllTexts(texts)
    && Holds(w.enrolled, texts)
    && w.tree == TreeOf(h, Values(texts))
    && Stamped(w.kv, w.tree.root)
    && Chained(h, w.signed, Values(texts))
  }

  ghost predicate Inv(h: (int, int) -> int, w: World) {
    exists texts :: Consistent(h, w, texts)
  }

  /** Each signed update starts where the one before it ended. */
  lemma UpdatesChain(h: (int, int) -> int, w: World, texts: seq<string>, i: nat)
    requires Consistent(h, w, texts) && i + 1 < |w.signed|
    ensures w.signed[i + 1].oldRoot == w.signed[i].newRoot
    ensures w.signed[0].oldRoot == RootOf(h, [])
    ensures w.signed[|w.signed| - 1].newRoot == w.tree.root
  {
    var leaves := Values(texts);
    assert leaves[..0] == [] && leaves[..|leaves|] == leaves;
    assert w.signed[0].oldRoot == RootOf(h, leaves[..0]);
    assert w.signed[i + 1].oldRoot == RootOf(h, leaves[..i + 1]);
    assert w.signed[|w.signed| - 1].newRoot == RootOf(h, leaves[..|leaves|]);
  }

  // ----- one registration -----------------------------------------------------------------------------------------

  /** The proof of the last of the leaves: it fits in 32-byte texts, spells the
      index, and folds the leaf to the new root and the empty leaf to the old
      one. */
  lemma LastProof(h: (int, int) -> int, leaves: seq<int>, leaf: int)
    requires FieldHash(h) && AllFit(leaves) && FitsHex32(leaf) && |leaves| < Capacity()
    ensures var proved := Proved(h, TreeOf(h, leaves + [leaf]).layers, |leaves|);
      && proved.Ok?
      && |proved.value.path| == |proved.value.indices| == TREE_DEPTH
      && AllFit(proved.value.path)
      && Spell(proved.value.indices) == |leaves|
      && Walk(h, leaf, proved.value.path, proved.value.indices) == RootOf(h, leaves + [leaf])
      && Walk(h, 0, proved.value.path, proved.value.indices) == RootOf(h, leaves)
  {
    hide FitsHex32;
    var all := leaves + [leaf];
    AppendWitness(h, leaves, leaf);
    CapacityBelowShift();
    ProofIsTruePath(h, all, TREE_DEPTH, |leaves|);
    var path := TruePath(h, all, TREE_DEPTH, |leaves|);
    forall l | 0 <= l < |path| ensures FitsHex32(path[l]) {
      NodeFits(h, all, l, Sibling(Halved(|leaves|, l)));
    }
  }

  /** The world after an accepted request. */
  function Accepted(h: (int, int) -> int, w: World, q: Request): World
    requires IsHex32(q.commitment) && FitsHex32(RootOf(h, w.tree.Leaves() + [ValueOf(q.commitment)]))
  {
    var leaves := w.tree.Leaves() + [ValueOf(q.commitment)];
    World(w.enrolled[q.commitment := Row(|w.tree.Leaves()|, q.now, q.blindedInput)],
          w.kv[CURRENT_ROOT := Hex32(RootOf(h, leaves))],
          TreeOf(h, leaves),
          w.signed + [RootUpdate(w.tree.root, RootOf(h, leaves), ValueOf(q.commitment))])
  }

  /** The reply proves the append: one path folds the new leaf to the new root
      and the empty leaf to the old root, and its bits spell the index. */
  ghost predicate Witnesses(h: (int, int) -> int, reply: Reply, leaf: int, leafIndex: int, oldRoot: int, newRoot: int)
    requires FitsHex32(oldRoot) && FitsHex32(newRoot)
  {
    && reply.Registered?
    && reply.leafIndex == leafIndex
    && reply.oldRoot == Hex32(oldRoot) && reply.newRoot == Hex32(newRoot)
    && |reply.path| == |reply.indices| == TREE_DEPTH && AllTexts(reply.path)
    && Spell(reply.indices) == leafIndex
    && Walk(h, leaf, Values(reply.path), reply.indices) == newRoot
    && Walk(h, 0, Values(reply.path), reply.indices) == oldRoot
  }

  lemma RootFits(h: (int, int) -> int, leaves: seq<int>)
    requires FieldHash(h) && AllFit(leaves)
    ensures FitsHex32(RootOf(h, leaves))
  {
    NodeFits(h, leaves, TREE_DEPTH, 0);
  }

  /** What Conclude does with the index and the proof of a fresh append. */
  lemma ConcludesFresh(h: (int, int) -> int, w: World, q: Request, leaves: seq<int>, leaf: int)
    requires FieldHash(h) && AllFit(leaves) && FitsHex32(leaf) && |leaves| < Capacity()
    requires IsHex32(q.commitment) && leaf == ValueOf(q.commitment)
    requires w.tree == TreeOf(h, leaves + [leaf]) && Insertable(w.enrolled, q.commitment, |leaves|)
    ensures Proved(h, TreeOf(h, leaves + [leaf]).layers, |leaves|).Ok?
    ensures FitsHex32(RootOf(h, leaves)) && FitsHex32(RootOf(h, leaves + [leaf]))
    ensures var proof := Proved(h, TreeOf(h, leaves + [leaf]).layers, |leaves|).value;
      var m := Conclude(w, q, leaf, RootOf(h, leaves), |leaves|, proof, RootOf(h, leaves + [leaf]));
      && m.progress.Answered?
      && Witnesses(h, m.progress.reply, leaf, |leaves|, RootOf(h, leaves), RootOf(h, leaves + [leaf]))
      && m.world == Accepted(h, w.(tree := TreeOf(h, leaves)), q)
  {
    hide FitsHex32, TreeOf;
    LastProof(h, leaves, leaf);
    RootFits(h, leaves);
    RootFits(h, leaves + [leaf]);
    HexAllReads(Proved(h, TreeOf(h, leaves + [leaf]).layers, |leaves|).value.path);
  }

  /** The append of a fresh leaf, as its parts. */
  lemma FreshReply(h: (int, int) -> int, leaves: seq<int>, leaf: int)
    requires |leaves| < Capacity() && Proved(h, TreeOf(h, leaves + [leaf]).layers, |leaves|).Ok?
    ensures var p := Proved(h, TreeOf(h, leaves + [leaf]).layers, |leaves|).value;
      AppendReply(h, TreeOf(h, leaves), leaf)
        == Ok(AppendResult(|leaves|, RootOf(h, leaves), RootOf(h, leaves + [leaf]), p.path, p.indices))
    ensures Appended(h, TreeOf(h, leaves), leaf) == TreeOf(h, leaves + [leaf])
  {
    hide Node, Layers, Proved;
    assert TreeOf(h, leaves).Leaves() == leaves;
  }

  lemma BeginsAdmissible(h: (int, int) -> int, w: World, q: Request)
    requires Admissible(h, q) && q.commitment !in w.enrolled
    ensures Begin(h, w, q) == Building(ValueOf(q.commitment), w.tree.root, w.tree.Leaves() + [ValueOf(q.commitment)])
  {
    hide IsHex32, Derived, ValueOf;
  }

  lemma DriveAccepts(h: (int, int) -> int, w: World, texts: seq<string>, q: Request)
    requires FieldHash(h) && Consistent(h, w, texts) && |texts| < Capacity()
    requires Admissible(h, q) && q.commitment !in w.enrolled
    ensures FitsHex32(RootOf(h, Values(texts) + [ValueOf(q.commitment)]))
    ensures var m := Drive(h, w, q, Waiting);
      && m.world == Accepted(h, w, q)
      && Witnesses(h, m.progress.reply, ValueOf(q.commitment), |texts|, w.tree.root, m.world.tree.root)
  {
    var leaves, leaf := Values(texts), ValueOf(q.commitment);
    ValuesFit(texts);
    ValueFits(q.commitment);
    var built := w.(tree := TreeOf(h, leaves + [leaf]));
    assert Insertable(w.enrolled, q.commitment, |leaves|) && w.tree == TreeOf(h, leaves) && IsHex32(q.commitment);
    assert w == built.(tree := TreeOf(h, leaves)) && TreeOf(h, leaves).Leaves() == leaves;
    BeginsAdmissible(h, w, q);
    hide FitsHex32, Witnesses, Consistent, AllFit, Conclude, Drive, AppendReply, Appended, Admissible, Begin, FieldHash;
    hide IsHex32, Insertable;
    ConcludesFresh(h, built, q, leaves, leaf);
    hide Proved;
    FreshReply(h, leaves, leaf);
    DriveAppends(h, w, q);
    hide TreeOf;
  }

  lemma DriveOverflows(h: (int, int) -> int, w: World, texts: seq<string>, q: Request)
    requires Consistent(h, w, texts) && |texts| == Capacity()
    requires Admissible(h, q) && q.commitment !in w.enrolled
    ensures Drive(h, w, q, Waiting) == Moved(w, Answered(Failed))
  {
    assert |w.tree.Leaves()| == Capacity();
    BeginsAdmissible(h, w, q);
    hide FitsHex32, Consistent, Drive, Admissible, Begin, Conclude, Node, Layers, TreeOf;
    DriveAppends(h, w, q);
  }

  lemma ChainGrows(h: (int, int) -> int, signed: seq<RootUpdate>, leaves: seq<int>, leaf: int)
    requires Chained(h, signed, leaves)
    ensures Chained(h, signed + [RootUpdate(RootOf(h, leaves), RootOf(h, leaves + [leaf]), leaf)], leaves + [leaf])
  {
    hide RootOf;
    var all := leaves + [leaf];
    assert all[..|leaves|] == leaves && all[..|leaves| + 1] == all;
    forall i | 0 <= i < |leaves| ensures UpdateFor(h, all, i) == UpdateFor(h, leaves, i) {
      assert all[..i] == leaves[..i] && all[..i + 1] == leaves[..i + 1];
    }
  }

  lemma HoldsMore(t: Enrolled, texts: seq<string>, c: string, row: Row)
    requires Holds(t, texts) && c !in t && row.leafIndex == |texts|
    ensures Holds(t[c := row], texts + [c])
  {}

  lemma AcceptedIsConsistent(h: (int, int) -> int, w: World, texts: seq<string>, q: Request)
    requires FieldHash(h) && Consistent(h, w, texts) && |texts| < Capacity()
    requires IsHex32(q.commitment) && q.commitment !in w.enrolled
    ensures FitsHex32(RootOf(h, Values(texts) + [ValueOf(q.commitment)]))
    ensures Consistent(h, Accepted(h, w, q), texts + [q.commitment])
  {
    hide FitsHex32, TreeOf, Holds, Chained;
    var leaves, leaf := Values(texts), ValueOf(q.commitment);
    ValuesFit(texts);
    ValueFits(q.commitment);
    ValuesAppend(texts, q.commitment);
    RootFits(h, leaves + [leaf]);
    ChainGrows(h, w.signed, leaves, leaf);
    HoldsMore(w.enrolled, texts, q.commitment, Row(|leaves|, q.now, q.blindedInput));
  }

  /** An uninterrupted registration enrolls the commitment exactly when the body
      validates, the commitment is the one that the output derives, its text is new
      and there is room; then one row, one signature and the stamp are added and the
      reply proves the append. Otherwise it changes nothing. In particular it is
      never the failed insert that answers: the text is refused only if it was
      enrolled before. */
  lemma RegisterKeeps(h: (int, int) -> int, w: World, texts: seq<string>, q: Request)
    requires FieldHash(h) && Consistent(h, w, texts)
    ensures var m := Drive(h, w, q, Waiting);
      if ValidBody(q) && CommitsToOutput(h, q) && q.commitment !in w.enrolled && |texts| < Capacity() then
        && Consistent(h, m.world, texts + [q.commitment])
        && Witnesses(h, m.progress.reply, ValueOf(q.commitment), |texts|, w.tree.root, m.world.tree.root)
        && m.world.enrolled == w.enrolled[q.commitment := Row(|texts|, q.now, q.blindedInput)]
        && m.world.signed == w.signed + [RootUpdate(w.tree.root, m.world.tree.root, ValueOf(q.commitment))]
        && m.world.kv == w.kv[CURRENT_ROOT := Hex32(m.world.tree.root)]
      else
        && m.world == w
        && m.progress.reply == (if !ValidBody(q) then BadRequest
                                else if !CommitsToOutput(h, q) then CommitmentMismatch
                                else if q.commitment in w.enrolled then AlreadyEnrolled
                                else Failed)
  {
    AdmissibleWhen(h, q);
    hide CommitsToOutput, Derived;
    if Admissible(h, q) && q.commitment !in w.enrolled {
      ValuesAppend(texts, q.commitment);
      if |texts| < Capacity() {
        DriveAccepts(h, w, texts, q);
        AcceptedIsConsistent(h, w, texts, q);
        hide TreeOf, FitsHex32, Drive, Witnesses;
      } else {
        DriveOverflows(h, w, texts, q);
      }
    } else {
      hide TreeOf, FitsHex32;
    }
  }

  // ----- paths and restarts ---------------------------------------------------------------------------------

  /** Every enrolled commitment is served a path that folds its number to the
      stamped root; every other text is refused. */
  lemma PathFoldsToRoot(h: (int, int) -> int, w: World, texts: seq<string>, c: string)
    requires FieldHash(h) && Consistent(h, w, texts)
    ensures var r := PathReply(h, w, c);
      if IsHex32(c) && c in w.enrolled then
        && r.Served?
        && r.leafIndex == w.enrolled[c].leafIndex && Spell(r.indices) == r.leafIndex
        && r.root == w.kv[CURRENT_ROOT]
        && |r.path| == |r.indices| == TREE_DEPTH && AllTexts(r.path)
        && Walk(h, ValueOf(c), Values(r.path), r.indices) == w.tree.root
      else
        r == if IsHex32(c) then NotEnrolled else BadRequest
  {
    hide FitsHex32, Chained;
    if IsHex32(c) && c in w.enrolled {
      var i := w.enrolled[c].leafIndex;
      ServedProofFits(h, texts, i);
      HexAllReads(InclusionReply(h, w.tree, i).value.path);
    }
  }

  lemma ServedProofFits(h: (int, int) -> int, texts: seq<string>, i: nat)
    requires FieldHash(h) && AllTexts(texts) && i < |texts| <= Capacity()
    ensures var r := InclusionReply(h, TreeOf(h, Values(texts)), i);
      && r.Ok? && r.value.leafIndex == i && AllFit(r.value.path)
      && |r.value.path| == |r.value.indices| == TREE_DEPTH
      && Spell(r.value.indices) == i
      && r.value.root == RootOf(h, Values(texts)) && FitsHex32(r.value.root)
      && Walk(h, ValueOf(texts[i]), r.value.path, r.value.indices) == r.value.root
  {
    hide FitsHex32;
    var leaves := Values(texts);
    ValuesFit(texts);
    RootFits(h, leaves);
    InclusionWitness(h, leaves, i);
    CapacityBelowShift();
    ProofIsTruePath(h, leaves, TREE_DEPTH, i);
    var path := TruePath(h, leaves, TREE_DEPTH, i);
    forall l | 0 <= l < |path| ensures FitsHex32(path[l]) {
      NodeFits(h, leaves, l, Sibling(Halved(i, l)));
    }
  }

  /** The table's own order is the order of enrollment. */
  lemma HeldInOrder(t: Enrolled, texts: seq<string>)
    requires Holds(t, texts)
    ensures ListsInOrder(t, texts)
  {
    forall c | c in t ensures c in texts {
      assert texts[t[c].leafIndex] == c;
    }
  }

  /** A restart finds the world as it was: the tree rebuilt from the table is the
      one in memory, and the stamped root does not change. */
  lemma RebootIsIdentity(h: (int, int) -> int, w: World, texts: seq<string>, order: seq<string>)
    requires Consistent(h, w, texts) && ListsInOrder(w.enrolled, order)
    ensures order == texts && Boot(h, w.enrolled, w.kv, w.signed, order) == Some(w)
  {
    hide FitsHex32, TreeOf, Chained;
    HeldInOrder(w.enrolled, texts);
    OrderIsUnique(w.enrolled, order, texts);
    assert w.kv[CURRENT_ROOT := w.kv[CURRENT_ROOT]] == w.kv;
  }

  /** A stop between the insert and the signature leaves a row that the next start
      puts into the tree and that nobody has signed. */
  lemma StopAfterInsert(h: (int, int) -> int, w: World, texts: seq<string>, c: string, row: Row, order: seq<string>)
    requires FieldHash(h) && Consistent(h, w, texts) && |texts| < Capacity()
    requires IsHex32(c) && c !in w.enrolled && row.leafIndex == |texts|
    requires ListsInOrder(w.enrolled[c := row], order)
    ensures order == texts + [c] && AllTexts(order)
    ensures var b := Boot(h, w.enrolled[c := row], w.kv, w.signed, order);
      && b.Some? && b.value.tree == TreeOf(h, Values(texts) + [ValueOf(c)])
      && Stamped(b.value.kv, b.value.tree.root)
      && |b.value.signed| + 1 == |b.value.enrolled| == |order|
      && !Inv(h, b.value)
  {
    hide FitsHex32, TreeOf, Chained;
    assert |w.signed| == |texts| by {
      SignedCount(h, w, texts);
    }
    HoldsMore(w.enrolled, texts, c, row);
    HeldInOrder(w.enrolled[c := row], texts + [c]);
    OrderIsUnique(w.enrolled[c := row], order, texts + [c]);
    ValuesAppend(texts, c);
    ValuesFit(order);
    RootFits(h, Values(order));
    RowCount(w.enrolled[c := row], order);
    var b := Boot(h, w.enrolled[c := row], w.kv, w.signed, order).value;
    hide Holds, Boot;
    if Inv(h, b) {
      var found :| Consistent(h, b, found);
      SignedCount(h, b, found);
      HeldInOrder(b.enrolled, found);
      OrderIsUnique(b.enrolled, order, found);
    }
  }

  lemma SignedCount(h: (int, int) -> int, w: World, texts: seq<string>)
    requires Consistent(h, w, texts)
    ensures |w.signed| == |texts| && Holds(w.enrolled, texts)
  {}

  lemma RowCount(t: Enrolled, texts: seq<string>)
    requires ListsInOrder(t, texts)
    ensures |t| == |texts|
  {
    DifferentTexts(t, texts);
    assert t.Keys == set c | c in texts;
    CountOfDifferent(texts);
  }

  lemma DifferentTexts(t: Enrolled, texts: seq<string>)
    requires ListsInOrder(t, texts)
    ensures forall i, j :: 0 <= i < j < |texts| ==> texts[i] != texts[j]
  {}

  lemma {:induction false} CountOfDifferent(texts: seq<string>)
    requires forall i, j :: 0 <= i < j < |texts| ==> texts[i] != texts[j]
    ensures |set c | c in texts| == |texts|
  {
    if texts != [] {
      var z := |texts| - 1;
      CountOfDifferent(texts[..z]);
      assert texts == texts[..z] + [texts[z]];
      assert (set c | c in texts) == (set c | c in texts[..z]) + {texts[z]};
    }
  }

  /** The first start, on an empty table. */
  lemma FirstBoot(h: (int, int) -> int, kv: map<string, string>, order: seq<string>)
    requires FieldHash(h) && |order| == 0
    ensures var b := Boot(h, map[], kv, [], order); b.Some? && Consistent(h, b.value, order)
  {
    hide FitsHex32, TreeOf;
    RootFits(h, Values(order));
  }

  // ----- runs of serialised handlers ----------------------------------------------------------------------------

  datatype Action = Register(request: Request) | AskPath(commitment: string) | Restart

  /** One handler, or a restart, after which nothing else is pending. A restart
      reads the table in the given order. */
  function Act(h: (int, int) -> int, w: World, action: Action, order: seq<string>): Option<World>
    requires AllTexts(order)
  {
    match action
    case Register(q) => Some(Drive(h, w, q, Waiting).world)
    case AskPath(_) => Some(w)
    case Restart => Boot(h, w.enrolled, w.kv, w.signed, order)
  }

  /** The worlds of a run: each follows from the one before by its action. */
  ghost predicate IsRun(h: (int, int) -> int, worlds: seq<World>, actions: seq<Action>) {
    && |worlds| == |actions| + 1
    && forall i :: 0 <= i < |actions| ==> Follows(h, worlds[i], actions[i], worlds[i + 1])
  }

  ghost predicate Follows(h: (int, int) -> int, w: World, action: Action, next: World) {
    exists order :: AllTexts(order) && ListsInOrder(w.enrolled, order) && Act(h, w, action, order) == Some(next)
  }

  /** The world of a first start. */
  ghost predicate Initial(h: (int, int) -> int, w: World) {
    exists kv, order :: |order| == 0 && Boot(h, map[], kv, [], order) == Some(w)
  }

  /** The enrollments after one more action. */
  function Enrolling(h: (int, int) -> int, w: World, texts: seq<string>, action: Action): seq<string> {
    if action.Register? && Drive(h, w, action.request, Waiting).progress.reply.Registered?
    then texts + [action.request.commitment] else texts
  }

  lemma ActKeeps(h: (int, int) -> int, w: World, texts: seq<string>, action: Action, next: World)
    requires FieldHash(h) && Consistent(h, w, texts) && Follows(h, w, action, next)
    ensures Consistent(h, next, Enrolling(h, w, texts, action))
  {
    hide Consistent, Drive, Boot, Witnesses;
    var order :| AllTexts(order) && ListsInOrder(w.enrolled, order) && Act(h, w, action, order) == Some(next);
    match action
    case Register(q) =>
      RegisterGrows(h, w, texts, q);
    case AskPath(_) =>
    case Restart => RebootIsIdentity(h, w, texts, order);
  }

  lemma RegisterGrows(h: (int, int) -> int, w: World, texts: seq<string>, q: Request)
    requires FieldHash(h) && Consistent(h, w, texts)
    ensures Consistent(h, Drive(h, w, q, Waiting).world, Enrolling(h, w, texts, Register(q)))
  {
    hide Consistent, Drive, CommitsToOutput, ValidBody, FitsHex32, Hex32;
    RegisterKeeps(h, w, texts, q);
  }

  /** The enrollments of a run, in order. */
  function RunTexts(h: (int, int) -> int, worlds: seq<World>, actions: seq<Action>): seq<string>
    requires |worlds| == |actions| + 1
  {
    if actions == [] then []
    else
      var n := |actions| - 1;
      Enrolling(h, worlds[n], RunTexts(h, worlds[..n + 1], actions[..n]), actions[n])
  }

  lemma PrefixIsRun(h: (int, int) -> int, worlds: seq<World>, actions: seq<Action>, n: nat)
    requires IsRun(h, worlds, actions) && n <= |actions|
    ensures IsRun(h, worlds[..n + 1], actions[..n])
  {
    hide Follows;
  }

  /** The invariant holds after every run that starts with an empty table. */
  lemma {:induction false} EveryRunKeeps(h: (int, int) -> int, worlds: seq<World>, actions: seq<Action>)
    requires FieldHash(h) && IsRun(h, worlds, actions) && Initial(h, worlds[0])
    ensures Consistent(h, worlds[|actions|], RunTexts(h, worlds, actions))
  {
    if actions == [] {
      var kv, order :| |order| == 0 && Boot(h, map[], kv, [], order) == Some(worlds[0]);
      FirstBoot(h, kv, order);
    } else {
      hide Consistent, Boot, Follows, FieldHash, Enrolling, Initial;
      var n := |actions| - 1;
      PrefixIsRun(h, worlds, actions, n);
      EveryRunKeeps(h, worlds[..n + 1], actions[..n]);
      var texts := RunTexts(h, worlds[..n + 1], actions[..n]);
      ActKeeps(h, worlds[n], texts, actions[n], worlds[n + 1]);
    }
  }

  // ----- commitments as numbers ---------------------------------------------------------------------------------

  /** Two enrolled commitments are one leaf value exactly when their texts differ
      only in case. */
  lemma EqualLeaves(h: (int, int) -> int, w: World, texts: seq<string>, i: nat, j: nat)
    requires Consistent(h, w, texts) && i < |texts| && j < |texts|
    ensures w.tree.Leaves()[i] == w.tree.Leaves()[j] <==> LowerText(texts[i]) == LowerText(texts[j])
  {
    hide FitsHex32;
    SameValue(texts[i], texts[j]);
  }

  /** If all enrolled texts are in lower case, no number is enrolled twice. */
  lemma CanonicalLeavesDiffer(h: (int, int) -> int, w: World, texts: seq<string>, i: nat, j: nat)
    requires Consistent(h, w, texts) && i < j < |texts|
    requires LowerText(texts[i]) == texts[i] && LowerText(texts[j]) == texts[j]
    ensures w.tree.Leaves()[i] != w.tree.Leaves()[j]
  {
    hide FitsHex32;
    SameValue(texts[i], texts[j]);
    assert w.enrolled[texts[i]].leafIndex == i && w.enrolled[texts[j]].leafIndex == j;
  }

  lemma RegisterSucceeds(h: (int, int) -> int, w: World, texts: seq<string>, q: Request)
    requires FieldHash(h) && Consistent(h, w, texts) && |texts| < Capacity()
    requires Admissible(h, q) && q.commitment !in w.enrolled
    ensures var m := Drive(h, w, q, Waiting);
      && m.progress.reply.Registered?
      && Consistent(h, m.world, texts + [q.commitment])
      && m.world.enrolled.Keys == w.enrolled.Keys + {q.commitment}
  {
    AdmissibleWhen(h, q);
    hide Consistent, FitsHex32, Drive, TreeOf, CommitsToOutput;
    DriveAccepts(h, w, texts, q);
    RegisterKeeps(h, w, texts, q);
  }

  /** Without that, it can be: any other casing of a commitment is enrolled a
      second time, as a second leaf with the same number. */
  lemma OtherCasingEnrollsAgain(h: (int, int) -> int, w: World, texts: seq<string>, q: Request, c: string)
    requires FieldHash(h) && Consistent(h, w, texts) && |texts| + 2 <= Capacity()
    requires Admissible(h, q) && q.commitment !in w.enrolled
    requires IsHex32(c) && c != q.commitment && c !in w.enrolled && LowerText(c) == LowerText(q.commitment)
    ensures var first := Drive(h, w, q, Waiting); var second := Drive(h, first.world, q.(commitment := c), Waiting);
      && first.progress.reply.Registered? && second.progress.reply.Registered?
      && Consistent(h, second.world, texts + [q.commitment, c])
      && ValueOf(c) == ValueOf(q.commitment)
  {
    hide Drive, Consistent, FieldHash, Derived;
    SameValue(c, q.commitment);
    hide LowerText, ValueOf, IsHex32;
    var first := Drive(h, w, q, Waiting);
    RegisterSucceeds(h, w, texts, q);
    RegisterSucceeds(h, first.world, texts + [q.commitment], q.(commitment := c));
    assert texts + [q.commitment] + [c] == texts + [q.commitment, c];
  }

  // ----- the service as an object ---------------------------------------------------------------------------------

  class EnrollmentService {
    const store: EnrollmentStore
    const merkle: MerkleIndex
    ghost var signed: seq<RootUpdate>

    ghost function State(): World
      reads this, store, merkle
    {
      World(store.enrolled, store.kv, merkle.State(), signed)
    }

    constructor (store: EnrollmentStore, merkle: MerkleIndex, ghost signed: seq<RootUpdate>)
      ensures this.store == store && this.merkle == merkle && this.signed == signed
    {
      this.store := store;
      this.merkle := merkle;
      this.signed := signed;
    }

    /** Rebuilds the index from the table and stamps its root. */
    static method Start(h: (int, int) -> int, store: EnrollmentStore, ghost signed: seq<RootUpdate>)
      returns (service: EnrollmentService, ok: bool, ghost order: seq<string>)
      requires DistinctIndices(store.enrolled) && forall c :: c in store.enrolled ==> IsHex32(c)
      modifies store`kv
      ensures fresh(service) && fresh(service.merkle) && service.store == store && service.merkle.h == h
      ensures ListsInOrder(store.enrolled, order) && AllTexts(order)
      ensures ok <==> Boot(h, store.enrolled, old(store.kv), signed, order).Some?
      ensures ok ==> Boot(h, store.enrolled, old(store.kv), signed, order) == Some(service.State())
    {
      hide FitsHex32;
      var texts := store.AllInOrder();
      order := texts;
      var merkle, built := MerkleIndex.FromLeaves(h, Values(texts));
      service := new EnrollmentService(store, merkle, signed);
      ok := built.Ok? && FitsHex32(merkle.root);
      if ok {
        store.KvSet(CURRENT_ROOT, Hex32(merkle.root));
      }
    }

    /** The registration handler, run without interruption. */
    method Register(q: Request) returns (reply: Reply)
      modifies this`signed, store, merkle
      ensures Moved(State(), Answered(reply)) == Drive(merkle.h, old(State()), q, Waiting)
    {
      hide FitsHex32, AllFit, Drive, IsHex32, ValueOf, HexAll, HexBytes, Split, Hex32;
      DriveAppends(merkle.h, State(), q);
      hide Appended, AppendReply, AllHex, Derived;
      if !(IsHex32(q.commitment) && IsHex32(q.blindedInput) && IsHex32(q.unblindedOutput)) {
        return BadRequest;
      }
      var limbs := SplitOprfOutput(HexBytes(q.unblindedOutput));
      var expected := merkle.h(limbs.value.hi, limbs.value.lo);
      var observed := ValueOf(q.commitment);
      if expected != observed {
        return CommitmentMismatch;
      }
      if q.commitment in store.enrolled {
        return AlreadyEnrolled;
      }
      var append := merkle.Append(observed);
      if append.Err? {
        return Failed;
      }
      var a := append.value;
      var inserted := store.Insert(q.commitment, Row(a.leafIndex, q.now, q.blindedInput));
      if inserted.Err? {
        return AlreadyEnrolled;
      }
      if !(FitsHex32(a.oldRoot) && FitsHex32(a.newRoot) && FitsHex32(observed)) {
        return Failed;
      }
      signed := signed + [RootUpdate(a.oldRoot, a.newRoot, observed)];
      store.KvSet(CURRENT_ROOT, Hex32(a.newRoot));
      if !AllFit(a.path) {
        return Failed;
      }
      reply := Registered(a.leafIndex, HexAll(a.path), a.indices, Hex32(a.oldRoot), Hex32(a.newRoot));
    }

    /** The path handler. */
    method Path(commitment: string) returns (reply: Reply)
      ensures reply == PathReply(merkle.h, State(), commitment)
    {
      if !IsHex32(commitment) {
        return BadRequest;
      }
      if commitment !in store.enrolled {
        return NotEnrolled;
      }
      var proof := merkle.ProofAt(store.enrolled[commitment].leafIndex);
      if proof.Err? || !FitsHex32(proof.value.root) || !AllFit(proof.value.path) {
        return Failed;
      }
      reply := Served(proof.value.leafIndex, HexAll(proof.value.path), proof.value.indices, Hex32(proof.value.root));
    }
  }
}
