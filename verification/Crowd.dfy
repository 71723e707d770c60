/** Any number of registration handlers, interleaved at their awaits in every
    possible way: what every schedule keeps, and a condition under which the
    invariant survives. */
module Crowd {
  import opened HexText
  import opened MerkleIndex
  import opened MerkleTree
  import opened Service
  import opened Store
  import opened Wrappers
  import Overlap

  /** The world, the handlers of the requests, and who has been enrolled, in order. */
  datatype Many = Many(world: World, handlers: seq<Progress>, order: seq<nat>)

  /** One stretch of handler i; none once it has answered. */
  function Turn(h: (int, int) -> int, s: Many, qs: seq<Request>, i: nat): Many {
    if i >= |s.handlers| || i >= |qs| || s.handlers[i].Answered? then s
    else
      var m := Step(h, s.world, qs[i], s.handlers[i]);
      Many(m.world, s.handlers[i := m.progress], if IsEnrolled(m.progress) then s.order + [i] else s.order)
  }

  predicate IsEnrolled(p: Progress) { p.Answered? && p.reply.Registered? }

  /** A schedule: whose turn it is. */
  function Turns(h: (int, int) -> int, s: Many, qs: seq<Request>, schedule: seq<nat>): Many
    decreases |schedule|
  {
    if schedule == [] then s else Turns(h, Turn(h, s, qs, schedule[0]), qs, schedule[1..])
  }

  function Start(w: World, qs: seq<Request>): Many { Many(w, seq(|qs|, i => Waiting), []) }

  // ----- what every schedule keeps ----------------------------------------------------------------

  /** The disk and the signatures after one more answer: everything can be read
      off the request and its reply. */
  function Record(w: World, q: Request, r: Reply): World
    requires r.Registered?
  {
    w.(enrolled := w.enrolled[q.commitment := Row(r.leafIndex, q.now, q.blindedInput)],
       kv := w.kv[CURRENT_ROOT := r.newRoot],
       signed := w.signed + [RootUpdate(NumberOf(r.oldRoot), NumberOf(r.newRoot), NumberOf(q.commitment))])
  }

  function NumberOf(text: string): int { if IsHex32(text) then ValueOf(text) else 0 }

  /** The order lists enrolled handlers. */
  ghost predicate Listed(handlers: seq<Progress>, qs: seq<Request>, order: seq<nat>) {
    |handlers| == |qs| && forall t :: 0 <= t < |order| ==> order[t] < |qs| && IsEnrolled(handlers[order[t]])
  }

  /** The disk and the signatures after the answers in the given order. */
  ghost function Recorded(w: World, handlers: seq<Progress>, qs: seq<Request>, order: seq<nat>): World
    requires Listed(handlers, qs, order)
  {
    if order == [] then w
    else
      var z := |order| - 1;
      Record(Recorded(w, handlers, qs, order[..z]), qs[order[z]], handlers[order[z]].reply)
  }

  /** Each answer in the order was given to a text and an index that were new. */
  ghost predicate AllNew(w: World, handlers: seq<Progress>, qs: seq<Request>, order: seq<nat>)
    requires Listed(handlers, qs, order)
  {
    order == [] ||
    var z := |order| - 1;
    && AllNew(w, handlers, qs, order[..z])
    && Insertable(Recorded(w, handlers, qs, order[..z]).enrolled, qs[order[z]].commitment,
                  handlers[order[z]].reply.leafIndex)
  }

  /** What a handler has captured fits in 32-byte texts. */
  ghost predicate Fits(tree: Tree, q: Request, p: Progress) {
    match p
    case Waiting => true
    case Answered(_) => true
    case Building(leaf, oldRoot, leaves) =>
      Names(q, leaf) && FitsHex32(oldRoot) && AllFit(leaves) && |leaves| > 0
    case Rebuilt(leaf, oldRoot) =>
      Names(q, leaf) && FitsHex32(oldRoot) && tree.leafCount > 0
    case Proving(leaf, oldRoot, _, proof) =>
      Names(q, leaf) && FitsHex32(oldRoot) && AllFit(proof.path)
    case Returned(leaf, oldRoot, _, proof, newRoot) =>
      Names(q, leaf) && FitsHex32(oldRoot) && AllFit(proof.path) && FitsHex32(newRoot)
  }

  predicate Names(q: Request, leaf: int) { IsHex32(q.commitment) && leaf == ValueOf(q.commitment) }

  /** The index is that of some leaves that fit. */
  ghost predicate TreeFits(h: (int, int) -> int, tree: Tree) {
    |tree.Leaves()| <= Capacity() && AllFit(tree.Leaves()) && tree == TreeOf(h, tree.Leaves())
  }

  ghost predicate AllFitIn(tree: Tree, handlers: seq<Progress>, qs: seq<Request>) {
    |handlers| == |qs| && forall i :: 0 <= i < |qs| ==> Fits(tree, qs[i], handlers[i])
  }

  /** The order lists exactly the enrolled, the world is what their answers say,
      and each of them was new. */
  ghost predicate Faithful(w: World, s: Many, qs: seq<Request>) {
    && Listed(s.handlers, qs, s.order)
    && (forall i :: 0 <= i < |qs| && IsEnrolled(s.handlers[i]) ==> i in s.order)
    && s.world == Recorded(w, s.handlers, qs, s.order).(tree := s.world.tree)
    && AllNew(w, s.handlers, qs, s.order)
  }

  ghost predicate Kept(h: (int, int) -> int, w: World, s: Many, qs: seq<Request>) {
    FieldHash(h) && TreeFits(h, s.world.tree) && AllFitIn(s.world.tree, s.handlers, qs) && Faithful(w, s, qs)
  }

  lemma StartIsKept(h: (int, int) -> int, w: World, qs: seq<Request>)
    requires FieldHash(h) && TreeFits(h, w.tree)
    ensures Kept(h, w, Start(w, qs), qs)
  {
    hide TreeFits, FieldHash;
  }

  /** A handler outside the order may move. */
  lemma {:induction false} NewStays(w: World, handlers: seq<Progress>, next: seq<Progress>, qs: seq<Request>,
                                    order: seq<nat>)
    requires Listed(handlers, qs, order) && Listed(next, qs, order) && AllNew(w, handlers, qs, order)
    requires forall t :: 0 <= t < |order| ==> next[order[t]] == handlers[order[t]]
    ensures AllNew(w, next, qs, order) && Recorded(w, next, qs, order) == Recorded(w, handlers, qs, order)
  {
    hide Record, Insertable;
    if order != [] {
      NewStays(w, handlers, next, qs, order[..|order| - 1]);
    }
  }

  /** What one stretch does to the disk: nothing, or what its answer says, for a
      text and an index that are new; it does not crash after the insert. */
  ghost predicate StretchKeeps(h: (int, int) -> int, w: World, q: Request, m: Moved) {
    && TreeFits(h, m.world.tree) && Fits(m.world.tree, q, m.progress)
    && (w.tree.leafCount > 0 ==> m.world.tree.leafCount > 0)
    && if IsEnrolled(m.progress)
       then && Insertable(w.enrolled, q.commitment, m.progress.reply.leafIndex)
            && m.world == Record(w, q, m.progress.reply)
       else m.world == w.(tree := m.world.tree)
  }

  lemma BeginKeeps(h: (int, int) -> int, w: World, q: Request)
    requires FieldHash(h) && TreeFits(h, w.tree)
    ensures StretchKeeps(h, w, q, Step(h, w, q, Waiting))
  {
    hide TreeOf, IsHex32, ValueOf, FitsHex32;
    var m := Step(h, w, q, Waiting);
    if m.progress.Building? {
      RootFits(h, w.tree.Leaves());
      ValueFits(q.commitment);
    }
  }

  lemma AssignKeeps(h: (int, int) -> int, w: World, q: Request, p: Progress)
    requires FieldHash(h) && TreeFits(h, w.tree) && p.Building? && Fits(w.tree, q, p)
    ensures StretchKeeps(h, w, q, Step(h, w, q, p))
  {
    hide Layers, Node, IsHex32, ValueOf, FitsHex32, Capacity;
  }

  lemma IndexKeeps(h: (int, int) -> int, w: World, q: Request, p: Progress)
    requires FieldHash(h) && TreeFits(h, w.tree) && p.Rebuilt? && Fits(w.tree, q, p)
    ensures StretchKeeps(h, w, q, Step(h, w, q, p)) && Step(h, w, q, p).progress.Proving?
  {
    var leaves := w.tree.Leaves();
    assert w.tree.leafCount == |leaves|;
    var z := |leaves| - 1;
    assert leaves == leaves[..z] + [leaves[z]];
    hide FitsHex32, Proved, IsHex32, ValueOf;
    LastProof(h, leaves[..z], leaves[z]);
    hide TreeOf;
  }

  lemma RootKeeps(h: (int, int) -> int, w: World, q: Request, p: Progress)
    requires FieldHash(h) && TreeFits(h, w.tree) && p.Proving? && Fits(w.tree, q, p)
    ensures StretchKeeps(h, w, q, Step(h, w, q, p))
  {
    hide FitsHex32, IsHex32, ValueOf, FieldHash;
    RootFits(h, w.tree.Leaves());
    hide TreeOf;
  }

  lemma InsertKeeps(h: (int, int) -> int, w: World, q: Request, p: Progress)
    requires FieldHash(h) && TreeFits(h, w.tree) && p.Returned? && Fits(w.tree, q, p)
    ensures StretchKeeps(h, w, q, Step(h, w, q, p))
  {
    ValueFits(q.commitment);
    assert FitsHex32(p.oldRoot) && FitsHex32(p.newRoot) && FitsHex32(p.leaf) && AllFit(p.proof.path);
    assert Names(q, p.leaf);
    hide FieldHash, TreeFits, Fits, FitsHex32, Insertable, AllFit, Names, Record, Conclude;
    ConcludeRecords(w, q, p.leaf, p.oldRoot, p.leafIndex, p.proof, p.newRoot);
    AnsweredFits(w.tree, q, Step(h, w, q, p).progress.reply);
  }

  lemma AnsweredFits(tree: Tree, q: Request, r: Reply)
    ensures Fits(tree, q, Answered(r))
  {}

  /** The last stretch answers, and does what its answer says. */
  lemma ConcludeRecords(w: World, q: Request, leaf: int, oldRoot: int, leafIndex: int, proof: Proof, newRoot: int)
    requires FitsHex32(oldRoot) && FitsHex32(newRoot) && FitsHex32(leaf) && AllFit(proof.path) && Names(q, leaf)
    ensures var m := Conclude(w, q, leaf, oldRoot, leafIndex, proof, newRoot);
      if IsEnrolled(m.progress)
      then Insertable(w.enrolled, q.commitment, m.progress.reply.leafIndex) && m.world == Record(w, q, m.progress.reply)
      else m.world == w
  {
    HexRoundTrip(oldRoot);
    HexRoundTrip(newRoot);
    hide FitsHex32, IsHex32, ValueOf, Hex32, Insertable, AllFit;
  }

  lemma StepKeeps(h: (int, int) -> int, w: World, q: Request, p: Progress)
    requires FieldHash(h) && TreeFits(h, w.tree) && !p.Answered? && Fits(w.tree, q, p)
    ensures StretchKeeps(h, w, q, Step(h, w, q, p))
  {
    hide StretchKeeps, TreeFits, FieldHash, Fits, Step;
    match p
    case Waiting => BeginKeeps(h, w, q);
    case Building(_, _, _) => AssignKeeps(h, w, q, p);
    case Rebuilt(_, _) => IndexKeeps(h, w, q, p);
    case Proving(_, _, _, _) => RootKeeps(h, w, q, p);
    case Returned(_, _, _, _, _) => InsertKeeps(h, w, q, p);
  }

  /** A stretch without an answer. */
  lemma MoveIsFaithful(w: World, s: Many, qs: seq<Request>, i: nat, m: Moved)
    requires Faithful(w, s, qs) && i < |qs| && !s.handlers[i].Answered?
    requires !IsEnrolled(m.progress) && m.world == s.world.(tree := m.world.tree)
    ensures Faithful(w, Many(m.world, s.handlers[i := m.progress], s.order), qs)
  {
    hide Recorded, Insertable, AllNew;
    NewStays(w, s.handlers, s.handlers[i := m.progress], qs, s.order);
  }

  lemma OneMoreNew(w: World, handlers: seq<Progress>, qs: seq<Request>, order: seq<nat>, i: nat)
    requires Listed(handlers, qs, order) && AllNew(w, handlers, qs, order) && i < |qs| && IsEnrolled(handlers[i])
    requires Insertable(Recorded(w, handlers, qs, order).enrolled, qs[i].commitment, handlers[i].reply.leafIndex)
    ensures Listed(handlers, qs, order + [i]) && AllNew(w, handlers, qs, order + [i])
    ensures Recorded(w, handlers, qs, order + [i])
         == Record(Recorded(w, handlers, qs, order), qs[i], handlers[i].reply)
  {
    hide Insertable, Record;
    assert (order + [i])[..|order|] == order;
  }

  /** A stretch that enrolls. */
  lemma AnswerIsFaithful(w: World, s: Many, qs: seq<Request>, i: nat, m: Moved)
    requires Faithful(w, s, qs) && i < |qs| && !s.handlers[i].Answered?
    requires IsEnrolled(m.progress) && m.world == Record(s.world, qs[i], m.progress.reply)
    requires Insertable(s.world.enrolled, qs[i].commitment, m.progress.reply.leafIndex)
    ensures Faithful(w, Many(m.world, s.handlers[i := m.progress], s.order + [i]), qs)
  {
    var next := s.handlers[i := m.progress];
    hide Insertable, AllNew, Recorded;
    NewStays(w, s.handlers, next, qs, s.order);
    OneMoreNew(w, next, qs, s.order, i);
    assert i in s.order + [i];
  }

  lemma FitsStays(tree: Tree, next: Tree, q: Request, p: Progress)
    requires Fits(tree, q, p) && (tree.leafCount > 0 ==> next.leafCount > 0)
    ensures Fits(next, q, p)
  {
    hide Names, FitsHex32, AllFit;
  }

  lemma FitsAfter(s: Many, qs: seq<Request>, i: nat, m: Moved)
    requires AllFitIn(s.world.tree, s.handlers, qs) && i < |qs| && Fits(m.world.tree, qs[i], m.progress)
    requires s.world.tree.leafCount > 0 ==> m.world.tree.leafCount > 0
    ensures AllFitIn(m.world.tree, s.handlers[i := m.progress], qs)
  {
    hide Fits;
    forall j | 0 <= j < |qs| ensures Fits(m.world.tree, qs[j], s.handlers[i := m.progress][j]) {
      if j != i {
        FitsStays(s.world.tree, m.world.tree, qs[j], s.handlers[j]);
      }
    }
  }

  lemma TurnKeeps(h: (int, int) -> int, w: World, s: Many, qs: seq<Request>, i: nat)
    requires Kept(h, w, s, qs)
    ensures Kept(h, w, Turn(h, s, qs, i), qs)
  {
    if i < |qs| && !s.handlers[i].Answered? {
      var m := Step(h, s.world, qs[i], s.handlers[i]);
      StepKeeps(h, s.world, qs[i], s.handlers[i]);
      FitsAfter(s, qs, i, m);
      hide Step, Faithful, TreeFits, FieldHash, Fits, Insertable, Record, AllFitIn;
      if IsEnrolled(m.progress) {
        AnswerIsFaithful(w, s, qs, i, m);
      } else {
        MoveIsFaithful(w, s, qs, i, m);
      }
    }
  }

  lemma {:induction false} TurnsKeep(h: (int, int) -> int, w: World, s: Many, qs: seq<Request>, schedule: seq<nat>)
    requires Kept(h, w, s, qs)
    ensures Kept(h, w, Turns(h, s, qs, schedule), qs)
    decreases |schedule|
  {
    hide Kept, Turn;
    if schedule != [] {
      TurnKeeps(h, w, s, qs, schedule[0]);
      TurnsKeep(h, w, Turn(h, s, qs, schedule[0]), qs, schedule[1..]);
    }
  }

  function Commitments(qs: seq<Request>, order: seq<nat>): (cs: seq<string>)
    requires forall t :: 0 <= t < |order| ==> order[t] < |qs|
    ensures |cs| == |order|
  {
    seq(|order|, t requires 0 <= t < |order| => qs[order[t]].commitment)
  }

  /** The table t keeps the rows of w and has one more for each of the texts. */
  ghost predicate EachOnce(w: World, t: Enrolled, cs: seq<string>) {
    && (forall i, j :: 0 <= i < j < |cs| ==> cs[i] != cs[j])
    && (forall c :: c in cs ==> c !in w.enrolled)
    && (forall c :: c in w.enrolled ==> c in t && t[c] == w.enrolled[c])
    && (forall c :: c in t <==> c in w.enrolled || c in cs)
    && |t| == |w.enrolled| + |cs|
  }

  lemma OnceMore(w: World, t: Enrolled, cs: seq<string>, c: string, row: Row)
    requires EachOnce(w, t, cs) && DistinctIndices(t) && Insertable(t, c, row.leafIndex)
    ensures DistinctIndices(t[c := row]) && EachOnce(w, t[c := row], cs + [c])
  {
    OneMoreRow(t, c, row);
    StillDistinct(t, c, row);
    hide DistinctIndices;
  }

  lemma OneMoreRow(t: Enrolled, c: string, row: Row)
    requires c !in t
    ensures |t[c := row]| == |t| + 1
  {
    assert t[c := row].Keys == t.Keys + {c};
  }

  lemma StillDistinct(t: Enrolled, c: string, row: Row)
    requires DistinctIndices(t) && Insertable(t, c, row.leafIndex)
    ensures DistinctIndices(t[c := row])
  {}

  lemma NothingRecorded(w: World, qs: seq<Request>)
    ensures EachOnce(w, w.enrolled, Commitments(qs, []))
  {}

  lemma {:induction false} RecordsOnce(w: World, handlers: seq<Progress>, qs: seq<Request>, order: seq<nat>)
    requires Listed(handlers, qs, order) && AllNew(w, handlers, qs, order) && DistinctIndices(w.enrolled)
    ensures var d := Recorded(w, handlers, qs, order);
      && DistinctIndices(d.enrolled) && EachOnce(w, d.enrolled, Commitments(qs, order))
      && |d.signed| == |w.signed| + |order|
  {
    hide NumberOf, EachOnce, DistinctIndices, Insertable;
    if order != [] {
      var z := |order| - 1;
      var front := order[..z];
      RecordsOnce(w, handlers, qs, front);
      var d, q, r := Recorded(w, handlers, qs, front), qs[order[z]], handlers[order[z]].reply;
      hide AllNew, Recorded;
      assert Commitments(qs, order) == Commitments(qs, front) + [q.commitment];
      OnceMore(w, d.enrolled, Commitments(qs, front), q.commitment, Row(r.leafIndex, q.now, q.blindedInput));
    } else {
      NothingRecorded(w, qs);
    }
  }

  /** For any number of requests and every schedule: the disk and the signatures
      are what the accepted answers say, in their order; each accepted answer has
      one row, with a text and an index of its own, and one signature; and nothing
      else has either. */
  lemma EveryScheduleRecords(h: (int, int) -> int, w: World, qs: seq<Request>, schedule: seq<nat>)
    requires FieldHash(h) && TreeFits(h, w.tree) && DistinctIndices(w.enrolled)
    ensures var s := Turns(h, Start(w, qs), qs, schedule);
      && Listed(s.handlers, qs, s.order)
      && (forall i :: 0 <= i < |qs| ==> (IsEnrolled(s.handlers[i]) <==> i in s.order))
      && s.world == Recorded(w, s.handlers, qs, s.order).(tree := s.world.tree)
      && DistinctIndices(s.world.enrolled) && EachOnce(w, s.world.enrolled, Commitments(qs, s.order))
      && |s.world.signed| == |w.signed| + |s.order|
  {
    hide Turns, TreeFits, FieldHash, Fits, Recorded, EachOnce, DistinctIndices, AllNew;
    StartIsKept(h, w, qs);
    TurnsKeep(h, w, Start(w, qs), qs, schedule);
    var s := Turns(h, Start(w, qs), qs, schedule);
    RecordsOnce(w, s.handlers, qs, s.order);
  }

  /** A consistent world is such a start. */
  lemma ConsistentFits(h: (int, int) -> int, w: World, texts: seq<string>)
    requires Consistent(h, w, texts)
    ensures TreeFits(h, w.tree) && DistinctIndices(w.enrolled)
  {
    hide FitsHex32, TreeOf, Chained;
    ValuesFit(texts);
  }

  // ----- when the invariant survives ------------------------------------------------------------------------

  /** Between the copy of the leaves and the insert, and between the assignment of
      the tree and the insert. */
  predicate UnderWay(p: Progress) { p.Building? || HasAssigned(p) }

  predicate HasAssigned(p: Progress) { p.Rebuilt? || p.Proving? || p.Returned? }

  /** A handler assigns the tree only while no other is between its copy and its
      insert, and only if its text is still new. */
  predicate Calm(s: Many, qs: seq<Request>, i: nat) {
    i < |s.handlers| && i < |qs| && s.handlers[i].Building? ==>
      && (forall j :: 0 <= j < |s.handlers| && j != i ==> !UnderWay(s.handlers[j]))
      && qs[i].commitment !in s.world.enrolled
  }

  ghost predicate CalmRun(h: (int, int) -> int, s: Many, qs: seq<Request>, schedule: seq<nat>)
    decreases |schedule|
  {
    schedule == [] || (Calm(s, qs, schedule[0]) && CalmRun(h, Turn(h, s, qs, schedule[0]), qs, schedule[1..]))
  }

  /** A handler that has copied the leaves holds those that are now in the tree. */
  ghost predicate Copied(tree: Tree, q: Request, p: Progress) {
    p.Building? ==>
      && IsHex32(q.commitment)
      && p == Building(ValueOf(q.commitment), tree.root, tree.Leaves() + [ValueOf(q.commitment)])
  }

  /** The tree is one leaf ahead of the disk, and the leaf is that of the handler. */
  ghost predicate Ahead(h: (int, int) -> int, w: World, texts: seq<string>, q: Request) {
    && |texts| < Capacity() && AllTexts(texts) && IsHex32(q.commitment) && q.commitment !in w.enrolled
    && Consistent(h, w.(tree := TreeOf(h, Values(texts))), texts)
    && w.tree == TreeOf(h, Values(texts) + [ValueOf(q.commitment)])
  }

  /** What a handler that has assigned the tree has captured since. */
  ghost predicate Carries(h: (int, int) -> int, tree: Tree, leaves: seq<int>, leaf: int, p: Progress) {
    match p
    case Rebuilt(l, r) => l == leaf && r == RootOf(h, leaves)
    case Proving(l, r, i, proof) =>
      l == leaf && r == RootOf(h, leaves) && i == |leaves| && Proved(h, tree.layers, |leaves|) == Ok(proof)
    case Returned(l, r, i, proof, n) =>
      && l == leaf && r == RootOf(h, leaves) && i == |leaves| && Proved(h, tree.layers, |leaves|) == Ok(proof)
      && n == tree.root
    case _ => false
  }

  /** At most one handler has assigned the tree without having inserted its row;
      without one, the world is consistent. */
  ghost predicate Quiet(h: (int, int) -> int, s: Many, qs: seq<Request>, texts: seq<string>) {
    && |s.handlers| == |qs|
    && (forall j :: 0 <= j < |qs| ==> Copied(s.world.tree, qs[j], s.handlers[j]))
    && (forall i, j :: 0 <= i < j < |qs| ==> !(HasAssigned(s.handlers[i]) && HasAssigned(s.handlers[j])))
    && (forall i :: 0 <= i < |qs| && HasAssigned(s.handlers[i]) ==>
          && Ahead(h, s.world, texts, qs[i])
          && Carries(h, s.world.tree, Values(texts), ValueOf(qs[i].commitment), s.handlers[i]))
    && ((forall i :: 0 <= i < |qs| ==> !HasAssigned(s.handlers[i])) ==> Consistent(h, s.world, texts))
  }

  /** The texts after a turn. */
  function Grown(texts: seq<string>, q: Request, p: Progress): seq<string> {
    if IsEnrolled(p) then texts + [q.commitment] else texts
  }

  lemma CalmBegins(h: (int, int) -> int, w: World, q: Request)
    ensures var m := Step(h, w, q, Waiting);
      m.world == w && !HasAssigned(m.progress) && !IsEnrolled(m.progress) && Copied(w.tree, q, m.progress)
  {
    hide IsHex32, ValueOf;
  }

  lemma CalmAssigns(h: (int, int) -> int, w: World, texts: seq<string>, q: Request, p: Progress)
    requires Consistent(h, w, texts) && q.commitment !in w.enrolled && p.Building? && Copied(w.tree, q, p)
    ensures var m := Step(h, w, q, p);
      if |texts| < Capacity() then
        && HasAssigned(m.progress) && Ahead(h, m.world, texts, q)
        && Carries(h, m.world.tree, Values(texts), ValueOf(q.commitment), m.progress)
      else m == Moved(w, Answered(Failed))
  {
    assert w.tree == TreeOf(h, Values(texts));
    hide TreeOf, Capacity, IsHex32, ValueOf, Holds, Stamped, Chained;
    assert w.(tree := TreeOf(h, Values(texts))) == w;
  }

  lemma CalmReads(h: (int, int) -> int, w: World, texts: seq<string>, q: Request, p: Progress)
    requires FieldHash(h) && Ahead(h, w, texts, q) && (p.Rebuilt? || p.Proving?)
    requires Carries(h, w.tree, Values(texts), ValueOf(q.commitment), p)
    ensures var m := Step(h, w, q, p);
      && m.world == w && HasAssigned(m.progress)
      && Carries(h, w.tree, Values(texts), ValueOf(q.commitment), m.progress)
  {
    var leaves, leaf := Values(texts), ValueOf(q.commitment);
    ValuesFit(texts);
    ValueFits(q.commitment);
    hide Consistent, Capacity, FitsHex32, IsHex32, Proved, FieldHash;
    LastProof(h, leaves, leaf);
    assert w.tree.leafCount == |leaves| + 1;
    hide TreeOf;
  }

  lemma CalmInserts(h: (int, int) -> int, w: World, texts: seq<string>, q: Request, p: Progress)
    requires FieldHash(h) && Ahead(h, w, texts, q) && p.Returned?
    requires Carries(h, w.tree, Values(texts), ValueOf(q.commitment), p)
    ensures var m := Step(h, w, q, p);
      IsEnrolled(m.progress) && m.world.tree == w.tree && Consistent(h, m.world, texts + [q.commitment])
  {
    var leaves, leaf := Values(texts), ValueOf(q.commitment);
    ValuesFit(texts);
    ValueFits(q.commitment);
    assert Insertable(w.enrolled, q.commitment, |leaves|);
    var before := w.(tree := TreeOf(h, leaves));
    assert w.tree.root == RootOf(h, leaves + [leaf]);
    hide Consistent, Capacity, FitsHex32, IsHex32, Proved, FieldHash, Insertable, TreeOf, Conclude;
    ConcludesFresh(h, w, q, leaves, leaf);
    AcceptedIsConsistent(h, before, texts, q);
  }

  /** A turn that does not change the tree and leaves its handler without one. */
  lemma QuietMoves(h: (int, int) -> int, s: Many, qs: seq<Request>, texts: seq<string>, i: nat, p: Progress)
    requires Quiet(h, s, qs, texts) && i < |qs| && !HasAssigned(s.handlers[i]) && !HasAssigned(p)
    requires Copied(s.world.tree, qs[i], p)
    ensures Quiet(h, s.(handlers := s.handlers[i := p]), qs, texts)
  {
    hide Copied, Ahead, Carries, Consistent;
    var next := s.handlers[i := p];
    assert forall j :: 0 <= j < |qs| && j != i ==> next[j] == s.handlers[j];
    assert (forall j :: 0 <= j < |qs| ==> !HasAssigned(next[j]))
      ==> forall j :: 0 <= j < |qs| ==> !HasAssigned(s.handlers[j]);
  }

  /** A calm assignment. */
  lemma QuietAssigns(h: (int, int) -> int, s: Many, qs: seq<Request>, texts: seq<string>, i: nat, m: Moved)
    requires Quiet(h, s, qs, texts) && i < |qs| && Calm(s, qs, i) && s.handlers[i].Building?
    requires HasAssigned(m.progress) && Ahead(h, m.world, texts, qs[i])
    requires Carries(h, m.world.tree, Values(texts), ValueOf(qs[i].commitment), m.progress)
    ensures Quiet(h, s.(world := m.world, handlers := s.handlers[i := m.progress]), qs, texts)
  {
    hide Ahead, Carries, Consistent;
    var next := s.handlers[i := m.progress];
    assert forall j :: 0 <= j < |qs| && j != i ==> next[j] == s.handlers[j] && !UnderWay(next[j]);
    assert HasAssigned(next[i]);
  }

  /** A turn between assignment and insert. */
  lemma QuietReads(h: (int, int) -> int, s: Many, qs: seq<Request>, texts: seq<string>, i: nat, p: Progress)
    requires Quiet(h, s, qs, texts) && i < |qs| && HasAssigned(s.handlers[i]) && HasAssigned(p)
    requires Carries(h, s.world.tree, Values(texts), ValueOf(qs[i].commitment), p)
    ensures Quiet(h, s.(handlers := s.handlers[i := p]), qs, texts)
  {
    hide Ahead, Carries, Consistent;
    var next := s.handlers[i := p];
    assert forall j :: 0 <= j < |qs| && j != i ==> next[j] == s.handlers[j];
    assert HasAssigned(next[i]);
  }

  /** An insert. */
  lemma QuietInserts(h: (int, int) -> int, s: Many, qs: seq<Request>, texts: seq<string>, i: nat, m: Moved)
    requires Quiet(h, s, qs, texts) && i < |qs| && HasAssigned(s.handlers[i]) && m.progress.Answered?
    requires m.world.tree == s.world.tree && Consistent(h, m.world, texts + [qs[i].commitment])
    ensures Quiet(h, s.(world := m.world, handlers := s.handlers[i := m.progress]), qs, texts + [qs[i].commitment])
  {
    hide Ahead, Carries, Consistent;
    var next := s.handlers[i := m.progress];
    assert forall j :: 0 <= j < |qs| && j != i ==> next[j] == s.handlers[j] && !HasAssigned(next[j]);
  }

  lemma CalmTurn(h: (int, int) -> int, s: Many, qs: seq<Request>, texts: seq<string>, i: nat)
    requires FieldHash(h) && Quiet(h, s, qs, texts) && Calm(s, qs, i)
    requires i < |qs| && !s.handlers[i].Answered?
    ensures var t := Turn(h, s, qs, i); Quiet(h, t, qs, Grown(texts, qs[i], t.handlers[i]))
  {
    var p := s.handlers[i];
    var m := Step(h, s.world, qs[i], p);
    hide FieldHash, Step, Consistent, Ahead, Carries, Copied;
    match p
    case Waiting =>
      CalmBegins(h, s.world, qs[i]);
      QuietMoves(h, s, qs, texts, i, m.progress);
    case Building(_, _, _) => AssignTurn(h, s, qs, texts, i);
    case Rebuilt(_, _) =>
      CalmReads(h, s.world, texts, qs[i], p);
      QuietReads(h, s, qs, texts, i, m.progress);
    case Proving(_, _, _, _) =>
      CalmReads(h, s.world, texts, qs[i], p);
      QuietReads(h, s, qs, texts, i, m.progress);
    case Returned(_, _, _, _, _) =>
      CalmInserts(h, s.world, texts, qs[i], p);
      QuietInserts(h, s, qs, texts, i, m);
  }

  lemma AssignTurn(h: (int, int) -> int, s: Many, qs: seq<Request>, texts: seq<string>, i: nat)
    requires FieldHash(h) && Quiet(h, s, qs, texts) && Calm(s, qs, i)
    requires i < |qs| && s.handlers[i].Building?
    ensures var t := Turn(h, s, qs, i); Quiet(h, t, qs, texts) && !IsEnrolled(t.handlers[i])
  {
    var p := s.handlers[i];
    var m := Step(h, s.world, qs[i], p);
    assert forall j :: 0 <= j < |qs| ==> !HasAssigned(s.handlers[j]);
    hide FieldHash, Step, Consistent, Ahead, Carries;
    CalmAssigns(h, s.world, texts, qs[i], p);
    if |texts| < Capacity() {
      QuietAssigns(h, s, qs, texts, i, m);
    } else {
      QuietMoves(h, s, qs, texts, i, m.progress);
    }
  }

  lemma {:induction false} CalmRunsKeep(h: (int, int) -> int, s: Many, qs: seq<Request>, texts: seq<string>,
                                        schedule: seq<nat>)
    requires FieldHash(h) && CalmRun(h, s, qs, schedule) && ValidOrder(qs, s.order)
    requires Quiet(h, s, qs, texts + Commitments(qs, s.order))
    ensures var t := Turns(h, s, qs, schedule);
      ValidOrder(qs, t.order) && Quiet(h, t, qs, texts + Commitments(qs, t.order))
    decreases |schedule|
  {
    if schedule != [] {
      var i, t := schedule[0], Turn(h, s, qs, schedule[0]);
      if i < |qs| && i < |s.handlers| && !s.handlers[i].Answered? {
        CalmTurn(h, s, qs, texts + Commitments(qs, s.order), i);
        GrownOrder(qs, texts, s.order, i, t.handlers[i]);
      }
      hide Quiet, Turn, Calm, FieldHash;
      CalmRunsKeep(h, t, qs, texts, schedule[1..]);
    }
  }

  ghost predicate ValidOrder(qs: seq<Request>, order: seq<nat>) {
    forall t :: 0 <= t < |order| ==> order[t] < |qs|
  }

  lemma GrownOrder(qs: seq<Request>, texts: seq<string>, order: seq<nat>, i: nat, p: Progress)
    requires ValidOrder(qs, order) && i < |qs|
    ensures var next := if IsEnrolled(p) then order + [i] else order;
      ValidOrder(qs, next)
      && texts + Commitments(qs, next) == Grown(texts + Commitments(qs, order), qs[i], p)
  {
    if IsEnrolled(p) {
      assert Commitments(qs, order + [i]) == Commitments(qs, order) + [qs[i].commitment];
    }
  }

  /** For any number of requests and every calm schedule: once no handler is
      between its assignment and its insert, the world is consistent with the old
      texts and those of the enrolled, in their order. */
  lemma CalmSchedulesKeep(h: (int, int) -> int, w: World, texts: seq<string>, qs: seq<Request>, schedule: seq<nat>)
    requires FieldHash(h) && Consistent(h, w, texts) && CalmRun(h, Start(w, qs), qs, schedule)
    ensures var s := Turns(h, Start(w, qs), qs, schedule);
      && |s.handlers| == |qs| && ValidOrder(qs, s.order)
      && ((forall i :: 0 <= i < |qs| ==> !HasAssigned(s.handlers[i])) ==>
            Consistent(h, s.world, texts + Commitments(qs, s.order)))
  {
    var s := Start(w, qs);
    hide Turns, FieldHash, Consistent, CalmRun;
    assert texts + Commitments(qs, s.order) == texts;
    CalmRunsKeep(h, s, qs, texts, schedule);
  }

  /** No two requests name one commitment. */
  ghost predicate DistinctTexts(qs: seq<Request>) {
    forall i, j :: 0 <= i < j < |qs| ==> qs[i].commitment != qs[j].commitment
  }

  /** A handler assigns the tree only while no other is between its copy and its
      insert. */
  predicate Apart(s: Many, i: nat) {
    i < |s.handlers| && s.handlers[i].Building? ==>
      forall j :: 0 <= j < |s.handlers| && j != i ==> !UnderWay(s.handlers[j])
  }

  ghost predicate ApartRun(h: (int, int) -> int, s: Many, qs: seq<Request>, schedule: seq<nat>)
    decreases |schedule|
  {
    schedule == [] || (Apart(s, schedule[0]) && ApartRun(h, Turn(h, s, qs, schedule[0]), qs, schedule[1..]))
  }

  /** The texts of the handlers under way are not yet in the table. */
  ghost predicate StillNew(s: Many, qs: seq<Request>) {
    && |s.handlers| == |qs|
    && forall i :: 0 <= i < |qs| && UnderWay(s.handlers[i]) ==> qs[i].commitment !in s.world.enrolled
  }

  lemma StepRows(h: (int, int) -> int, w: World, q: Request, p: Progress)
    requires !p.Answered? && (UnderWay(p) ==> q.commitment !in w.enrolled)
    ensures var m := Step(h, w, q, p);
      && m.world.enrolled.Keys <= w.enrolled.Keys + {q.commitment}
      && (UnderWay(m.progress) ==> q.commitment !in m.world.enrolled)
  {
    hide IsHex32, ValueOf, FitsHex32, TreeOf, Proved, Insertable, AllFit, Derived;
  }

  lemma TurnStaysNew(h: (int, int) -> int, s: Many, qs: seq<Request>, i: nat)
    requires DistinctTexts(qs) && StillNew(s, qs)
    ensures StillNew(Turn(h, s, qs, i), qs)
  {
    if i < |qs| && !s.handlers[i].Answered? {
      StepRows(h, s.world, qs[i], s.handlers[i]);
      hide Step;
    }
  }

  lemma {:induction false} ApartIsCalm(h: (int, int) -> int, s: Many, qs: seq<Request>, schedule: seq<nat>)
    requires DistinctTexts(qs) && StillNew(s, qs) && ApartRun(h, s, qs, schedule)
    ensures CalmRun(h, s, qs, schedule)
    decreases |schedule|
  {
    if schedule != [] {
      TurnStaysNew(h, s, qs, schedule[0]);
      hide Turn, DistinctTexts;
      ApartIsCalm(h, Turn(h, s, qs, schedule[0]), qs, schedule[1..]);
    }
  }

  /** For requests with different texts: the invariant survives every schedule on
      which no handler assigns the tree between the copy and the insert of
      another. */
  lemma ApartSchedulesKeep(h: (int, int) -> int, w: World, texts: seq<string>, qs: seq<Request>, schedule: seq<nat>)
    requires FieldHash(h) && Consistent(h, w, texts) && DistinctTexts(qs)
    requires ApartRun(h, Start(w, qs), qs, schedule)
    ensures var s := Turns(h, Start(w, qs), qs, schedule);
      && |s.handlers| == |qs|
      && ((forall i :: 0 <= i < |qs| ==> s.handlers[i].Answered?) ==> Inv(h, s.world))
  {
    hide FieldHash, Consistent, CalmRun, ApartRun, Turns, DistinctTexts;
    ApartIsCalm(h, Start(w, qs), qs, schedule);
    CalmSchedulesKeep(h, w, texts, qs, schedule);
    var s := Turns(h, Start(w, qs), qs, schedule);
    if forall i :: 0 <= i < |qs| ==> s.handlers[i].Answered? {
      assert Consistent(h, s.world, texts + Commitments(qs, s.order));
      assert Inv(h, s.world);
    }
  }

  // ----- two handlers ------------------------------------------------------------------------------------------

  function Ids(schedule: seq<bool>): seq<nat> {
    seq(|schedule|, t requires 0 <= t < |schedule| => if schedule[t] then 0 else 1)
  }

  ghost predicate SameState(s: Many, pair: Overlap.Pair) {
    s.world == pair.world && s.handlers == [pair.a, pair.b]
  }

  lemma PairTurn(h: (int, int) -> int, s: Many, pair: Overlap.Pair, qa: Request, qb: Request, first: bool)
    requires SameState(s, pair)
    ensures SameState(Turn(h, s, [qa, qb], if first then 0 else 1), Overlap.Turn(h, pair, qa, qb, first))
  {
    hide Step;
  }

  /** The race of two handlers is the case of two requests. */
  lemma {:induction false} PairIsCrowd(h: (int, int) -> int, s: Many, pair: Overlap.Pair, qa: Request, qb: Request,
                                       schedule: seq<bool>)
    requires SameState(s, pair)
    ensures SameState(Turns(h, s, [qa, qb], Ids(schedule)), Overlap.Turns(h, pair, qa, qb, schedule))
    decreases |schedule|
  {
    if schedule != [] {
      PairTurn(h, s, pair, qa, qb, schedule[0]);
      assert Ids(schedule)[1..] == Ids(schedule[1..]);
      hide Turn, Overlap.Turn, SameState;
      PairIsCrowd(h, Turn(h, s, [qa, qb], Ids(schedule)[0]), Overlap.Turn(h, pair, qa, qb, schedule[0]), qa, qb,
                  schedule[1..]);
    }
  }
}
