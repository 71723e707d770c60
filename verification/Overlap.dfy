/** Two registration handlers, interleaved at their awaits in every possible way,
    and a path handler that is overtaken by a registration. */
module Overlap {
  import opened HexText
  import opened MerkleIndex
  import opened MerkleTree
  import opened Service
  import opened Store
  import opened Wrappers

  datatype Pair = Pair(world: World, a: Progress, b: Progress)

  function Swap(s: Pair): Pair { Pair(s.world, s.b, s.a) }

  /** One stretch of the first handler; none once it has answered. */
  function TurnFirst(h: (int, int) -> int, s: Pair, qa: Request): Pair {
    if s.a.Answered? then s
    else
      var m := Step(h, s.world, qa, s.a);
      Pair(m.world, m.progress, s.b)
  }

  function Turn(h: (int, int) -> int, s: Pair, qa: Request, qb: Request, first: bool): Pair {
    if first then TurnFirst(h, s, qa) else Swap(TurnFirst(h, Swap(s), qb))
  }

  /** A schedule: whose turn it is. */
  function Turns(h: (int, int) -> int, s: Pair, qa: Request, qb: Request, schedule: seq<bool>): Pair
    decreases |schedule|
  {
    if schedule == [] then s
    else Turns(h, Turn(h, s, qa, qb, schedule[0]), qa, qb, schedule[1..])
  }

  // ----- what the schedule decides ------------------------------------------------------------------

  datatype Who = Nobody | First | Second

  function Other(who: Who): Who {
    match who
    case Nobody => Nobody
    case First => Second
    case Second => First
  }

  /** How far a handler is: it has copied the leaves, assigned the rebuilt tree,
      read its leaf index, read the new root, and inserted the row; or it was
      turned away at the collision check, or its insert failed, or its leaves did
      not fit in the tree. */
  datatype Stage = Idle | Copied | Assigned | Indexed | Rooted | Enrolled | TurnedAway | Refused | Overflowed

  /** With whose tree the handler read its index and its root. */
  datatype Seen = Seen(stage: Stage, atIndex: Who, atRoot: Who)

  /** Who assigned the tree before the other copied it, who assigned it last, and
      who was enrolled first. */
  datatype Clock = Clock(a: Seen, b: Seen, ahead: Who, last: Who, winner: Who)

  const START := Clock(Seen(Idle, Nobody, Nobody), Seen(Idle, Nobody, Nobody), Nobody, Nobody, Nobody)

  function MirrorSeen(s: Seen): Seen { Seen(s.stage, Other(s.atIndex), Other(s.atRoot)) }

  function Mirror(c: Clock): Clock {
    Clock(MirrorSeen(c.b), MirrorSeen(c.a), Other(c.ahead), Other(c.last), Other(c.winner))
  }

  /** Both handlers have read one leaf index: the copies were equal, or the one
      that was ahead read the index of the tree that replaced its own. */
  predicate OneIndex(c: Clock) {
    match c.ahead
    case Nobody => true
    case First => c.a.atIndex == Second
    case Second => c.b.atIndex == First
  }

  /** A turn of the first handler; same says that both texts are equal, and tight
      that the tree has room for one leaf only. */
  function TickFirst(c: Clock, same: bool, tight: bool): Clock {
    match c.a.stage
    case Idle =>
      c.(a := c.a.(stage := if same && c.b.stage == Enrolled then TurnedAway else Copied))
    case Copied =>
      if tight && c.ahead == Second then c.(a := c.a.(stage := Overflowed))
      else c.(a := c.a.(stage := Assigned), last := First, ahead := if c.b.stage == Idle then First else c.ahead)
    case Assigned => c.(a := Seen(Indexed, c.last, c.a.atRoot))
    case Indexed => c.(a := Seen(Rooted, c.a.atIndex, c.last))
    case Rooted =>
      if c.b.stage == Enrolled && (same || OneIndex(c)) then c.(a := c.a.(stage := Refused))
      else c.(a := c.a.(stage := Enrolled), winner := if c.winner == Nobody then First else c.winner)
    case _ => c
  }

  function Tick(c: Clock, same: bool, tight: bool, first: bool): Clock {
    if first then TickFirst(c, same, tight) else Mirror(TickFirst(Mirror(c), same, tight))
  }

  function Ticks(c: Clock, same: bool, tight: bool, schedule: seq<bool>): Clock
    decreases |schedule|
  {
    if schedule == [] then c else Ticks(Tick(c, same, tight, schedule[0]), same, tight, schedule[1..])
  }

  predicate HasAssigned(s: Stage) { s in {Assigned, Indexed, Rooted, Enrolled, Refused} }

  predicate Done(s: Stage) { s in {Enrolled, TurnedAway, Refused, Overflowed} }

  /** What holds of the clock at any time, from the first handler's side. */
  ghost predicate Half(c: Clock, same: bool, tight: bool) {
    var s := c.a.stage;
    && (c.last == First || c.ahead == First ==> HasAssigned(s))
    && (HasAssigned(s) ==> c.last != Nobody)
    && (c.ahead == Second && HasAssigned(s) ==> c.last == First && !tight)
    && (s == Idle && HasAssigned(c.b.stage) ==> c.ahead == Second)
    && (HasAssigned(s) && c.ahead == Nobody ==> c.b.stage != Idle)
    && (s in {Indexed, Rooted, Enrolled, Refused} ==> SawTree(c, c.a.atIndex))
    && (s in {Rooted, Enrolled, Refused} ==> SawTree(c, c.a.atRoot) && (c.a.atIndex == Second ==> c.a.atRoot == Second))
    && (s == Enrolled ==> c.winner != Nobody)
    && (c.winner == First ==> s == Enrolled)
    && (s == TurnedAway ==> same && c.ahead == Second && c.b.stage == Enrolled)
    && (s == Overflowed ==> tight && c.ahead == Second)
    && (s == Refused ==> c.b.stage == Enrolled && (same || OneIndex(c)))
    && (s == Enrolled && c.b.stage == Enrolled ==> !same && !OneIndex(c))
  }

  /** The tree that the first handler saw after its own assignment. */
  ghost predicate SawTree(c: Clock, who: Who) {
    && who != Nobody
    && (c.last == First ==> who == First)
    && (who == Second ==> HasAssigned(c.b.stage))
  }

  ghost predicate Possible(c: Clock, same: bool, tight: bool) {
    Half(c, same, tight) && Half(Mirror(c), same, tight)
  }

  lemma MirrorTwice(c: Clock)
    ensures Mirror(Mirror(c)) == c
  {}

  lemma StartIsPossible(same: bool, tight: bool)
    ensures Possible(START, same, tight)
  {}

  lemma TickKeepsHalf(c: Clock, same: bool, tight: bool)
    requires Possible(c, same, tight)
    ensures Half(TickFirst(c, same, tight), same, tight)
  {}

  lemma TickKeepsOtherHalf(c: Clock, same: bool, tight: bool)
    requires Possible(c, same, tight)
    ensures Half(Mirror(TickFirst(c, same, tight)), same, tight)
  {}

  lemma TickIsPossible(c: Clock, same: bool, tight: bool)
    requires Possible(c, same, tight)
    ensures Possible(TickFirst(c, same, tight), same, tight)
  {
    hide Half, TickFirst, Mirror;
    TickKeepsHalf(c, same, tight);
    TickKeepsOtherHalf(c, same, tight);
  }

  // ----- what the clock says of the world --------------------------------------------------------------

  /** Two requests that meet in the world w, which holds the given leaves. */
  datatype Race = Race(h: (int, int) -> int, w: World, leaves: seq<int>, qa: Request, qb: Request, la: int, lb: int) {
    function Mirrored(): Race { Race(h, w, leaves, qb, qa, lb, la) }

    predicate Same() { qa.commitment == qb.commitment }

    predicate Tight() { |leaves| + 1 == Capacity() }
  }

  /** Each request alone would be accepted in w. */
  ghost predicate Fair(x: Race, texts: seq<string>) {
    && FieldHash(x.h) && Consistent(x.h, x.w, texts) && |texts| < Capacity()
    && x.leaves == Values(texts)
    && Welcome(x.h, x.w, x.qa, x.la) && Welcome(x.h, x.w, x.qb, x.lb)
  }

  predicate Welcome(h: (int, int) -> int, w: World, q: Request, leaf: int) {
    Admissible(h, q) && q.commitment !in w.enrolled && leaf == ValueOf(q.commitment)
  }

  /** The leaves that a handler copied, behind the other or not. */
  function Base(leaves: seq<int>, other: int, behind: bool): seq<int> {
    if behind then leaves + [other] else leaves
  }

  /** The leaves of the tree after the last assignment. */
  function Held(x: Race, ahead: Who, last: Who): seq<int> {
    match last
    case Nobody => x.leaves
    case First => Base(x.leaves, x.lb, ahead == Second) + [x.la]
    case Second => Base(x.leaves, x.la, ahead == First) + [x.lb]
  }

  function FirstBase(x: Race, c: Clock): seq<int> { Base(x.leaves, x.lb, c.ahead == Second) }

  function FirstIndex(x: Race, c: Clock): int { |Held(x, c.ahead, c.a.atIndex)| - 1 }

  function FirstRoot(x: Race, c: Clock): int { RootOf(x.h, Held(x, c.ahead, c.a.atRoot)) }

  /** Where the first handler is, with what it has captured. */
  ghost predicate OnItsWay(x: Race, c: Clock, p: Progress) {
    match c.a.stage
    case Idle => p == Waiting
    case Copied => p == Building(x.la, RootOf(x.h, FirstBase(x, c)), FirstBase(x, c) + [x.la])
    case Assigned => p == Rebuilt(x.la, RootOf(x.h, FirstBase(x, c)))
    case Indexed =>
      && p.Proving? && p == Proving(x.la, RootOf(x.h, FirstBase(x, c)), FirstIndex(x, c), p.proof)
      && AllFit(p.proof.path)
    case Rooted =>
      && p.Returned?
      && p == Returned(x.la, RootOf(x.h, FirstBase(x, c)), FirstIndex(x, c), p.proof, FirstRoot(x, c))
      && AllFit(p.proof.path)
    case Enrolled => p.Answered? && p.reply.Registered?
    case TurnedAway => p == Answered(AlreadyEnrolled)
    case Refused => p == Answered(AlreadyEnrolled)
    case Overflowed => p == Answered(Failed)
  }

  function Stamp(root: int): string { if FitsHex32(root) then Hex32(root) else "" }

  /** The row, the signature and the stamp of the first handler. */
  function AddFirst(x: Race, c: Clock, w: World): World {
    w.(enrolled := w.enrolled[x.qa.commitment := Row(FirstIndex(x, c), x.qa.now, x.qa.blindedInput)],
       kv := w.kv[CURRENT_ROOT := Stamp(FirstRoot(x, c))],
       signed := w.signed + [RootUpdate(RootOf(x.h, FirstBase(x, c)), FirstRoot(x, c), x.la)])
  }

  function AddSecond(x: Race, c: Clock, w: World): World { AddFirst(x.Mirrored(), Mirror(c), w) }

  /** What is on disk and signed. */
  function Disk(x: Race, c: Clock): World {
    match c.winner
    case Nobody => x.w
    case First => if c.b.stage == Enrolled then AddSecond(x, c, AddFirst(x, c, x.w)) else AddFirst(x, c, x.w)
    case Second => if c.a.stage == Enrolled then AddFirst(x, c, AddSecond(x, c, x.w)) else AddSecond(x, c, x.w)
  }

  ghost predicate Shows(x: Race, c: Clock, s: Pair) {
    && Possible(c, x.Same(), x.Tight())
    && s.world == Disk(x, c).(tree := TreeOf(x.h, Held(x, c.ahead, c.last)))
    && OnItsWay(x, c, s.a) && OnItsWay(x.Mirrored(), Mirror(c), s.b)
  }

  lemma ShowsIsSymmetric(x: Race, c: Clock, s: Pair)
    requires Shows(x, c, s)
    ensures Shows(x.Mirrored(), Mirror(c), Swap(s))
  {
    hide TreeOf, OnItsWay, Half, AddFirst;
    MirrorTwice(c);
    assert x.Mirrored().Mirrored() == x;
  }

  lemma StartShows(x: Race, texts: seq<string>)
    requires Fair(x, texts)
    ensures Shows(x, START, Pair(x.w, Waiting, Waiting))
  {
    assert x.w.tree == TreeOf(x.h, x.leaves);
    StartIsPossible(x.Same(), x.Tight());
    hide TreeOf, Fair, Possible, RootOf;
  }

  // ----- every turn keeps in step with the clock ----------------------------------------------------------

  /** The numbers involved fit in 32 bytes. */
  lemma AllNumbersFit(x: Race, texts: seq<string>)
    requires Fair(x, texts)
    ensures AllFit(x.leaves) && FitsHex32(x.la) && FitsHex32(x.lb) && |x.leaves| == |texts|
  {
    hide FitsHex32, TreeOf;
    ValuesFit(texts);
    ValueFits(x.qa.commitment);
    ValueFits(x.qb.commitment);
  }

  lemma OneMoreFits(leaves: seq<int>, leaf: int)
    requires AllFit(leaves) && FitsHex32(leaf)
    ensures AllFit(leaves + [leaf])
  {
    hide FitsHex32;
  }

  lemma BaseFits(x: Race, texts: seq<string>, other: int, behind: bool)
    requires Fair(x, texts) && FitsHex32(other)
    ensures AllFit(Base(x.leaves, other, behind)) && FitsHex32(RootOf(x.h, Base(x.leaves, other, behind)))
  {
    AllNumbersFit(x, texts);
    assert FieldHash(x.h);
    hide FitsHex32, RootOf, Fair, AllFit, FieldHash;
    OneMoreFits(x.leaves, other);
    RootFits(x.h, Base(x.leaves, other, behind));
  }

  lemma HeldFits(x: Race, texts: seq<string>, ahead: Who, last: Who)
    requires Fair(x, texts)
    ensures AllFit(Held(x, ahead, last)) && FitsHex32(RootOf(x.h, Held(x, ahead, last)))
    ensures AllFit(Base(x.leaves, x.lb, ahead == Second))
    ensures FitsHex32(RootOf(x.h, Base(x.leaves, x.lb, ahead == Second)))
  {
    AllNumbersFit(x, texts);
    BaseFits(x, texts, x.lb, ahead == Second);
    BaseFits(x, texts, x.la, ahead == First);
    assert FieldHash(x.h);
    hide FitsHex32, RootOf, Fair, AllFit, FieldHash, Base;
    OneMoreFits(Base(x.leaves, x.lb, ahead == Second), x.la);
    OneMoreFits(Base(x.leaves, x.la, ahead == First), x.lb);
    RootFits(x.h, Held(x, ahead, last));
  }

  /** The last assignment appended one leaf to what its handler had copied, and
      there was room for it. */
  lemma HeldShape(x: Race, texts: seq<string>, c: Clock) returns (front: seq<int>, leaf: int)
    requires Fair(x, texts) && Possible(c, x.Same(), x.Tight()) && HasAssigned(c.a.stage)
    ensures Held(x, c.ahead, c.last) == front + [leaf] && |front| < Capacity()
    ensures AllFit(front) && FitsHex32(leaf)
  {
    AllNumbersFit(x, texts);
    BaseFits(x, texts, x.lb, c.ahead == Second);
    BaseFits(x, texts, x.la, c.ahead == First);
    assert |texts| < Capacity();
    hide FitsHex32, Fair, SawTree, OneIndex, AllFit, RootOf;
    if c.last == First {
      front, leaf := Base(x.leaves, x.lb, c.ahead == Second), x.la;
    } else {
      front, leaf := Base(x.leaves, x.la, c.ahead == First), x.lb;
    }
  }

  lemma FrontProves(h: (int, int) -> int, front: seq<int>, leaf: int, held: seq<int>)
    requires FieldHash(h) && AllFit(front) && FitsHex32(leaf) && |front| < Capacity() && held == front + [leaf]
    ensures var proved := Proved(h, TreeOf(h, held).layers, |held| - 1);
      TreeOf(h, held).leafCount == |held| && proved.Ok? && AllFit(proved.value.path)
  {
    hide FitsHex32, AllFit, Proved, FieldHash, Node, Layers, Walk, Spell;
    LastProof(h, front, leaf);
  }

  /** The assigned tree proves its last leaf. */
  lemma HeldProves(x: Race, texts: seq<string>, c: Clock)
    requires Fair(x, texts) && Possible(c, x.Same(), x.Tight()) && HasAssigned(c.a.stage)
    ensures var held := Held(x, c.ahead, c.last);
      var proved := Proved(x.h, TreeOf(x.h, held).layers, |held| - 1);
      && TreeOf(x.h, held).leafCount == |held|
      && proved.Ok? && AllFit(proved.value.path)
  {
    assert FieldHash(x.h);
    var front, leaf := HeldShape(x, texts, c);
    hide FitsHex32, Fair, AllFit, Proved, Possible, Held, FieldHash, TreeOf, HasAssigned;
    FrontProves(x.h, front, leaf, Held(x, c.ahead, c.last));
  }

  /** A turn of the first handler does not touch what the second has captured. */
  lemma OtherStays(x: Race, c: Clock, d: Clock, p: Progress)
    requires d.b == c.b && (d.ahead == c.ahead || c.b.stage == Idle)
    requires OnItsWay(x.Mirrored(), Mirror(c), p)
    ensures OnItsWay(x.Mirrored(), Mirror(d), p)
  {
    hide RootOf, AllFit;
  }

  /** Before the insert a turn of the first handler does not touch the disk. */
  lemma DiskStays(x: Race, c: Clock, d: Clock)
    requires Possible(c, x.Same(), x.Tight()) && c.a.stage in {Idle, Copied, Assigned, Indexed}
    requires d.b == c.b && d.winner == c.winner && d.a.stage != Enrolled && (d.ahead == c.ahead || c.b.stage == Idle)
    ensures Disk(x, d) == Disk(x, c)
  {
    hide RootOf, Stamp, SawTree, OneIndex;
  }

  /** The parts of Shows that a turn of the first handler leaves to be shown. */
  lemma Assemble(x: Race, c: Clock, s: Pair, t: Pair)
    requires Shows(x, c, s) && c.a.stage in {Idle, Copied, Assigned, Indexed}
    requires var d := TickFirst(c, x.Same(), x.Tight());
      && t.b == s.b && OnItsWay(x, d, t.a)
      && t.world == s.world.(tree := TreeOf(x.h, Held(x, d.ahead, d.last)))
    ensures Shows(x, TickFirst(c, x.Same(), x.Tight()), t)
  {
    var d := TickFirst(c, x.Same(), x.Tight());
    TickIsPossible(c, x.Same(), x.Tight());
    assert d.b == c.b && d.winner == c.winner && d.a.stage != Enrolled && (d.ahead == c.ahead || c.b.stage == Idle);
    hide TickFirst, OnItsWay, Disk, TreeOf, Held;
    DiskStays(x, c, d);
    OtherStays(x, c, d, s.b);
  }

  lemma TurnedAwayAlready(x: Race, texts: seq<string>, c: Clock, s: Pair)
    requires Fair(x, texts) && Shows(x, c, s) && c.a.stage == Idle
    ensures x.qa.commitment in s.world.enrolled <==> x.Same() && c.b.stage == Enrolled
    ensures s.world.tree.root == RootOf(x.h, FirstBase(x, c)) && s.world.tree.Leaves() == FirstBase(x, c)
  {
    hide FitsHex32, Node, Layers, Consistent, FieldHash, Admissible, Stamp, SawTree, OneIndex;
  }

  lemma BeginStep(x: Race, c: Clock, s: Pair)
    requires Welcome(x.h, x.w, x.qa, x.la) && c.a.stage == Idle && OnItsWay(x, c, s.a)
    requires x.qa.commitment in s.world.enrolled <==> x.Same() && c.b.stage == Enrolled
    requires s.world.tree.root == RootOf(x.h, FirstBase(x, c)) && s.world.tree.Leaves() == FirstBase(x, c)
    ensures var d, t := TickFirst(c, x.Same(), x.Tight()), TurnFirst(x.h, s, x.qa);
      && OnItsWay(x, d, t.a) && t.b == s.b && t.world == s.world
  {
    hide RootOf, IsHex32, AllFit;
    assert s.a == Waiting && Admissible(x.h, x.qa);
  }

  lemma BeginTick(x: Race, texts: seq<string>, c: Clock, s: Pair)
    requires Fair(x, texts) && Shows(x, c, s) && c.a.stage == Idle
    ensures Shows(x, TickFirst(c, x.Same(), x.Tight()), TurnFirst(x.h, s, x.qa))
  {
    TurnedAwayAlready(x, texts, c, s);
    hide OnItsWay, RootOf, TreeOf, Disk, Held, TurnFirst, Half, Consistent, FieldHash, Admissible, FirstBase;
    BeginStep(x, c, s);
    Assemble(x, c, s, TurnFirst(x.h, s, x.qa));
  }

  lemma AssignStep(x: Race, c: Clock, s: Pair)
    requires c.a.stage == Copied && OnItsWay(x, c, s.a) && |x.leaves| < Capacity()
    requires (c.ahead == Second ==> c.b.stage != Idle) && s.world.tree == TreeOf(x.h, Held(x, c.ahead, c.last))
    ensures var d, t := TickFirst(c, x.Same(), x.Tight()), TurnFirst(x.h, s, x.qa);
      && OnItsWay(x, d, t.a) && t.b == s.b
      && t.world == s.world.(tree := TreeOf(x.h, Held(x, d.ahead, d.last)))
  {
    hide TreeOf, Capacity;
    assert s.a == Building(x.la, RootOf(x.h, FirstBase(x, c)), FirstBase(x, c) + [x.la]);
    hide RootOf, AllFit;
    assert |FirstBase(x, c)| == |x.leaves| + if c.ahead == Second then 1 else 0;
  }

  lemma AssignTick(x: Race, texts: seq<string>, c: Clock, s: Pair)
    requires Fair(x, texts) && Shows(x, c, s) && c.a.stage == Copied
    ensures Shows(x, TickFirst(c, x.Same(), x.Tight()), TurnFirst(x.h, s, x.qa))
  {
    AllNumbersFit(x, texts);
    assert |texts| < Capacity();
    hide OnItsWay, RootOf, TreeOf, Disk, Fair, Held, TurnFirst, TickFirst, SawTree, OneIndex, Capacity;
    assert c.ahead == Second ==> c.b.stage != Idle;
    hide Half;
    AssignStep(x, c, s);
    Assemble(x, c, s, TurnFirst(x.h, s, x.qa));
  }

  lemma IndexStep(x: Race, c: Clock, s: Pair)
    requires c.a.stage == Assigned && OnItsWay(x, c, s.a) && s.world.tree == TreeOf(x.h, Held(x, c.ahead, c.last))
    requires var held := Held(x, c.ahead, c.last);
      var proved := Proved(x.h, TreeOf(x.h, held).layers, |held| - 1);
      && TreeOf(x.h, held).leafCount == |held|
      && proved.Ok? && AllFit(proved.value.path)
    ensures var d, t := TickFirst(c, x.Same(), x.Tight()), TurnFirst(x.h, s, x.qa);
      && OnItsWay(x, d, t.a) && t.b == s.b && t.world == s.world
  {
    hide TreeOf, Held, Proved, AllFit;
    assert s.a == Rebuilt(x.la, RootOf(x.h, FirstBase(x, c)));
    hide RootOf, FirstBase;
  }

  lemma IndexTick(x: Race, texts: seq<string>, c: Clock, s: Pair)
    requires Fair(x, texts) && Shows(x, c, s) && c.a.stage == Assigned
    ensures Shows(x, TickFirst(c, x.Same(), x.Tight()), TurnFirst(x.h, s, x.qa))
  {
    HeldProves(x, texts, c);
    hide OnItsWay, RootOf, TreeOf, Disk, Fair, Held, TurnFirst, Half, Proved, AllFit;
    IndexStep(x, c, s);
    Assemble(x, c, s, TurnFirst(x.h, s, x.qa));
  }

  lemma RootTick(x: Race, texts: seq<string>, c: Clock, s: Pair)
    requires Fair(x, texts) && Shows(x, c, s) && c.a.stage == Indexed
    ensures Shows(x, TickFirst(c, x.Same(), x.Tight()), TurnFirst(x.h, s, x.qa))
  {
    var d, t := TickFirst(c, x.Same(), x.Tight()), TurnFirst(x.h, s, x.qa);
    assert OnItsWay(x, d, t.a) && t.b == s.b && t.world == s.world by {
      hide FitsHex32, AllFit, TreeOf, Fair, Disk, Half;
    }
    hide OnItsWay, RootOf, TreeOf, Disk, Fair, Held, TurnFirst;
    Assemble(x, c, s, t);
  }

  /** Both handlers have the same leaf index exactly when OneIndex says so, and it
      is not an index of the table in w. */
  lemma IndicesMeet(x: Race, c: Clock)
    requires Possible(c, x.Same(), x.Tight()) && c.a.stage == Rooted
    ensures FirstIndex(x, c) >= |x.leaves|
    ensures c.b.stage == Enrolled ==> (FirstIndex(x, c) == FirstIndex(x.Mirrored(), Mirror(c)) <==> OneIndex(c))
  {}

  /** The table that the first handler meets at its insert. */
  lemma TableAtInsert(x: Race, c: Clock)
    requires Possible(c, x.Same(), x.Tight()) && c.a.stage == Rooted
    ensures Disk(x, c).enrolled == if c.b.stage == Enrolled
      then x.w.enrolled[x.qb.commitment := Row(FirstIndex(x.Mirrored(), Mirror(c)), x.qb.now, x.qb.blindedInput)]
      else x.w.enrolled
  {
    hide FirstIndex, FirstRoot, FirstBase, OneIndex, SawTree, Stamp, RootOf;
  }

  lemma InsertableBeside(t: Enrolled, texts: seq<string>, c: string, i: int, d: string, row: Row)
    requires Holds(t, texts) && c !in t && d !in t && i >= |texts|
    ensures Insertable(t, c, i)
    ensures Insertable(t[d := row], c, i) <==> c != d && i != row.leafIndex
  {
    assert forall k :: k in t ==> t[k].leafIndex < |texts|;
    assert t[d := row][d] == row;
  }

  lemma InsertableWhen(x: Race, texts: seq<string>, c: Clock)
    requires Fair(x, texts) && Possible(c, x.Same(), x.Tight()) && c.a.stage == Rooted
    ensures Insertable(Disk(x, c).enrolled, x.qa.commitment, FirstIndex(x, c))
       <==> !(c.b.stage == Enrolled && (x.Same() || OneIndex(c)))
  {
    IndicesMeet(x, c);
    TableAtInsert(x, c);
    hide Insertable, Possible, OneIndex, Holds, FirstIndex, Disk, Admissible, Chained, TreeOf, Stamped, FitsHex32;
    var other := Row(FirstIndex(x.Mirrored(), Mirror(c)), x.qb.now, x.qb.blindedInput);
    InsertableBeside(x.w.enrolled, texts, x.qa.commitment, FirstIndex(x, c), x.qb.commitment, other);
  }

  lemma DiskGains(x: Race, c: Clock, d: Clock)
    requires Possible(c, x.Same(), x.Tight()) && c.a.stage == Rooted
    requires d == TickFirst(c, x.Same(), x.Tight())
    ensures Disk(x, d) == if d.a.stage == Enrolled then AddFirst(x, c, Disk(x, c)) else Disk(x, c)
  {
    hide Held, RootOf, Stamp, SawTree, OneIndex;
  }

  lemma AddKeepsTree(x: Race, c: Clock, w: World, tree: Tree)
    ensures AddFirst(x, c, w.(tree := tree)) == AddFirst(x, c, w).(tree := tree)
  {
    hide FirstIndex, FirstRoot, FirstBase, Stamp, RootOf;
  }

  /** What Conclude does with what the first handler has captured. */
  lemma InsertStep(x: Race, c: Clock, s: Pair)
    requires c.a.stage == Rooted && OnItsWay(x, c, s.a)
    requires FitsHex32(x.la) && FitsHex32(FirstRoot(x, c)) && FitsHex32(RootOf(x.h, FirstBase(x, c)))
    requires Insertable(s.world.enrolled, x.qa.commitment, FirstIndex(x, c))
       <==> !(c.b.stage == Enrolled && (x.Same() || OneIndex(c)))
    ensures var d, t := TickFirst(c, x.Same(), x.Tight()), TurnFirst(x.h, s, x.qa);
      && OnItsWay(x, d, t.a) && t.b == s.b
      && t.world == if d.a.stage == Enrolled then AddFirst(x, c, s.world) else s.world
  {
    hide FitsHex32, RootOf, FirstBase, FirstRoot, FirstIndex, Insertable, OneIndex, AllFit;
    assert s.a == Returned(x.la, RootOf(x.h, FirstBase(x, c)), FirstIndex(x, c), s.a.proof, FirstRoot(x, c));
    assert AllFit(s.a.proof.path);
  }

  /** The parts of Shows that an insert leaves to be shown. */
  lemma AssembleInsert(x: Race, c: Clock, s: Pair, t: Pair)
    requires Shows(x, c, s) && c.a.stage == Rooted
    requires var d := TickFirst(c, x.Same(), x.Tight());
      && t.b == s.b && OnItsWay(x, d, t.a)
      && t.world == if d.a.stage == Enrolled then AddFirst(x, c, s.world) else s.world
    ensures Shows(x, TickFirst(c, x.Same(), x.Tight()), t)
  {
    var d := TickFirst(c, x.Same(), x.Tight());
    TickIsPossible(c, x.Same(), x.Tight());
    DiskGains(x, c, d);
    assert d.b == c.b && d.ahead == c.ahead && d.last == c.last;
    hide TickFirst, OnItsWay, Disk, TreeOf, Held, Possible, AddFirst, OneIndex;
    AddKeepsTree(x, c, Disk(x, c), s.world.tree);
    OtherStays(x, c, d, s.b);
  }

  lemma InsertTick(x: Race, texts: seq<string>, c: Clock, s: Pair)
    requires Fair(x, texts) && Shows(x, c, s) && c.a.stage == Rooted
    ensures Shows(x, TickFirst(c, x.Same(), x.Tight()), TurnFirst(x.h, s, x.qa))
  {
    AllNumbersFit(x, texts);
    HeldFits(x, texts, c.ahead, c.a.atRoot);
    InsertableWhen(x, texts, c);
    assert s.world.enrolled == Disk(x, c).enrolled;
    hide OnItsWay, RootOf, TreeOf, Disk, Fair, Held, TurnFirst, Possible, AllFit, AddFirst, TickFirst, OneIndex;
    hide FitsHex32, Insertable;
    InsertStep(x, c, s);
    AssembleInsert(x, c, s, TurnFirst(x.h, s, x.qa));
  }

  lemma DoneTick(x: Race, c: Clock, s: Pair)
    requires Shows(x, c, s) && Done(c.a.stage)
    ensures Shows(x, TickFirst(c, x.Same(), x.Tight()), TurnFirst(x.h, s, x.qa))
  {
    hide TreeOf, RootOf, Disk, Half, Held;
  }

  lemma FirstTick(x: Race, texts: seq<string>, c: Clock, s: Pair)
    requires Fair(x, texts) && Shows(x, c, s)
    ensures Shows(x, TickFirst(c, x.Same(), x.Tight()), TurnFirst(x.h, s, x.qa))
  {
    hide Fair, Shows, TickFirst, TurnFirst;
    match c.a.stage
    case Idle => BeginTick(x, texts, c, s);
    case Copied => AssignTick(x, texts, c, s);
    case Assigned => IndexTick(x, texts, c, s);
    case Indexed => RootTick(x, texts, c, s);
    case Rooted => InsertTick(x, texts, c, s);
    case _ => DoneTick(x, c, s);
  }

  /** Whoever's turn it is, the clock goes on telling the truth. */
  lemma TurnTicks(x: Race, texts: seq<string>, c: Clock, s: Pair, first: bool)
    requires Fair(x, texts) && Shows(x, c, s)
    ensures Shows(x, Tick(c, x.Same(), x.Tight(), first), Turn(x.h, s, x.qa, x.qb, first))
  {
    if first {
      hide Fair, Shows;
      FirstTick(x, texts, c, s);
    } else {
      assert Fair(x.Mirrored(), texts) && x.Mirrored().Same() == x.Same() && x.Mirrored().Mirrored() == x;
      hide Fair, Shows, TickFirst, TurnFirst;
      ShowsIsSymmetric(x, c, s);
      FirstTick(x.Mirrored(), texts, Mirror(c), Swap(s));
      ShowsIsSymmetric(x.Mirrored(), TickFirst(Mirror(c), x.Same(), x.Tight()), TurnFirst(x.h, Swap(s), x.qb));
    }
  }

  lemma {:induction false} ScheduleTicks(x: Race, texts: seq<string>, c: Clock, s: Pair, schedule: seq<bool>)
    requires Fair(x, texts) && Shows(x, c, s)
    ensures Shows(x, Ticks(c, x.Same(), x.Tight(), schedule), Turns(x.h, s, x.qa, x.qb, schedule))
    decreases |schedule|
  {
    hide Fair, Shows, Tick, Turn;
    if schedule != [] {
      TurnTicks(x, texts, c, s, schedule[0]);
      ScheduleTicks(x, texts, Tick(c, x.Same(), x.Tight(), schedule[0]), Turn(x.h, s, x.qa, x.qb, schedule[0]),
                    schedule[1..]);
    }
  }

  // ----- when the invariant survives -------------------------------------------------------------------------

  /** The signatures that the leaves from a given one on call for. */
  predicate CalledFor(h: (int, int) -> int, updates: seq<RootUpdate>, leaves: seq<int>, from: nat)
    requires from + |updates| <= |leaves|
  {
    forall j :: 0 <= j < |updates| ==> updates[j] == UpdateFor(h, leaves, from + j)
  }

  lemma ChainSplits(h: (int, int) -> int, signed: seq<RootUpdate>, updates: seq<RootUpdate>, leaves: seq<int>,
                    more: seq<int>)
    requires Chained(h, signed, leaves) && leaves <= more && |updates| == |more| - |leaves|
    ensures Chained(h, signed + updates, more) <==> CalledFor(h, updates, more, |leaves|)
  {
    SamePrefixUpdates(h, leaves, more);
    hide UpdateFor;
    var all := signed + updates;
    if Chained(h, all, more) {
      forall j | 0 <= j < |updates| ensures updates[j] == UpdateFor(h, more, |leaves| + j) {
        assert all[|leaves| + j] == updates[j];
      }
    }
    if CalledFor(h, updates, more, |leaves|) {
      forall i | 0 <= i < |all| ensures all[i] == UpdateFor(h, more, i) {
        if i >= |leaves| {
          assert all[i] == updates[i - |leaves|];
        }
      }
    }
  }

  /** A world whose table holds more texts than w, in order, with as many more
      signatures and a new stamp, satisfies the invariant exactly when the tree
      holds their numbers, the stamp is its root, and the signatures are the ones
      that the leaves call for. */
  lemma GrownWorld(h: (int, int) -> int, w: World, texts: seq<string>, grown: World, all: seq<string>,
                   updates: seq<RootUpdate>, root: int)
    requires FieldHash(h) && Consistent(h, w, texts)
    requires texts <= all && |all| <= Capacity() && AllTexts(all) && Holds(grown.enrolled, all)
    requires grown.signed == w.signed + updates && |updates| == |all| - |texts|
    requires FitsHex32(root) && grown.kv == w.kv[CURRENT_ROOT := Hex32(root)]
    ensures Inv(h, grown) <==>
      && grown.tree == TreeOf(h, Values(all)) && root == grown.tree.root
      && CalledFor(h, updates, Values(all), |texts|)
  {
    var leaves, more := Values(texts), Values(all);
    assert leaves == more[..|texts|];
    hide FitsHex32, TreeOf, UpdateFor, Holds, AllTexts, CalledFor, Chained;
    ChainSplits(h, w.signed, updates, leaves, more);
    assert grown.tree == TreeOf(h, more) && root == grown.tree.root && CalledFor(h, updates, more, |texts|)
      ==> Consistent(h, grown, all);
    if Inv(h, grown) {
      InvMeans(h, grown, all, root);
    }
  }

  lemma SamePrefixUpdates(h: (int, int) -> int, leaves: seq<int>, more: seq<int>)
    requires leaves <= more
    ensures forall i :: 0 <= i < |leaves| ==> UpdateFor(h, more, i) == UpdateFor(h, leaves, i)
  {
    hide RootOf;
    forall i | 0 <= i < |leaves| ensures UpdateFor(h, more, i) == UpdateFor(h, leaves, i) {
      assert more[..i] == leaves[..i] && more[..i + 1] == leaves[..i + 1];
    }
  }

  /** The table determines the texts of the invariant, and the stamp its root. */
  lemma InvMeans(h: (int, int) -> int, w: World, texts: seq<string>, root: int)
    requires Inv(h, w) && AllTexts(texts) && Holds(w.enrolled, texts)
    requires FitsHex32(root) && CURRENT_ROOT in w.kv && w.kv[CURRENT_ROOT] == Hex32(root)
    ensures Consistent(h, w, texts) && root == w.tree.root
  {
    hide FitsHex32, TreeOf, Chained;
    var found :| Consistent(h, w, found);
    HeldInOrder(w.enrolled, texts);
    HeldInOrder(w.enrolled, found);
    OrderIsUnique(w.enrolled, texts, found);
    HexRoundTrip(root);
    HexRoundTrip(w.tree.root);
  }

  /** A text beyond the old ones is that of the new row. */
  lemma NewRowIndex(t: Enrolled, texts: seq<string>, c: string, row: Row, found: seq<string>, i: nat)
    requires Holds(t, texts) && Holds(t[c := row], found) && |texts| <= i < |found|
    ensures row.leafIndex == i
  {
    assert found[i] in t[c := row];
  }

  /** A tree with two leaves more and a table with one row more do not agree. */
  lemma ShortTable(h: (int, int) -> int, w: World, texts: seq<string>, grown: World, c: string, row: Row)
    requires Holds(w.enrolled, texts) && grown.enrolled == w.enrolled[c := row]
    requires |grown.tree.Leaves()| == |texts| + 2
    ensures !Inv(h, grown)
  {
    if Inv(h, grown) {
      hide FitsHex32, TreeOf, Chained, Stamped, AllTexts, Holds;
      var found :| Consistent(h, grown, found);
      NewRowIndex(w.enrolled, texts, c, row, found, |texts|);
      NewRowIndex(w.enrolled, texts, c, row, found, |texts| + 1);
    }
  }

  /** The roots of the old tree, of that tree with the leaf of the handler ahead,
      and of that tree with both leaves. */
  function Root0(x: Race): int { RootOf(x.h, x.leaves) }

  function Root1(x: Race): int { RootOf(x.h, x.leaves + [x.la]) }

  function Root2(x: Race): int { RootOf(x.h, x.leaves + [x.la] + [x.lb]) }

  /** Whether the invariant survives a race that the first handler leads. */
  predicate LeadSurvives(x: Race, c: Clock) {
    || c.b.stage in {TurnedAway, Overflowed}
    || (c.a.stage == Enrolled && c.b.stage == Enrolled
        && if c.winner == First then c.a.atRoot == First || Root1(x) == Root2(x)
           else x.la == x.lb && Root0(x) == Root1(x) == Root2(x))
  }

  predicate Survives(x: Race, c: Clock) {
    match c.ahead
    case Nobody => c.last == c.winner || x.la == x.lb
    case First => LeadSurvives(x, c)
    case Second => LeadSurvives(x.Mirrored(), Mirror(c))
  }

  /** A world with one more row, one more signature and a new stamp. */
  function Gains(w: World, q: Request, index: int, update: RootUpdate): World
    requires FitsHex32(update.newRoot)
  {
    World(w.enrolled[q.commitment := Row(index, q.now, q.blindedInput)],
          w.kv[CURRENT_ROOT := Hex32(update.newRoot)], w.tree, w.signed + [update])
  }

  lemma AddGains(x: Race, c: Clock, w: World)
    requires FitsHex32(FirstRoot(x, c))
    ensures AddFirst(x, c, w)
         == Gains(w, x.qa, FirstIndex(x, c), RootUpdate(RootOf(x.h, FirstBase(x, c)), FirstRoot(x, c), x.la))
  {
    hide FitsHex32, FirstRoot, FirstIndex, FirstBase, RootOf;
  }

  lemma OneMore(x: Race, texts: seq<string>) returns (leaves: seq<int>)
    requires Fair(x, texts)
    ensures AllTexts(texts + [x.qa.commitment]) && leaves == Values(texts + [x.qa.commitment]) == x.leaves + [x.la]
    ensures |leaves| == |texts| + 1 && UpdateFor(x.h, leaves, |texts|) == RootUpdate(Root0(x), Root1(x), x.la)
  {
    AllNumbersFit(x, texts);
    leaves := x.leaves + [x.la];
    ValuesAppend(texts, x.qa.commitment);
    hide FitsHex32, RootOf, Consistent, FieldHash;
    assert leaves[..|texts|] == x.leaves && leaves[..|texts| + 1] == leaves;
  }

  /** GrownWorld for one new row. */
  lemma OneRowMore(x: Race, texts: seq<string>, w: World, r: int)
    requires Fair(x, texts) && FitsHex32(r)
    requires w == Gains(x.w, x.qa, |texts|, RootUpdate(Root0(x), r, x.la)).(tree := w.tree)
    ensures Inv(x.h, w) <==> w.tree == TreeOf(x.h, x.leaves + [x.la]) && r == w.tree.root
  {
    AllNumbersFit(x, texts);
    var q, updates := x.qa, [RootUpdate(Root0(x), r, x.la)];
    var leaves := OneMore(x, texts);
    HoldsMore(x.w.enrolled, texts, q.commitment, Row(|texts|, q.now, q.blindedInput));
    assert w.tree == TreeOf(x.h, leaves) ==> w.tree.root == Root1(x);
    hide FitsHex32, UpdateFor, Holds, Admissible, AllTexts, Hex32, TreeOf, RootOf, CalledFor, AllFit;
    GrownWorld(x.h, x.w, texts, w, texts + [q.commitment], updates, r);
    CalledForOne(x.h, updates, leaves, |texts|);
    hide Consistent;
  }

  lemma CalledForOne(h: (int, int) -> int, updates: seq<RootUpdate>, leaves: seq<int>, from: nat)
    requires |updates| == 1 && |leaves| == from + 1
    ensures CalledFor(h, updates, leaves, from) <==> updates[0] == UpdateFor(h, leaves, from)
  {
    hide UpdateFor;
  }

  lemma OneRow(x: Race, texts: seq<string>, c: Clock, w: World)
    requires Fair(x, texts) && FirstIndex(x, c) == |x.leaves| && FirstBase(x, c) == x.leaves
    requires w == AddFirst(x, c, x.w).(tree := w.tree)
    ensures Inv(x.h, w) <==>
      w.tree == TreeOf(x.h, x.leaves + [x.la]) && FirstRoot(x, c) == w.tree.root
  {
    AllNumbersFit(x, texts);
    HeldFits(x, texts, c.ahead, c.a.atRoot);
    AddGains(x, c, x.w);
    hide FitsHex32, FirstIndex, AddFirst, Hex32, Fair, TreeOf, Held, AllFit;
    assert FitsHex32(FirstRoot(x, c));
    hide FirstRoot;
    OneRowMore(x, texts, w, FirstRoot(x, c));
  }

  /** Nobody is ahead: one is enrolled, and the tree ends in the leaf of the one
      that assigned it last. */
  lemma TogetherVerdict(x: Race, texts: seq<string>, c: Clock, s: Pair)
    requires Fair(x, texts) && Shows(x, c, s) && Done(c.a.stage) && Done(c.b.stage)
    requires c.ahead == Nobody && c.winner == First
    ensures Inv(x.h, s.world) <==> c.last == c.winner || x.la == x.lb
  {
    assert c.b.stage == Refused && c.last != Nobody;
    assert SawTree(c, c.a.atRoot) && FirstIndex(x, c) == |x.leaves|;
    OneRow(x, texts, c, s.world);
    TreesDiffer(x.h, x.leaves, x.la, x.lb);
    hide FitsHex32, TreeOf, Fair, OnItsWay, Half;
  }

  lemma TreesDiffer(h: (int, int) -> int, leaves: seq<int>, a: int, b: int)
    ensures TreeOf(h, leaves + [a]) == TreeOf(h, leaves + [b]) <==> a == b
  {
    assert TreeOf(h, leaves + [a]).Leaves()[|leaves|] == a;
    assert TreeOf(h, leaves + [b]).Leaves()[|leaves|] == b;
  }

  /** The follower never assigned: it came too late, or did not fit. */
  lemma SoloVerdict(x: Race, texts: seq<string>, c: Clock, s: Pair)
    requires Fair(x, texts) && Shows(x, c, s) && Done(c.a.stage) && c.ahead == First
    requires c.b.stage in {TurnedAway, Overflowed}
    ensures Inv(x.h, s.world)
  {
    assert c.a.stage == Enrolled && c.winner == First && c.last == First;
    assert c.a.atRoot == First && c.a.atIndex == First;
    OneRow(x, texts, c, s.world);
  }

  lemma TwoUpdates(h: (int, int) -> int, leaves: seq<int>, a: int, b: int)
    ensures var all := leaves + [a] + [b];
      && UpdateFor(h, all, |leaves|) == RootUpdate(RootOf(h, leaves), RootOf(h, leaves + [a]), a)
      && UpdateFor(h, all, |leaves| + 1) == RootUpdate(RootOf(h, leaves + [a]), RootOf(h, all), b)
  {
    hide RootOf;
    var all := leaves + [a] + [b];
    assert all[..|leaves|] == leaves && all[..|leaves| + 1] == leaves + [a] && all[..|leaves| + 2] == all;
  }

  /** The leaves of both requests, in order. */
  lemma TwoMore(x: Race, texts: seq<string>) returns (leaves: seq<int>)
    requires Fair(x, texts)
    ensures var all := texts + [x.qa.commitment, x.qb.commitment];
      AllTexts(all) && leaves == Values(all) == x.leaves + [x.la] + [x.lb]
    ensures UpdateFor(x.h, leaves, |texts|) == RootUpdate(Root0(x), Root1(x), x.la)
    ensures UpdateFor(x.h, leaves, |texts| + 1) == RootUpdate(Root1(x), Root2(x), x.lb)
  {
    AllNumbersFit(x, texts);
    leaves := x.leaves + [x.la] + [x.lb];
    TwoUpdates(x.h, x.leaves, x.la, x.lb);
    assert AllTexts(texts) && IsHex32(x.qa.commitment) && IsHex32(x.qb.commitment) && x.leaves == Values(texts);
    assert x.la == ValueOf(x.qa.commitment) && x.lb == ValueOf(x.qb.commitment);
    hide FitsHex32, RootOf, Fair, IsHex32, ValueOf, UpdateFor, AllFit;
    ValuesAppend(texts, x.qa.commitment);
    ValuesAppend(texts + [x.qa.commitment], x.qb.commitment);
    hide AllTexts, Values;
    assert texts + [x.qa.commitment] + [x.qb.commitment] == texts + [x.qa.commitment, x.qb.commitment];
  }

  /** Both rows, in either order of insertion, continue the table. */
  lemma TwoRowTable(t: Enrolled, texts: seq<string>, c: string, row: Row, d: string, next: Row)
    requires Holds(t, texts) && c !in t && d !in t && c != d
    requires row.leafIndex == |texts| && next.leafIndex == |texts| + 1
    ensures Holds(t[c := row][d := next], texts + [c, d]) && t[c := row][d := next] == t[d := next][c := row]
  {
    HoldsMore(t, texts, c, row);
    HoldsMore(t[c := row], texts + [c], d, next);
    hide Holds;
    assert texts + [c] + [d] == texts + [c, d];
  }

  /** The leader read its index before the follower assigned the tree; the
      follower's index and root are those of the tree with both leaves. */
  ghost predicate BothRows(x: Race, c: Clock) {
    && !x.Same() && !x.Tight() && c.ahead == First && c.a.atIndex == First && c.a.atRoot != Nobody
    && c.b.atIndex == Second && c.b.atRoot == Second
  }

  lemma BothRowsMean(x: Race, texts: seq<string>, c: Clock)
    requires Fair(x, texts) && BothRows(x, c)
    ensures FirstIndex(x, c) == |texts| && FirstIndex(x.Mirrored(), Mirror(c)) == |texts| + 1
    ensures FirstBase(x, c) == x.leaves && FirstBase(x.Mirrored(), Mirror(c)) == x.leaves + [x.la]
    ensures FirstRoot(x, c) == if c.a.atRoot == First then Root1(x) else Root2(x)
    ensures FirstRoot(x.Mirrored(), Mirror(c)) == Root2(x)
    ensures FitsHex32(FirstRoot(x, c)) && FitsHex32(Root2(x)) && |texts| + 2 <= Capacity()
  {
    AllNumbersFit(x, texts);
    HeldFits(x, texts, First, c.a.atRoot);
    HeldFits(x, texts, First, Second);
    hide FitsHex32, RootOf, TreeOf;
  }

  lemma GainsTwice(w: World, q: Request, i: int, u: RootUpdate, p: Request, j: int, v: RootUpdate)
    requires FitsHex32(u.newRoot) && FitsHex32(v.newRoot)
    ensures Gains(Gains(w, q, i, u), p, j, v)
         == World(w.enrolled[q.commitment := Row(i, q.now, q.blindedInput)]
                            [p.commitment := Row(j, p.now, p.blindedInput)],
                  w.kv[CURRENT_ROOT := Hex32(v.newRoot)], w.tree, w.signed + [u, v])
  {
    hide FitsHex32, Hex32;
    assert w.signed + [u] + [v] == w.signed + [u, v];
  }

  /** The disk after both inserts. */
  lemma BothRowsDisk(x: Race, texts: seq<string>, c: Clock)
    requires Fair(x, texts) && BothRows(x, c)
    ensures var r := FirstRoot(x, c);
      var u, v := RootUpdate(Root0(x), r, x.la), RootUpdate(Root1(x), Root2(x), x.lb);
      var row, next := Row(|texts|, x.qa.now, x.qa.blindedInput), Row(|texts| + 1, x.qb.now, x.qb.blindedInput);
      var table := x.w.enrolled[x.qa.commitment := row][x.qb.commitment := next];
      && FitsHex32(r) && FitsHex32(Root2(x))
      && Holds(table, texts + [x.qa.commitment, x.qb.commitment])
      && AddSecond(x, c, AddFirst(x, c, x.w))
         == World(table, x.w.kv[CURRENT_ROOT := Hex32(Root2(x))], x.w.tree, x.w.signed + [u, v])
      && AddFirst(x, c, AddSecond(x, c, x.w))
         == World(table, x.w.kv[CURRENT_ROOT := Hex32(r)], x.w.tree, x.w.signed + [v, u])
  {
    BothRowsMean(x, texts, c);
    var a, b, n := x.qa, x.qb, |texts|;
    TwoRowTable(x.w.enrolled, texts, a.commitment, Row(n, a.now, a.blindedInput),
                b.commitment, Row(n + 1, b.now, b.blindedInput));
    hide FitsHex32, FirstRoot, FirstBase, FirstIndex, Holds, Consistent, Admissible, RootOf, AddFirst, Gains;
    var y, d := x.Mirrored(), Mirror(c);
    var u, v := RootUpdate(Root0(x), FirstRoot(x, c), x.la), RootUpdate(Root1(x), Root2(x), x.lb);
    AddGains(x, c, x.w);
    AddGains(y, d, AddFirst(x, c, x.w));
    AddGains(y, d, x.w);
    AddGains(x, c, AddFirst(y, d, x.w));
    GainsTwice(x.w, a, n, u, b, n + 1, v);
    GainsTwice(x.w, b, n + 1, v, a, n, u);
  }

  /** GrownWorld for two new rows. */
  lemma TwoRows(x: Race, texts: seq<string>, w: World, u: RootUpdate, v: RootUpdate, root: int)
    requires Fair(x, texts) && !x.Tight() && Holds(w.enrolled, texts + [x.qa.commitment, x.qb.commitment])
    requires w.tree == TreeOf(x.h, x.leaves + [x.la] + [x.lb]) && w.signed == x.w.signed + [u, v]
    requires FitsHex32(root) && w.kv == x.w.kv[CURRENT_ROOT := Hex32(root)]
    ensures Inv(x.h, w) <==>
      && root == Root2(x)
      && u == RootUpdate(Root0(x), Root1(x), x.la) && v == RootUpdate(Root1(x), Root2(x), x.lb)
  {
    AllNumbersFit(x, texts);
    var leaves := TwoMore(x, texts);
    var all, updates := texts + [x.qa.commitment, x.qb.commitment], [u, v];
    assert w.tree.root == Root2(x);
    hide FitsHex32, Holds, Admissible, AllTexts, UpdateFor, TreeOf, RootOf;
    GrownWorld(x.h, x.w, texts, w, all, updates, root);
    hide Consistent;
    assert updates[0] == u && updates[1] == v;
  }

  /** Both are enrolled, the leader first: the chain is right exactly when the
      leader's new root is that of its own tree. */
  lemma InOrderVerdict(x: Race, texts: seq<string>, c: Clock, w: World)
    requires Fair(x, texts) && BothRows(x, c)
    requires w.tree == TreeOf(x.h, x.leaves + [x.la] + [x.lb])
    requires w == AddSecond(x, c, AddFirst(x, c, x.w)).(tree := w.tree)
    ensures Inv(x.h, w) <==> c.a.atRoot == First || Root1(x) == Root2(x)
  {
    BothRowsMean(x, texts, c);
    BothRowsDisk(x, texts, c);
    hide FitsHex32, FirstRoot, FirstBase, FirstIndex, Holds, Fair, TreeOf, RootOf, AddFirst, AddSecond;
    hide Root0, Root1, Root2;
    TwoRows(x, texts, w, RootUpdate(Root0(x), FirstRoot(x, c), x.la), RootUpdate(Root1(x), Root2(x), x.lb), Root2(x));
  }

  /** Both are enrolled, the follower first. */
  lemma ReversedVerdict(x: Race, texts: seq<string>, c: Clock, w: World)
    requires Fair(x, texts) && BothRows(x, c)
    requires w.tree == TreeOf(x.h, x.leaves + [x.la] + [x.lb])
    requires w == AddFirst(x, c, AddSecond(x, c, x.w)).(tree := w.tree)
    ensures Inv(x.h, w) <==> x.la == x.lb && Root0(x) == Root1(x) == Root2(x)
  {
    BothRowsMean(x, texts, c);
    BothRowsDisk(x, texts, c);
    hide FitsHex32, FirstRoot, FirstBase, FirstIndex, Holds, Fair, TreeOf, RootOf, AddFirst, AddSecond;
    hide Root0, Root1, Root2;
    TwoRows(x, texts, w, RootUpdate(Root1(x), Root2(x), x.lb), RootUpdate(Root0(x), FirstRoot(x, c), x.la),
            FirstRoot(x, c));
  }

  /** The follower assigned the tree behind the leader. */
  lemma LeadVerdict(x: Race, texts: seq<string>, c: Clock, s: Pair)
    requires Fair(x, texts) && Shows(x, c, s) && Done(c.a.stage) && Done(c.b.stage) && c.ahead == First
    ensures Inv(x.h, s.world) <==> LeadSurvives(x, c)
  {
    if c.b.stage in {TurnedAway, Overflowed} {
      SoloVerdict(x, texts, c, s);
    } else if c.a.stage == Enrolled && c.b.stage == Enrolled {
      BothRowsWhen(x, c);
      hide FitsHex32, Fair, OnItsWay, Half, AddFirst, RootOf, TreeOf;
      if c.winner == First {
        InOrderVerdict(x, texts, c, s.world);
      } else {
        ReversedVerdict(x, texts, c, s.world);
      }
    } else {
      OnlyOneRow(x, texts, c, s);
    }
  }

  lemma BothRowsWhen(x: Race, c: Clock)
    requires Possible(c, x.Same(), x.Tight()) && c.ahead == First && c.a.stage == Enrolled && c.b.stage == Enrolled
    ensures BothRows(x, c) && c.winner != Nobody && Held(x, c.ahead, c.last) == x.leaves + [x.la] + [x.lb]
  {
    hide Capacity;
  }

  lemma OnlyOneRow(x: Race, texts: seq<string>, c: Clock, s: Pair)
    requires Fair(x, texts) && Shows(x, c, s) && Done(c.a.stage) && Done(c.b.stage) && c.ahead == First
    requires c.b.stage !in {TurnedAway, Overflowed} && !(c.a.stage == Enrolled && c.b.stage == Enrolled)
    ensures !Inv(x.h, s.world)
  {
    AllNumbersFit(x, texts);
    assert Holds(x.w.enrolled, texts);
    var held := Held(x, c.ahead, c.last);
    assert held == x.leaves + [x.la] + [x.lb];
    assert s.world.tree.Leaves() == held;
    hide FitsHex32, Fair, OnItsWay, RootOf, TreeOf, Stamp, FirstIndex, FirstRoot, Held, Holds, OneIndex, SawTree;
    if c.winner == First {
      ShortTable(x.h, x.w, texts, s.world, x.qa.commitment, Row(FirstIndex(x, c), x.qa.now, x.qa.blindedInput));
    } else {
      ShortTable(x.h, x.w, texts, s.world, x.qb.commitment,
                 Row(FirstIndex(x.Mirrored(), Mirror(c)), x.qb.now, x.qb.blindedInput));
    }
  }

  lemma Verdict(x: Race, texts: seq<string>, c: Clock, s: Pair)
    requires Fair(x, texts) && Shows(x, c, s) && Done(c.a.stage) && Done(c.b.stage)
    ensures Inv(x.h, s.world) <==> Survives(x, c)
  {
    assert Fair(x.Mirrored(), texts);
    assert c.ahead == Nobody ==> c.winner != Nobody;
    hide Fair, Shows, LeadSurvives;
    ShowsIsSymmetric(x, c, s);
    match c.ahead
    case Nobody =>
      if c.winner == First {
        TogetherVerdict(x, texts, c, s);
      } else {
        TogetherVerdict(x.Mirrored(), texts, Mirror(c), Swap(s));
      }
    case First => LeadVerdict(x, texts, c, s);
    case Second => LeadVerdict(x.Mirrored(), texts, Mirror(c), Swap(s));
  }

  // ----- complete schedules --------------------------------------------------------------------------------------

  function Count(schedule: seq<bool>, first: bool): nat {
    if schedule == [] then 0 else (if schedule[0] == first then 1 else 0) + Count(schedule[1..], first)
  }

  const STRETCHES: nat := 5

  function Rank(s: Stage): nat {
    match s
    case Idle => 0
    case Copied => 1
    case Assigned => 2
    case Indexed => 3
    case Rooted => 4
    case _ => 5
  }

  lemma TickAdvances(c: Clock, same: bool, tight: bool, first: bool)
    ensures var d := Tick(c, same, tight, first);
      && Rank(d.a.stage) >= Rank(c.a.stage) && Rank(d.b.stage) >= Rank(c.b.stage)
      && (first && Rank(c.a.stage) < 5 ==> Rank(d.a.stage) > Rank(c.a.stage))
      && (!first && Rank(c.b.stage) < 5 ==> Rank(d.b.stage) > Rank(c.b.stage))
  {}

  lemma {:induction false} EnoughTurns(c: Clock, same: bool, tight: bool, schedule: seq<bool>)
    ensures var d := Ticks(c, same, tight, schedule);
      && (Rank(c.a.stage) + Count(schedule, true) >= STRETCHES ==> Done(d.a.stage))
      && (Rank(c.b.stage) + Count(schedule, false) >= STRETCHES ==> Done(d.b.stage))
    decreases |schedule|
  {
    if schedule != [] {
      TickAdvances(c, same, tight, schedule[0]);
      hide Tick;
      EnoughTurns(Tick(c, same, tight, schedule[0]), same, tight, schedule[1..]);
    }
  }

  /** Every schedule with enough turns for both. */
  ghost predicate Complete(schedule: seq<bool>) {
    Count(schedule, true) >= STRETCHES && Count(schedule, false) >= STRETCHES
  }

  function AfterAll(x: Race, schedule: seq<bool>): Pair {
    Turns(x.h, Pair(x.w, Waiting, Waiting), x.qa, x.qb, schedule)
  }

  function ClockAfter(x: Race, schedule: seq<bool>): Clock { Ticks(START, x.Same(), x.Tight(), schedule) }

  /** What a handler answers. */
  ghost predicate Answers(s: Stage, p: Progress) {
    match s
    case Enrolled => p.Answered? && p.reply.Registered?
    case TurnedAway => p == Answered(AlreadyEnrolled)
    case Refused => p == Answered(AlreadyEnrolled)
    case Overflowed => p == Answered(Failed)
    case _ => false
  }

  lemma AnswersAndTable(x: Race, texts: seq<string>, c: Clock, s: Pair)
    requires Fair(x, texts) && Shows(x, c, s) && Done(c.a.stage) && Done(c.b.stage)
    ensures Answers(c.a.stage, s.a) && Answers(c.b.stage, s.b)
    ensures x.qa.commitment in s.world.enrolled <==> c.a.stage == Enrolled || (x.Same() && c.b.stage == Enrolled)
    ensures x.qb.commitment in s.world.enrolled <==> c.b.stage == Enrolled || (x.Same() && c.a.stage == Enrolled)
  {
    hide Consistent, FieldHash, Admissible, TreeOf, Held, FirstIndex, FirstRoot, FirstBase, RootOf, Stamp;
    hide OneIndex, SawTree, FitsHex32, AllFit;
  }

  /** Two registrations, each of which would be accepted alone, under every
      schedule that lets both answer. The clock, which is read off the schedule,
      tells both answers; a row is in the table exactly for who is Enrolled; and
      the invariant survives exactly when Survives says so:
      - if both copied the leaves before either assigned the tree, when the one
        that is enrolled assigned it last, or both numbers are equal;
      - if one assigned before the other copied, when the follower never assigned,
        or both were enrolled, the leader first and with the root of its own tree.
        (Roots that coincide can hide the disorder.) */
  lemma OverlapOutcome(x: Race, texts: seq<string>, schedule: seq<bool>)
    requires Fair(x, texts) && Complete(schedule)
    ensures var s, c := AfterAll(x, schedule), ClockAfter(x, schedule);
      && Answers(c.a.stage, s.a) && Answers(c.b.stage, s.b)
      && (x.qa.commitment in s.world.enrolled <==> c.a.stage == Enrolled || (x.Same() && c.b.stage == Enrolled))
      && (x.qb.commitment in s.world.enrolled <==> c.b.stage == Enrolled || (x.Same() && c.a.stage == Enrolled))
      && (Inv(x.h, s.world) <==> Survives(x, c))
  {
    var s, c := AfterAll(x, schedule), ClockAfter(x, schedule);
    assert Rank(START.a.stage) == 0 && Rank(START.b.stage) == 0;
    hide Fair, Turns, Ticks, Survives, Inv, Shows, Rank;
    StartShows(x, texts);
    ScheduleTicks(x, texts, START, Pair(x.w, Waiting, Waiting), schedule);
    EnoughTurns(START, x.Same(), x.Tight(), schedule);
    Verdict(x, texts, c, s);
    AnswersAndTable(x, texts, c, s);
  }

  lemma {:induction false} ClockIsPossible(c: Clock, same: bool, tight: bool, schedule: seq<bool>)
    requires Possible(c, same, tight)
    ensures Possible(Ticks(c, same, tight, schedule), same, tight)
    decreases |schedule|
  {
    if schedule != [] {
      TickIsPossible(c, same, tight);
      TickIsPossible(Mirror(c), same, tight);
      MirrorTwice(c);
      MirrorTwice(TickFirst(Mirror(c), same, tight));
      hide Half, TickFirst;
      ClockIsPossible(Tick(c, same, tight, schedule[0]), same, tight, schedule[1..]);
    }
  }

  lemma BothUnlessOneIndex(c: Clock)
    requires Possible(c, false, false) && Done(c.a.stage) && Done(c.b.stage)
    ensures c.a.stage == Enrolled && c.b.stage == Enrolled <==> !OneIndex(c)
    ensures c.ahead == First && c.a.atRoot == First ==> !OneIndex(c)
    ensures c.ahead == Second && c.b.atRoot == Second ==> !OneIndex(c)
    ensures c.winner != Nobody && c.a.stage !in {TurnedAway, Overflowed} && c.b.stage !in {TurnedAway, Overflowed}
  {}

  /** OverlapOutcome for different numbers, room for both, and roots that differ:
      both are accepted, unless both have read one index; and the invariant
      survives exactly when the last to assign is the one enrolled, or the one
      ahead reads its root before the other assigns and is enrolled first. */
  lemma OverlapPlainly(x: Race, texts: seq<string>, schedule: seq<bool>)
    requires Fair(x, texts) && Complete(schedule) && !x.Tight() && x.la != x.lb
    requires Root1(x) != Root2(x) && Root1(x.Mirrored()) != Root2(x.Mirrored())
    ensures var s, c := AfterAll(x, schedule), ClockAfter(x, schedule);
      && (s.a.Answered? && s.b.Answered?)
      && (s.a.reply.Registered? && s.b.reply.Registered? <==> !OneIndex(c))
      && (Inv(x.h, s.world) <==>
            match c.ahead
            case Nobody => c.last == c.winner
            case First => c.a.atRoot == First && c.winner == First
            case Second => c.b.atRoot == Second && c.winner == Second)
  {
    OverlapOutcome(x, texts, schedule);
    assert !x.Same();
    var c := ClockAfter(x, schedule);
    hide Fair, Turns, Inv, TickFirst, RootOf, AfterAll, Possible, Ticks;
    StartIsPossible(false, false);
    ClockIsPossible(START, false, false, schedule);
    EnoughTurns(START, false, false, schedule);
    BothUnlessOneIndex(c);
    hide OneIndex;
  }

  // ----- two traces ----------------------------------------------------------------------------------------------

  /** n turns of one handler in front of a schedule. */
  function Then(first: bool, n: nat, rest: seq<bool>): seq<bool> {
    if n == 0 then rest else [first] + Then(first, n - 1, rest)
  }

  function Repeat(c: Clock, same: bool, tight: bool, first: bool, n: nat): Clock
    decreases n
  {
    if n == 0 then c else Repeat(Tick(c, same, tight, first), same, tight, first, n - 1)
  }

  lemma {:induction false} ThenRepeats(c: Clock, same: bool, tight: bool, first: bool, n: nat, rest: seq<bool>)
    ensures Ticks(c, same, tight, Then(first, n, rest)) == Ticks(Repeat(c, same, tight, first, n), same, tight, rest)
    decreases n
  {
    hide Tick;
    if n > 0 {
      ThenRepeats(Tick(c, same, tight, first), same, tight, first, n - 1, rest);
      assert Then(first, n, rest)[1..] == Then(first, n - 1, rest);
    }
  }

  lemma {:induction false} ThenCounts(first: bool, n: nat, rest: seq<bool>, who: bool)
    ensures Count(Then(first, n, rest), who) == Count(rest, who) + if first == who then n else 0
  {
    if n > 0 {
      ThenCounts(first, n - 1, rest, who);
      assert Then(first, n, rest)[1..] == Then(first, n - 1, rest);
    }
  }

  /** i turns of the first, j of the second, k of the first, l of the second. */
  function Zigzag(i: nat, j: nat, k: nat, l: nat): seq<bool> {
    Then(true, i, Then(false, j, Then(true, k, Then(false, l, []))))
  }

  lemma ZigzagTicks(same: bool, tight: bool, i: nat, j: nat, k: nat, l: nat)
    ensures Complete(Zigzag(i, j, k, l)) <==> i + k >= STRETCHES && j + l >= STRETCHES
    ensures Ticks(START, same, tight, Zigzag(i, j, k, l))
         == Repeat(Repeat(Repeat(Repeat(START, same, tight, true, i), same, tight, false, j), same, tight, true, k),
                   same, tight, false, l)
  {
    var last := Then(false, l, []);
    var third := Then(true, k, last);
    var second := Then(false, j, third);
    forall who: bool ensures Count(Zigzag(i, j, k, l), who) == if who then i + k else j + l {
      ThenCounts(false, l, [], who);
      ThenCounts(true, k, last, who);
      ThenCounts(false, j, third, who);
      ThenCounts(true, i, second, who);
    }
    hide Repeat, Then;
    var c := Repeat(START, same, tight, true, i);
    var d := Repeat(c, same, tight, false, j);
    ThenRepeats(START, same, tight, true, i, second);
    ThenRepeats(c, same, tight, false, j, third);
    ThenRepeats(d, same, tight, true, k, last);
    ThenRepeats(Repeat(d, same, tight, true, k), same, tight, false, l, []);
  }

  lemma ReplacingClock(same: bool, tight: bool)
    ensures Repeat(Repeat(Repeat(Repeat(START, same, tight, true, 1), same, tight, false, 1), same, tight, true, 4),
                   same, tight, false, 4)
         == Clock(Seen(Enrolled, First, First), Seen(Refused, Second, Second), Nobody, Second, First)
  {}

  /** Both copy, then the first finishes, then the second: the second is refused,
      and its leaf has replaced the first's. */
  lemma RefusedLeafStays(x: Race, texts: seq<string>)
    requires Fair(x, texts) && x.la != x.lb
    ensures var s := AfterAll(x, Zigzag(1, 1, 4, 4));
      && s.a.Answered? && s.a.reply.Registered? && s.b == Answered(AlreadyEnrolled)
      && s.world.tree == TreeOf(x.h, x.leaves + [x.lb])
      && !Inv(x.h, s.world)
  {
    var schedule := Zigzag(1, 1, 4, 4);
    ZigzagTicks(x.Same(), x.Tight(), 1, 1, 4, 4);
    ReplacingClock(x.Same(), x.Tight());
    hide Zigzag, Repeat, Fair, TreeOf, Inv, Turns, Ticks, OnItsWay, Possible, Disk;
    OverlapOutcome(x, texts, schedule);
    StartShows(x, texts);
    ScheduleTicks(x, texts, START, Pair(x.w, Waiting, Waiting), schedule);
  }

  lemma OvertakingClock()
    ensures Repeat(Repeat(Repeat(Repeat(START, false, false, true, 3), false, false, false, 5), false, false, true, 2),
                   false, false, false, 0)
         == OVERTAKEN
  {}

  const OVERTAKEN := Clock(Seen(Enrolled, First, Second), Seen(Enrolled, Second, Second), First, Second, Second)

  lemma OvertakenSignatures(x: Race)
    ensures Disk(x, OVERTAKEN).signed
         == x.w.signed + [RootUpdate(Root1(x), Root2(x), x.lb), RootUpdate(Root0(x), Root2(x), x.la)]
  {
    var c := OVERTAKEN;
    assert FirstBase(x, c) == x.leaves && FirstBase(x.Mirrored(), Mirror(c)) == x.leaves + [x.la];
    assert Held(x, First, Second) == x.leaves + [x.la] + [x.lb] == Held(x.Mirrored(), Second, First);
    hide FirstBase, FirstIndex, Stamp, RootOf;
    var u, v := RootUpdate(Root1(x), Root2(x), x.lb), RootUpdate(Root0(x), Root2(x), x.la);
    assert x.w.signed + [u] + [v] == x.w.signed + [u, v];
  }

  /** The first reads its index, the second copies that tree and finishes, then the
      first: both are accepted, and the signed updates are out of order. */
  lemma ChainOutOfOrder(x: Race, texts: seq<string>)
    requires Fair(x, texts) && !x.Tight() && x.la != x.lb
    ensures var s := AfterAll(x, Zigzag(3, 5, 2, 0));
      && s.a.Answered? && s.a.reply.Registered? && s.b.Answered? && s.b.reply.Registered?
      && s.world.signed == x.w.signed + [RootUpdate(Root1(x), Root2(x), x.lb), RootUpdate(Root0(x), Root2(x), x.la)]
      && !Inv(x.h, s.world)
  {
    var schedule := Zigzag(3, 5, 2, 0);
    assert !x.Same();
    ZigzagTicks(false, false, 3, 5, 2, 0);
    OvertakingClock();
    hide Zigzag, Repeat, Fair, TreeOf, Inv, Turns, Ticks, OnItsWay, Possible, RootOf, Capacity, Disk;
    OverlapOutcome(x, texts, schedule);
    StartShows(x, texts);
    ScheduleTicks(x, texts, START, Pair(x.w, Waiting, Waiting), schedule);
    OvertakenSignatures(x);
  }

  // ----- a path request that is overtaken ---------------------------------------------------------------------------

  /** A path handler that resumes in another world serves the path of the tree it
      began with and the root of the tree it ends with: what it serves proves the
      commitment exactly when the root has not changed. */
  lemma OvertakenPath(h: (int, int) -> int, w: World, texts: seq<string>, c: string, later: World)
    requires FieldHash(h) && Consistent(h, w, texts) && IsHex32(c) && c in w.enrolled
    requires FitsHex32(later.tree.root)
    ensures var r := PathEnd(later, PathBegin(h, w, c));
      && r.Served? && r.leafIndex == w.enrolled[c].leafIndex && r.root == Hex32(later.tree.root)
      && |r.path| == |r.indices| && AllTexts(r.path)
      && Walk(h, ValueOf(c), Values(r.path), r.indices) == w.tree.root
      && (Walk(h, ValueOf(c), Values(r.path), r.indices) == ValueOf(r.root) <==> later.tree.root == w.tree.root)
  {
    PathFoldsToRoot(h, w, texts, c);
    HexRoundTrip(later.tree.root);
    hide Consistent, FitsHex32, IsHex32, Hex32, ValueOf, Walk, FieldHash;
  }

  /** Overtaken by an uninterrupted registration, it serves a path to the old root
      under the new one. */
  lemma PathOvertakenByRegistration(h: (int, int) -> int, w: World, texts: seq<string>, c: string, q: Request)
    requires FieldHash(h) && Consistent(h, w, texts) && |texts| < Capacity()
    requires IsHex32(c) && c in w.enrolled && Admissible(h, q) && q.commitment !in w.enrolled
    ensures var later := Drive(h, w, q, Waiting).world;
      var r := PathEnd(later, PathBegin(h, w, c));
      && r.Served? && |r.path| == |r.indices| && AllTexts(r.path)
      && CURRENT_ROOT in later.kv && r.root == later.kv[CURRENT_ROOT]
      && (Walk(h, ValueOf(c), Values(r.path), r.indices) == ValueOf(r.root)
          <==> RootOf(h, Values(texts)) == RootOf(h, Values(texts) + [ValueOf(q.commitment)]))
  {
    DriveAccepts(h, w, texts, q);
    AcceptedIsConsistent(h, w, texts, q);
    var later := Drive(h, w, q, Waiting).world;
    assert FitsHex32(later.tree.root) && later.tree.root == RootOf(h, Values(texts) + [ValueOf(q.commitment)]);
    assert later.kv[CURRENT_ROOT] == Hex32(later.tree.root) && w.tree.root == RootOf(h, Values(texts));
    hide Drive, FitsHex32, Consistent, TreeOf, Admissible, PathBegin, PathEnd, FieldHash;
    OvertakenPath(h, w, texts, c, later);
  }
}
