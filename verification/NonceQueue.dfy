/** The relayer's write queue: sends run one after the other and share one cached
    nonce, against a chain that may accept a write and still report an error. That
    the program's promises keep this order is shown in PromiseQueue.

    The chain is modelled by the transactions it has accepted from the relayer's
    key, which nothing else uses; its pending count is exact, and a write is
    accepted, if at all, before it settles. */
module NonceQueue {
  /** The cached nonce; unknown at first and after every failed write. */
  datatype Cached = Unknown | Known(nonce: int)

  datatype Outcome = Resolved | Rejected

  /** A send waits for the one before it, reads the pending count if no nonce
      is cached, writes with its nonce, and settles. */
  datatype Run = Waiting | Reading | Writing(nonce: int, accepted: bool) | Settled(outcome: Outcome)

  datatype Tx = Tx(run: nat, nonce: int)

  /** runs are in submission order; first is the key's nonce at the start. */
  datatype State = State(runs: seq<Run>, nextNonce: Cached, txs: seq<Tx>, first: int)

  datatype Event =
    | Submit                  // sendTx is called
    | Start(k: nat)           // the previous promise settled, the callback runs
    | CountRead(k: nat)       // getTransactionCount resolves
    | CountFailed(k: nat)     // getTransactionCount rejects
    | Accept(k: nat)          // the chain accepts the write in flight
    | WriteResolved(k: nat)   // writeContract resolves with a hash
    | WriteFailed(k: nat)     // writeContract rejects

  function Pending(s: State): int { s.first + |s.txs| }

  /** When an event can happen. A write resolves only once it is accepted. */
  predicate Enabled(s: State, e: Event) {
    match e
    case Submit => true
    case Start(k) => k < |s.runs| && s.runs[k] == Waiting && (k == 0 || s.runs[k - 1].Settled?)
    case CountRead(k) => k < |s.runs| && s.runs[k] == Reading
    case CountFailed(k) => k < |s.runs| && s.runs[k] == Reading
    case Accept(k) => k < |s.runs| && s.runs[k].Writing? && !s.runs[k].accepted
    case WriteResolved(k) => k < |s.runs| && s.runs[k].Writing? && s.runs[k].accepted
    case WriteFailed(k) => k < |s.runs| && s.runs[k].Writing?
  }

  function Next(s: State, e: Event): State
    requires Enabled(s, e)
  {
    match e
    case Submit => s.(runs := s.runs + [Waiting])
    case Start(k) =>
      s.(runs := s.runs[k := match s.nextNonce case Unknown => Reading case Known(n) => Writing(n, false)])
    case CountRead(k) =>
      s.(runs := s.runs[k := Writing(Pending(s), false)], nextNonce := Known(Pending(s)))
    case CountFailed(k) =>
      s.(runs := s.runs[k := Settled(Rejected)])
    case Accept(k) =>
      var n := s.runs[k].nonce;
      s.(runs := s.runs[k := Writing(n, true)], txs := s.txs + [Tx(k, n)])
    case WriteResolved(k) =>
      s.(runs := s.runs[k := Settled(Resolved)], nextNonce := Known(s.runs[k].nonce + 1))
    case WriteFailed(k) =>
      s.(runs := s.runs[k := Settled(Rejected)], nextNonce := Unknown)
  }

  // ----- invariant over every interleaving --------------------------------------------------------------

  /** The first run that has not settled. */
  function Active(s: State): (m: nat)
    ensures m <= |s.runs|
    ensures forall k :: 0 <= k < m ==> s.runs[k].Settled?
    ensures m < |s.runs| ==> !s.runs[m].Settled?
  {
    FirstUnsettled(s.runs, 0)
  }

  function FirstUnsettled(runs: seq<Run>, from: nat): (m: nat)
    requires from <= |runs| && forall k :: 0 <= k < from ==> runs[k].Settled?
    ensures m <= |runs|
    ensures forall k :: 0 <= k < m ==> runs[k].Settled?
    ensures m < |runs| ==> !runs[m].Settled?
    decreases |runs| - from
  {
    if from == |runs| || !runs[from].Settled? then from else FirstUnsettled(runs, from + 1)
  }

  /** Runs settle in submission order: m of them have, the next may be under
      way, the others wait. */
  ghost predicate InOrder(s: State, m: nat) {
    && m <= |s.runs|
    && (forall k :: 0 <= k < m ==> s.runs[k].Settled?)
    && (m < |s.runs| ==> !s.runs[m].Settled?)
    && (forall k :: m < k < |s.runs| ==> s.runs[k] == Waiting)
  }

  /** The accepted transactions carry the nonces first, first + 1, ... and come
      from different runs in submission order. */
  ghost predicate ChainInOrder(s: State, m: nat)
    requires m <= |s.runs|
  {
    && (forall i :: 0 <= i < |s.txs| ==> s.txs[i].nonce == s.first + i && s.txs[i].run <= m)
    && (forall i, j :: 0 <= i < j < |s.txs| ==> s.txs[i].run < s.txs[j].run)
    && (forall k: nat :: k < m && s.runs[k] == Settled(Resolved) ==> exists i :: 0 <= i < |s.txs| && s.txs[i].run == k)
  }

  /** The cached nonce and the nonce in flight agree with the chain. */
  ghost predicate NonceAgrees(s: State, m: nat)
    requires m <= |s.runs|
  {
    var current := if m < |s.runs| then s.runs[m] else Waiting;
    match current
    case Waiting => (s.nextNonce.Known? ==> s.nextNonce.nonce == Pending(s)) && NoneFrom(s, m)
    case Reading => s.nextNonce == Unknown && NoneFrom(s, m)
    case Writing(n, accepted) =>
      && s.nextNonce == Known(n)
      && (if accepted then |s.txs| > 0 && s.txs[|s.txs| - 1] == Tx(m, n) && n == Pending(s) - 1
          else n == Pending(s) && NoneFrom(s, m))
    case Settled(_) => false
  }

  /** Run m has no accepted transaction. */
  ghost predicate NoneFrom(s: State, m: nat) {
    forall i :: 0 <= i < |s.txs| ==> s.txs[i].run < m
  }

  ghost predicate Inv(s: State) {
    var m := Active(s);
    InOrder(s, m) && ChainInOrder(s, m) && NonceAgrees(s, m)
  }

  lemma ActiveIs(s: State, m: nat)
    requires InOrder(s, m)
    ensures Active(s) == m
  {
    var a := Active(s);
    assert a == m;
  }

  lemma InitialInv(first: int)
    ensures Inv(State([], Unknown, [], first))
  {}

  /** Only the first unsettled run can do anything. */
  lemma OnlyActiveMoves(s: State, e: Event)
    requires Inv(s) && Enabled(s, e) && e != Submit
    ensures e.k == Active(s)
  {
    var m := Active(s);
    hide Active;
    assert InOrder(s, m);
  }

  lemma StepSubmit(s: State)
    requires Inv(s)
    ensures Inv(Next(s, Submit))
  {
    var t := Next(s, Submit);
    ActiveIs(t, Active(s));
  }

  /** A step of the active run that does not settle it and sends nothing. */
  lemma StepPrepares(s: State, e: Event)
    requires Inv(s) && Enabled(s, e) && (e.Start? || e.CountRead?)
    ensures Inv(Next(s, e))
  {
    OnlyActiveMoves(s, e);
    var m, t := Active(s), Next(s, e);
    assert forall k :: 0 <= k < |s.runs| && k != m ==> t.runs[k] == s.runs[k];
    ActiveIs(t, m);
    hide Active;
    assert ChainInOrder(t, m);
  }

  /** The chain accepts the write in flight. */
  lemma StepAccepts(s: State, e: Event)
    requires Inv(s) && Enabled(s, e) && e.Accept?
    ensures Inv(Next(s, e))
  {
    OnlyActiveMoves(s, e);
    var m, t := Active(s), Next(s, e);
    assert forall k :: 0 <= k < |s.runs| && k != m ==> t.runs[k] == s.runs[k];
    ActiveIs(t, m);
    hide Active;
    assert forall i :: 0 <= i < |s.txs| ==> t.txs[i] == s.txs[i];
    assert ChainInOrder(t, m);
  }

  /** A step that settles the active run: the next one becomes active. */
  lemma StepSettles(s: State, e: Event)
    requires Inv(s) && Enabled(s, e) && (e.CountFailed? || e.WriteResolved? || e.WriteFailed?)
    ensures Inv(Next(s, e))
  {
    OnlyActiveMoves(s, e);
    var m, t := Active(s), Next(s, e);
    assert forall k :: 0 <= k < |s.runs| && k != m ==> t.runs[k] == s.runs[k];
    assert InOrder(t, m + 1);
    ActiveIs(t, m + 1);
    if e.WriteResolved? {
      assert s.txs[|s.txs| - 1].run == m;
    }
  }

  lemma StepInv(s: State, e: Event)
    requires Inv(s) && Enabled(s, e)
    ensures Inv(Next(s, e))
  {
    match e
    case Submit => StepSubmit(s);
    case Start(_) => StepPrepares(s, e);
    case CountRead(_) => StepPrepares(s, e);
    case Accept(_) => StepAccepts(s, e);
    case CountFailed(_) => StepSettles(s, e);
    case WriteResolved(_) => StepSettles(s, e);
    case WriteFailed(_) => StepSettles(s, e);
  }

  // ----- runs --------------------------------------------------------------------------------------------------

  /** Every event of the sequence can happen when it does. */
  ghost predicate Possible(s: State, events: seq<Event>)
    decreases |events|
  {
    events == [] || (Enabled(s, events[0]) && Possible(Next(s, events[0]), events[1..]))
  }

  function After(s: State, events: seq<Event>): State
    requires Possible(s, events)
    decreases |events|
  {
    if events == [] then s else After(Next(s, events[0]), events[1..])
  }

  lemma {:induction false} RunInv(s: State, events: seq<Event>)
    requires Inv(s) && Possible(s, events)
    ensures Inv(After(s, events)) && After(s, events).first == s.first
    decreases |events|
  {
    if events != [] {
      StepInv(s, events[0]);
      RunInv(Next(s, events[0]), events[1..]);
    }
  }

  /** At most one run is under way and it is the oldest unsettled one; a cached
      nonce with no write in flight is the number of accepted transactions; the
      accepted nonces have neither gap nor repeat; each comes from its own run in
      submission order; and every send that reported success is among them. */
  ghost predicate Safe(s: State) {
    && (forall j, k :: 0 <= j < k < |s.runs| && s.runs[k] != Waiting ==> s.runs[j].Settled?)
    && (forall i :: 0 <= i < |s.txs| ==> s.txs[i].nonce == s.first + i)
    && (forall i, j :: 0 <= i < j < |s.txs| ==> s.txs[i].run < s.txs[j].run)
    && (forall k: nat :: k < |s.runs| && s.runs[k] == Settled(Resolved) ==>
          exists i :: 0 <= i < |s.txs| && s.txs[i].run == k)
    && (s.nextNonce.Known? && (forall k :: 0 <= k < |s.runs| ==> !s.runs[k].Writing?) ==>
          s.nextNonce.nonce == Pending(s))
    && (forall k :: 0 <= k < |s.runs| && s.runs[k].Writing? && !s.runs[k].accepted ==> s.runs[k].nonce == Pending(s))
  }

  /** Nonce safety, after every interleaving of sends, chain answers and errors. */
  lemma NonceSafety(first: int, events: seq<Event>)
    requires Possible(State([], Unknown, [], first), events)
    ensures var s := After(State([], Unknown, [], first), events); Safe(s) && s.first == first
  {
    InitialInv(first);
    RunInv(State([], Unknown, [], first), events);
    var s := After(State([], Unknown, [], first), events);
    var m := Active(s);
    assert forall k :: 0 <= k < |s.runs| && s.runs[k].Writing? ==> k == m;
  }

  // ----- what the events say ----------------------------------------------------------------------------------

  /** Run k has settled with the outcome. */
  predicate HasSettled(s: State, k: nat, outcome: Outcome) { k < |s.runs| && s.runs[k] == Settled(outcome) }

  /** A run has succeeded exactly when its write has resolved, and failed exactly when
      its write or its count has failed. */
  lemma {:induction false} OutcomeIs(s: State, events: seq<Event>, k: nat)
    requires Possible(s, events)
    ensures HasSettled(After(s, events), k, Resolved) <==> HasSettled(s, k, Resolved) || WriteResolved(k) in events
    ensures HasSettled(After(s, events), k, Rejected) <==>
      HasSettled(s, k, Rejected) || WriteFailed(k) in events || CountFailed(k) in events
    decreases |events|
  {
    if events != [] {
      OutcomeIs(Next(s, events[0]), events[1..], k);
      assert forall e :: e in events <==> e == events[0] || e in events[1..];
      hide After, Possible;
    }
  }

  /** No event that changes the cached nonce. */
  ghost predicate LeavesCache(events: seq<Event>) {
    forall e :: e in events ==> e.Submit? || e.Start? || e.Accept?
  }

  /** The write of no run settles. */
  ghost predicate NoWriteSettles(events: seq<Event>) {
    forall e :: e in events ==> !e.WriteResolved? && !e.WriteFailed?
  }

  /** A run that starts with a known nonce writes with it, without reading a count;
      one that starts without a nonce reads one. */
  lemma {:induction false} StartsWith(s: State, events: seq<Event>, k: nat)
    requires Possible(s, events) && LeavesCache(events)
    ensures After(s, events).nextNonce == s.nextNonce
    ensures Start(k) in events ==>
      && k < |After(s, events).runs|
      && (s.nextNonce == Unknown ==> After(s, events).runs[k] == Reading)
      && (s.nextNonce.Known? ==> After(s, events).runs[k] == Writing(s.nextNonce.nonce, Accept(k) in events))
    ensures k < |s.runs| && s.runs[k].Writing? ==>
      k < |After(s, events).runs| &&
      After(s, events).runs[k] == Writing(s.runs[k].nonce, s.runs[k].accepted || Accept(k) in events)
    ensures k < |s.runs| && s.runs[k] == Reading ==>
      k < |After(s, events).runs| && After(s, events).runs[k] == Reading && Accept(k) !in events
    ensures k < |s.runs| && s.runs[k] != Waiting ==> Start(k) !in events
    ensures k < |s.runs| && s.runs[k] == Waiting && Start(k) !in events ==> Accept(k) !in events
    decreases |events|
  {
    if events != [] {
      StartsWith(Next(s, events[0]), events[1..], k);
      assert forall e :: e in events <==> e == events[0] || e in events[1..];
      hide After, Possible;
    }
  }

  /** While a nonce is cached, no run reads a count. */
  lemma NobodyReads(s: State, e: Event)
    requires Inv(s) && s.nextNonce.Known? && Enabled(s, e)
    ensures !e.CountRead? && !e.CountFailed?
  {
    if e != Submit {
      OnlyActiveMoves(s, e);
    }
  }

  lemma {:induction false} CacheIsKept(s: State, events: seq<Event>)
    requires Inv(s) && s.nextNonce.Known? && Possible(s, events) && NoWriteSettles(events)
    ensures LeavesCache(events)
    decreases |events|
  {
    if events != [] {
      NobodyReads(s, events[0]);
      StepInv(s, events[0]);
      hide Inv;
      CacheIsKept(Next(s, events[0]), events[1..]);
      assert forall e :: e in events <==> e == events[0] || e in events[1..];
    }
  }

  /** After a write with the nonce n has resolved, and until the next write settles,
      the cached nonce is n + 1, and a run that starts writes with it unread. */
  lemma CachedAfterSuccess(s: State, k: nat, events: seq<Event>, j: nat)
    requires Inv(s) && Enabled(s, WriteResolved(k))
    requires Possible(Next(s, WriteResolved(k)), events) && NoWriteSettles(events)
    ensures var t := After(Next(s, WriteResolved(k)), events);
      && t.nextNonce == Known(s.runs[k].nonce + 1)
      && (Start(j) in events ==>
            j < |t.runs| && t.runs[j] == Writing(s.runs[k].nonce + 1, Accept(j) in events))
  {
    StepInv(s, WriteResolved(k));
    CacheIsKept(Next(s, WriteResolved(k)), events);
    StartsWith(Next(s, WriteResolved(k)), events, j);
  }

  /** After a write has failed, and until a count is read, no nonce is cached and
      nothing is written. */
  lemma ForgottenAfterFailure(s: State, k: nat, events: seq<Event>)
    requires Inv(s) && Enabled(s, WriteFailed(k))
    requires Possible(Next(s, WriteFailed(k)), events) && forall e :: e in events ==> !e.CountRead?
    ensures After(Next(s, WriteFailed(k)), events).nextNonce == Unknown
    ensures forall e :: e in events ==> e.Submit? || e.Start? || e.CountFailed?
  {
    StepInv(s, WriteFailed(k));
    hide Inv;
    StaysUnknown(Next(s, WriteFailed(k)), events);
  }

  lemma NobodyWrites(s: State, e: Event)
    requires Inv(s) && s.nextNonce == Unknown && Enabled(s, e)
    ensures !e.Accept? && !e.WriteResolved? && !e.WriteFailed?
  {
    if e != Submit {
      OnlyActiveMoves(s, e);
    }
  }

  lemma {:induction false} StaysUnknown(s: State, events: seq<Event>)
    requires Inv(s) && s.nextNonce == Unknown && Possible(s, events) && forall e :: e in events ==> !e.CountRead?
    ensures After(s, events).nextNonce == Unknown
    ensures forall e :: e in events ==> e.Submit? || e.Start? || e.CountFailed?
    decreases |events|
  {
    if events != [] {
      NobodyWrites(s, events[0]);
      StepInv(s, events[0]);
      hide Inv;
      assert events[0] in events;
      assert forall e :: e in events <==> e == events[0] || e in events[1..];
      StaysUnknown(Next(s, events[0]), events[1..]);
    }
  }

  // ----- a write that is accepted late ---------------------------------------------------------------------

  /** The chain accepts the write of run k, with nonce n, after its promise has
      already rejected. No event of the model does this. */
  function AcceptedLate(s: State, k: nat, n: int): State { s.(txs := s.txs + [Tx(k, n)]) }

  /** A send that asks for the count, is given it, and is left without an answer. */
  function Lost(k: nat): seq<Event> { [Submit, Start(k), CountRead(k), WriteFailed(k)] }

  /** The next one, up to its write. */
  function Again(k: nat): seq<Event> { [Submit, Start(k), CountRead(k)] }

  lemma OneMoreEvent(s: State, e: Event, rest: seq<Event>, all: seq<Event>)
    requires Enabled(s, e) && Possible(Next(s, e), rest) && all == [e] + rest
    ensures Possible(s, all) && After(s, all) == After(Next(s, e), rest)
  {
    assert all[1..] == rest;
  }

  lemma ThreeEvents(s: State, a: Event, b: Event, c: Event)
    requires Enabled(s, a) && Enabled(Next(s, a), b) && Enabled(Next(Next(s, a), b), c)
    ensures Possible(s, [a, b, c]) && After(s, [a, b, c]) == Next(Next(Next(s, a), b), c)
  {
    hide Enabled, Next;
    OneMoreEvent(Next(Next(s, a), b), c, [], [c]);
    OneMoreEvent(Next(s, a), b, [c], [b, c]);
    OneMoreEvent(s, a, [b, c], [a, b, c]);
  }

  lemma FourEvents(s: State, a: Event, b: Event, c: Event, d: Event)
    requires Enabled(s, a) && Enabled(Next(s, a), b) && Enabled(Next(Next(s, a), b), c)
    requires Enabled(Next(Next(Next(s, a), b), c), d)
    ensures Possible(s, [a, b, c, d]) && After(s, [a, b, c, d]) == Next(Next(Next(Next(s, a), b), c), d)
  {
    hide Enabled, Next;
    ThreeEvents(Next(s, a), b, c, d);
    OneMoreEvent(s, a, [b, c, d], [a, b, c, d]);
  }

  /** Whenever the queue is at rest without a cached nonce, a write that is reported
      failed and accepted only later leads to two transactions with one nonce: the
      next send reads a count that does not include it. The hypothesis that a write
      is accepted before it settles, if at all, is therefore needed. */
  lemma LateAcceptanceRepeatsNonce(s: State)
    requires s.nextNonce == Unknown && forall k :: 0 <= k < |s.runs| ==> s.runs[k].Settled?
    ensures var k, n := |s.runs|, Pending(s);
      && Possible(s, Lost(k)) && Possible(After(s, Lost(k)), Again(k + 1))
      && var late := AcceptedLate(After(After(s, Lost(k)), Again(k + 1)), k, n);
      && Enabled(late, Accept(k + 1))
      && Next(late, Accept(k + 1)).txs == s.txs + [Tx(k, n), Tx(k + 1, n)]
      && !Safe(Next(late, Accept(k + 1)))
  {
    var k, n := |s.runs|, Pending(s);
    FourEvents(s, Submit, Start(k), CountRead(k), WriteFailed(k));
    var t := After(s, Lost(k));
    assert t == s.(runs := s.runs + [Settled(Rejected)]);
    ThreeEvents(t, Submit, Start(k + 1), CountRead(k + 1));
    var u := After(t, Again(k + 1));
    assert u == t.(runs := t.runs + [Writing(n, false)], nextNonce := Known(n));
    var v := Next(AcceptedLate(u, k, n), Accept(k + 1));
    assert v.txs == s.txs + [Tx(k, n), Tx(k + 1, n)];
    assert v.txs[|s.txs|].nonce == v.txs[|s.txs| + 1].nonce;
  }

  // ----- progress ---------------------------------------------------------------------------------------------------

  /** How many callbacks the runs still need, at most. */
  function Remaining(runs: seq<Run>): nat {
    if runs == [] then 0 else Remaining(runs[..|runs| - 1]) + Weight(runs[|runs| - 1])
  }

  function Weight(r: Run): nat {
    match r
    case Waiting => 4
    case Reading => 3
    case Writing(_, accepted) => if accepted then 1 else 2
    case Settled(_) => 0
  }

  lemma {:induction false} RemainingAt(runs: seq<Run>, k: nat, r: Run)
    requires k < |runs|
    ensures Remaining(runs[k := r]) == Remaining(runs) - Weight(runs[k]) + Weight(r)
  {
    var z := |runs| - 1;
    if k < z {
      RemainingAt(runs[..z], k, r);
      assert runs[k := r][..z] == runs[..z][k := r];
    } else {
      assert runs[k := r][..z] == runs[..z];
    }
  }
}
