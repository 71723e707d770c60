/** The relayer's queue as the program builds it: every send hangs its run on the
    promise of the send before, with one callback for each way that promise can
    settle. The chain of promises keeps the order that NonceQueue specifies. */
module PromiseQueue {
  import N = NonceQueue

  datatype Status = Pending | Fulfilled | Rejected

  /** What was passed to then: the run of a send, a function that returns
      undefined, or nothing. */
  datatype Callback = StartRun(k: nat) | ReturnUndefined | Missing

  datatype Origin = Resolved | From(source: nat)

  /** A promise, by its number: made resolved, or by then on another. Its callback is
      called once, after the other has settled. */
  datatype Promise = Promise(status: Status, origin: Origin, onFulfilled: Callback, onRejected: Callback, called: bool)

  /** The closure variables queue and nextNonce, with the promises, the sends (each
      with its run and its result promise) and the chain. */
  datatype State = State(promises: seq<Promise>, queue: nat, results: seq<nat>, runs: seq<N.Run>,
                         nextNonce: N.Cached, txs: seq<N.Tx>, first: int)

  datatype Event =
    | Submit                  // sendTx is called
    | React(p: nat)           // the source of promise p has settled, its callback is called
    | CountRead(k: nat)
    | CountFailed(k: nat)
    | Accept(k: nat)
    | WriteResolved(k: nat)
    | WriteFailed(k: nat)

  const RESOLVED := Promise(Fulfilled, Resolved, Missing, Missing, true)

  function Initial(first: int): State { State([RESOLVED], 0, [], [], N.Unknown, [], first) }

  function View(s: State): N.State { N.State(s.runs, s.nextNonce, s.txs, s.first) }

  function Then(source: nat, onFulfilled: Callback, onRejected: Callback): Promise {
    Promise(Pending, From(source), onFulfilled, onRejected, false)
  }

  /** A promise reacts once, when its source has settled, either way. The other
      events depend on the run alone. */
  predicate Enabled(s: State, e: Event) {
    match e
    case Submit => true
    case React(p) =>
      && p < |s.promises| && s.promises[p].origin.From? && !s.promises[p].called
      && s.promises[p].origin.source < |s.promises| && s.promises[s.promises[p].origin.source].status != Pending
      && var cb := CallbackOf(s, p); cb.StartRun? ==> cb.k < |s.runs|
    case CountRead(k) => Active(s, k) && N.Enabled(View(s), N.CountRead(k))
    case CountFailed(k) => Active(s, k) && N.Enabled(View(s), N.CountFailed(k))
    case Accept(k) => N.Enabled(View(s), N.Accept(k))
    case WriteResolved(k) => Active(s, k) && N.Enabled(View(s), N.WriteResolved(k))
    case WriteFailed(k) => Active(s, k) && N.Enabled(View(s), N.WriteFailed(k))
  }

  predicate Active(s: State, k: nat) { k < |s.results| && s.results[k] < |s.promises| }

  /** The callback that is called: which one depends on how the source settled. */
  function CallbackOf(s: State, p: nat): Callback
    requires p < |s.promises| && s.promises[p].origin.From? && s.promises[p].origin.source < |s.promises|
  {
    if s.promises[s.promises[p].origin.source].status == Fulfilled then s.promises[p].onFulfilled
    else s.promises[p].onRejected
  }

  /** The start of a run: use the cached nonce or ask the chain. */
  function Begun(nextNonce: N.Cached): N.Run {
    match nextNonce
    case Unknown => N.Reading
    case Known(n) => N.Writing(n, false)
  }

  /** A promise whose callback has been called: it waits for the run, is fulfilled
      with undefined, or, without a callback, settles like its source. */
  function Called(p: Promise, cb: Callback, source: Status): Promise {
    p.(called := true, status := match cb
      case StartRun(_) => p.status
      case ReturnUndefined => Fulfilled
      case Missing => source)
  }

  /** A run and its result promise settle together. */
  function Settle(s: State, k: nat, outcome: N.Outcome): State
    requires k < |s.runs| && Active(s, k)
  {
    var r := s.results[k];
    s.(runs := s.runs[k := N.Settled(outcome)],
       promises := s.promises[r := s.promises[r].(status := if outcome == N.Resolved then Fulfilled else Rejected)])
  }

  function Next(s: State, e: Event): State
    requires Enabled(s, e)
  {
    match e
    case Submit =>
      var k, result := |s.runs|, |s.promises|;
      s.(promises := s.promises + [Then(s.queue, StartRun(k), StartRun(k)),
                                   Then(result, ReturnUndefined, ReturnUndefined)],
         queue := result + 1, results := s.results + [result], runs := s.runs + [N.Waiting])
    case React(p) =>
      var cb := CallbackOf(s, p);
      var source := s.promises[s.promises[p].origin.source].status;
      var t := s.(promises := s.promises[p := Called(s.promises[p], cb, source)]);
      if cb.StartRun? then t.(runs := s.runs[cb.k := Begun(s.nextNonce)]) else t
    case CountRead(k) =>
      var n := N.Pending(View(s));
      s.(runs := s.runs[k := N.Writing(n, false)], nextNonce := N.Known(n))
    case CountFailed(k) => Settle(s, k, N.Rejected)
    case Accept(k) =>
      var n := s.runs[k].nonce;
      s.(runs := s.runs[k := N.Writing(n, true)], txs := s.txs + [N.Tx(k, n)])
    case WriteResolved(k) => Settle(s, k, N.Resolved).(nextNonce := N.Known(s.runs[k].nonce + 1))
    case WriteFailed(k) => Settle(s, k, N.Rejected).(nextNonce := N.Unknown)
  }

  // ----- the program --------------------------------------------------------------------------------

  /** What makeClients closes over, with the history of sends and of the chain.
      Each method is one callback; between callbacks anything may happen. */
  class Sender {
    var promises: seq<Promise>
    var queue: nat
    var results: seq<nat>
    var runs: seq<N.Run>
    var nextNonce: N.Cached
    var txs: seq<N.Tx>
    const first: int

    function Now(): State
      reads this
    {
      State(promises, queue, results, runs, nextNonce, txs, first)
    }

    constructor (first: int)
      ensures Now() == Initial(first)
    {
      this.first := first;
      promises := [RESOLVED];
      queue := 0;
      results, runs, txs := [], [], [];
      nextNonce := N.Unknown;
    }

    /** p.then(onFulfilled, onRejected). */
    method AddThen(p: nat, onFulfilled: Callback, onRejected: Callback) returns (made: nat)
      modifies this`promises
      ensures made == |old(promises)| && promises == old(promises) + [Then(p, onFulfilled, onRejected)]
    {
      made := |promises|;
      promises := promises + [Then(p, onFulfilled, onRejected)];
    }

    /** sendTx: result = queue.then(run, run), then queue = result.then(...). */
    method SendTx() returns (k: nat)
      modifies this
      ensures Now() == Next(old(Now()), Submit) && k == |old(runs)|
    {
      k := |runs|;
      runs := runs + [N.Waiting];
      var result := AddThen(queue, StartRun(k), StartRun(k));
      results := results + [result];
      queue := AddThen(result, ReturnUndefined, ReturnUndefined);
    }

    /** A settled promise calls back. */
    method CallBack(p: nat)
      requires Enabled(Now(), React(p))
      modifies this
      ensures Now() == Next(old(Now()), React(p))
    {
      var source := promises[promises[p].origin.source].status;
      var cb := if source == Fulfilled then promises[p].onFulfilled else promises[p].onRejected;
      match cb {
        case StartRun(k) =>
          promises := promises[p := promises[p].(called := true)];
          if nextNonce.Unknown? {
            runs := runs[k := N.Reading];
          } else {
            var nonce := nextNonce.nonce;
            runs := runs[k := N.Writing(nonce, false)];
          }
        case ReturnUndefined => promises := promises[p := promises[p].(called := true, status := Fulfilled)];
        case Missing => promises := promises[p := promises[p].(called := true, status := source)];
      }
    }

    /** The pending count arrives, or fails to. */
    method CountArrives(k: nat, count: N.Cached)
      requires Enabled(Now(), CountRead(k))
      requires count.Known? ==> count.nonce == N.Pending(View(Now()))
      modifies this
      ensures Now() == Next(old(Now()), if count.Known? then CountRead(k) else CountFailed(k))
    {
      if count.Unknown? {
        SettleRun(k, N.Rejected);
        return;
      }
      nextNonce := count;
      var nonce := nextNonce.nonce;
      runs := runs[k := N.Writing(nonce, false)];
    }

    /** The write settles. */
    method WriteSettles(k: nat, outcome: N.Outcome)
      requires Enabled(Now(), if outcome == N.Resolved then WriteResolved(k) else WriteFailed(k))
      modifies this
      ensures Now() == Next(old(Now()), if outcome == N.Resolved then WriteResolved(k) else WriteFailed(k))
    {
      var nonce := runs[k].nonce;
      if outcome == N.Resolved {
        nextNonce := N.Known(nonce + 1);
      } else {
        nextNonce := N.Unknown;
      }
      SettleRun(k, outcome);
    }

    method SettleRun(k: nat, outcome: N.Outcome)
      requires k < |runs| && Active(Now(), k)
      modifies this`runs, this`promises
      ensures Now() == Settle(old(Now()), k, outcome)
    {
      var r := results[k];
      runs := runs[k := N.Settled(outcome)];
      promises := promises[r := promises[r].(status := if outcome == N.Resolved then Fulfilled else Rejected)];
    }
  }

  // ----- the chain of promises keeps the order ------------------------------------------------------------

  function ResultOf(k: nat): nat { 2 * k + 1 }

  /** The promise on which run k hangs: the one that queue held when k was sent. */
  function TailOf(k: nat): nat { 2 * k }

  function StatusOf(r: N.Run): Status {
    match r
    case Settled(outcome) => if outcome == N.Resolved then Fulfilled else Rejected
    case _ => Pending
  }

  /** The result of run k hangs on the tail with the run as both callbacks, and has
      settled as the run has; the next tail hangs on the result with both callbacks
      too, and is fulfilled once they have been called. */
  ghost predicate LinkOk(s: State, k: nat)
    requires k < |s.runs| && |s.promises| == 2 * |s.runs| + 1
  {
    var result, tail := s.promises[ResultOf(k)], s.promises[TailOf(k + 1)];
    && result == Promise(StatusOf(s.runs[k]), From(TailOf(k)), StartRun(k), StartRun(k), s.runs[k] != N.Waiting)
    && tail == Promise(if tail.called then Fulfilled else Pending, From(ResultOf(k)),
                       ReturnUndefined, ReturnUndefined, tail.called)
    && (tail.called ==> s.runs[k].Settled?)
    && (s.runs[k] != N.Waiting ==> s.promises[TailOf(k)].status == Fulfilled)
  }

  ghost predicate Linked(s: State) {
    && |s.promises| == 2 * |s.runs| + 1 && |s.results| == |s.runs| && s.queue == TailOf(|s.runs|)
    && s.promises[0] == RESOLVED
    && (forall k :: 0 <= k < |s.runs| ==> s.results[k] == ResultOf(k))
    && (forall k :: 0 <= k < |s.runs| ==> LinkOk(s, k))
  }

  lemma InitiallyLinked(first: int)
    ensures Linked(Initial(first))
  {}

  /** A tail is never rejected: a failed run does not break the chain. */
  lemma QueueNeverRejects(s: State, k: nat)
    requires Linked(s) && k <= |s.runs|
    ensures s.promises[TailOf(k)].status != Rejected && s.promises[s.queue].status != Rejected
    ensures s.promises[TailOf(k)].status == Fulfilled && k > 0 ==> s.runs[k - 1].Settled?
  {
    if k > 0 {
      assert LinkOk(s, k - 1);
    }
    if |s.runs| > 0 {
      assert LinkOk(s, |s.runs| - 1);
    }
  }

  /** Which promises there are. */
  lemma PromiseIs(s: State, p: nat) returns (k: nat)
    requires Linked(s) && 0 < p < |s.promises|
    ensures k < |s.runs| && (p == ResultOf(k) || p == TailOf(k + 1))
  {
    k := (p - 1) / 2;
  }

  /** A run starts only in its turn: when the run before it has settled, either
      way, and not before. */
  lemma StartsInTurn(s: State, p: nat)
    requires Linked(s) && Enabled(s, React(p)) && CallbackOf(s, p).StartRun?
    ensures N.Enabled(View(s), N.Start(CallbackOf(s, p).k)) && p == ResultOf(CallbackOf(s, p).k)
  {
    var k := PromiseIs(s, p);
    assert LinkOk(s, k);
    QueueNeverRejects(s, k);
  }

  // ----- refinement ----------------------------------------------------------------------------------------

  /** What the order of sends sees of an event. */
  function Image(s: State, e: Event): seq<N.Event>
    requires Enabled(s, e)
  {
    match e
    case Submit => [N.Submit]
    case React(p) => var cb := CallbackOf(s, p); if cb.StartRun? then [N.Start(cb.k)] else []
    case CountRead(k) => [N.CountRead(k)]
    case CountFailed(k) => [N.CountFailed(k)]
    case Accept(k) => [N.Accept(k)]
    case WriteResolved(k) => [N.WriteResolved(k)]
    case WriteFailed(k) => [N.WriteFailed(k)]
  }

  lemma SubmitLinks(s: State)
    requires Linked(s)
    ensures Linked(Next(s, Submit))
  {
    var t, n := Next(s, Submit), |s.runs|;
    forall k | 0 <= k < |t.runs| ensures LinkOk(t, k) {
      if k < n {
        assert LinkOk(s, k);
        SamePromises(s, t, k);
      }
    }
  }

  lemma SamePromises(s: State, t: State, k: nat)
    requires |s.promises| == 2 * |s.runs| + 1 && |t.promises| == 2 * |t.runs| + 1
    requires k < |s.runs| <= |t.runs| && LinkOk(s, k) && t.runs[k] == s.runs[k]
    requires t.promises[TailOf(k)] == s.promises[TailOf(k)] && t.promises[ResultOf(k)] == s.promises[ResultOf(k)]
    requires t.promises[TailOf(k + 1)] == s.promises[TailOf(k + 1)]
    ensures LinkOk(t, k)
  {}

  /** The callback of a tail. */
  lemma TailReacts(s: State, p: nat, k: nat)
    requires Linked(s) && Enabled(s, React(p)) && k < |s.runs| && p == TailOf(k + 1)
    ensures Linked(Next(s, React(p))) && CallbackOf(s, p) == ReturnUndefined
  {
    var t := Next(s, React(p));
    assert LinkOk(s, k);
    assert CallbackOf(s, p) == ReturnUndefined;
    forall j | 0 <= j < |s.runs| ensures LinkOk(t, j) {
      assert LinkOk(s, j);
    }
  }

  /** The callback of a result. */
  lemma ResultReacts(s: State, p: nat, k: nat)
    requires Linked(s) && Enabled(s, React(p)) && k < |s.runs| && p == ResultOf(k)
    ensures Linked(Next(s, React(p))) && CallbackOf(s, p) == StartRun(k)
  {
    var t := Next(s, React(p));
    assert LinkOk(s, k);
    QueueNeverRejects(s, k);
    assert CallbackOf(s, p) == StartRun(k);
    forall j | 0 <= j < |s.runs| ensures LinkOk(t, j) {
      assert LinkOk(s, j);
    }
  }

  lemma SettleLinks(s: State, k: nat, outcome: N.Outcome)
    requires Linked(s) && k < |s.runs| && s.runs[k] != N.Waiting && !s.runs[k].Settled?
    ensures Active(s, k) && Linked(Settle(s, k, outcome))
  {
    assert LinkOk(s, k);
    var t := Settle(s, k, outcome);
    forall j | 0 <= j < |s.runs| ensures LinkOk(t, j) {
      assert LinkOk(s, j);
    }
  }

  lemma RunLinks(s: State, k: nat, r: N.Run, nextNonce: N.Cached, txs: seq<N.Tx>)
    requires Linked(s) && k < |s.runs| && s.runs[k] != N.Waiting && !s.runs[k].Settled?
    requires r != N.Waiting && !r.Settled?
    ensures Linked(s.(runs := s.runs[k := r], nextNonce := nextNonce, txs := txs))
  {
    var t := s.(runs := s.runs[k := r], nextNonce := nextNonce, txs := txs);
    forall j | 0 <= j < |s.runs| ensures LinkOk(t, j) {
      assert LinkOk(s, j);
    }
  }

  lemma StepLinks(s: State, e: Event)
    requires Linked(s) && Enabled(s, e)
    ensures Linked(Next(s, e))
  {
    match e
    case Submit => SubmitLinks(s);
    case React(p) =>
      var k := PromiseIs(s, p);
      if p == ResultOf(k) {
        ResultReacts(s, p, k);
      } else {
        TailReacts(s, p, k);
      }
    case CountRead(k) => RunLinks(s, k, N.Writing(N.Pending(View(s)), false), N.Known(N.Pending(View(s))), s.txs);
    case CountFailed(k) => SettleLinks(s, k, N.Rejected);
    case Accept(k) =>
      var n := s.runs[k].nonce;
      RunLinks(s, k, N.Writing(n, true), s.nextNonce, s.txs + [N.Tx(k, n)]);
    case WriteResolved(k) =>
      SettleLinks(s, k, N.Resolved);
      NonceLinks(Settle(s, k, N.Resolved), N.Known(s.runs[k].nonce + 1));
    case WriteFailed(k) =>
      SettleLinks(s, k, N.Rejected);
      NonceLinks(Settle(s, k, N.Rejected), N.Unknown);
  }

  lemma NonceLinks(s: State, nextNonce: N.Cached)
    requires Linked(s)
    ensures Linked(s.(nextNonce := nextNonce))
  {
    var t := s.(nextNonce := nextNonce);
    forall j | 0 <= j < |s.runs| ensures LinkOk(t, j) {
      assert LinkOk(s, j);
    }
  }

  /** Every event of the promises is an event of the order, or none. */
  lemma StepRefines(s: State, e: Event)
    requires Linked(s) && Enabled(s, e)
    ensures Linked(Next(s, e)) && N.Possible(View(s), Image(s, e))
    ensures View(Next(s, e)) == N.After(View(s), Image(s, e))
  {
    StepLinks(s, e);
    if e.React? && CallbackOf(s, e.p).StartRun? {
      StartsInTurn(s, e.p);
    }
    hide Linked;
    if Image(s, e) != [] {
      assert Image(s, e)[1..] == [];
    }
  }

  // ----- runs --------------------------------------------------------------------------------------------------

  ghost predicate Possible(s: State, events: seq<Event>)
    decreases |events|
  {
    events == [] || (Enabled(s, events[0]) && Possible(Next(s, events[0]), events[1..]))
  }

  function After(s: State, events: seq<Event>): State
    requires Possible(s, events)
    decreases |events|
  {
    if events == [] then s else After(Next(s, events[0]), events[1..])
  }

  function Images(s: State, events: seq<Event>): seq<N.Event>
    requires Possible(s, events)
    decreases |events|
  {
    if events == [] then [] else Image(s, events[0]) + Images(Next(s, events[0]), events[1..])
  }

  lemma JoinRuns(s: N.State, before: seq<N.Event>, after: seq<N.Event>)
    requires |before| <= 1 && N.Possible(s, before) && N.Possible(N.After(s, before), after)
    ensures N.Possible(s, before + after) && N.After(s, before + after) == N.After(N.After(s, before), after)
  {
    if before == [] {
      assert before + after == after;
    } else {
      assert (before + after)[0] == before[0] && (before + after)[1..] == after && before[1..] == [];
      assert N.After(s, before) == N.After(N.Next(s, before[0]), before[1..]) == N.Next(s, before[0]);
    }
  }

  lemma {:induction false} RunRefines(s: State, events: seq<Event>)
    requires Linked(s) && Possible(s, events)
    ensures Linked(After(s, events)) && N.Possible(View(s), Images(s, events))
    ensures View(After(s, events)) == N.After(View(s), Images(s, events))
    decreases |events|
  {
    if events != [] {
      StepRefines(s, events[0]);
      hide Linked, Next, View;
      RunRefines(Next(s, events[0]), events[1..]);
      JoinRuns(View(s), Image(s, events[0]), Images(Next(s, events[0]), events[1..]));
    }
  }

  /** Nonce safety of the promises, after every interleaving of sends, callbacks,
      chain answers and errors. */
  lemma QueueIsSafe(first: int, events: seq<Event>)
    requires Possible(Initial(first), events)
    ensures N.Safe(View(After(Initial(first), events))) && Linked(After(Initial(first), events))
  {
    InitiallyLinked(first);
    RunRefines(Initial(first), events);
    N.NonceSafety(first, Images(Initial(first), events));
  }

  // ----- what the events say ------------------------------------------------------------------------------

  /** Run k has settled, and its result promise with it. */
  predicate HasSettled(s: State, k: nat, outcome: N.Outcome) {
    && k < |s.runs| && s.runs[k] == N.Settled(outcome)
    && k < |s.results| && s.results[k] < |s.promises|
    && s.promises[s.results[k]].status == (if outcome == N.Resolved then Fulfilled else Rejected)
  }

  lemma {:induction false} ImagesHave(s: State, events: seq<Event>, k: nat)
    requires Possible(s, events)
    ensures N.WriteResolved(k) in Images(s, events) <==> WriteResolved(k) in events
    ensures N.WriteFailed(k) in Images(s, events) <==> WriteFailed(k) in events
    ensures N.CountFailed(k) in Images(s, events) <==> CountFailed(k) in events
    decreases |events|
  {
    if events != [] {
      ImagesHave(Next(s, events[0]), events[1..], k);
      assert forall e :: e in events <==> e == events[0] || e in events[1..];
      hide Next, Enabled;
    }
  }

  /** The promise that sendTx has returned is fulfilled exactly when the write has
      resolved, and rejected exactly when the write or the count has failed. */
  lemma ResultIs(first: int, events: seq<Event>, k: nat)
    requires Possible(Initial(first), events)
    ensures var s := After(Initial(first), events);
      && (WriteResolved(k) in events <==> HasSettled(s, k, N.Resolved))
      && (WriteFailed(k) in events || CountFailed(k) in events <==> HasSettled(s, k, N.Rejected))
      && (k < |s.runs| ==>
            && k < |s.results| && s.results[k] < |s.promises|
            && (s.promises[s.results[k]].status == Fulfilled <==> WriteResolved(k) in events)
            && (s.promises[s.results[k]].status == Rejected <==> WriteFailed(k) in events || CountFailed(k) in events))
  {
    InitiallyLinked(first);
    RunRefines(Initial(first), events);
    ImagesHave(Initial(first), events, k);
    N.OutcomeIs(View(Initial(first)), Images(Initial(first), events), k);
    var s := After(Initial(first), events);
    hide After, Images, Possible;
    if k < |s.runs| {
      assert LinkOk(s, k);
    }
  }

  // ----- progress ---------------------------------------------------------------------------------------------------

  /** Something other than a new send can happen. */
  ghost predicate Busy(s: State) {
    exists e: Event :: e != Submit && Enabled(s, e)
  }

  /** No run, failed or not, blocks a later one: while the oldest unsettled run is
      m, its own callback, that of the tail it waits for, or its write or read is
      due. */
  lemma NeverBlocked(s: State, m: nat)
    requires Linked(s) && m < |s.runs| && !s.runs[m].Settled?
    requires forall k :: 0 <= k < m ==> s.runs[k].Settled?
    ensures match s.runs[m]
      case Waiting => Enabled(s, React(ResultOf(m))) || (m > 0 && Enabled(s, React(TailOf(m))))
      case Reading => Enabled(s, CountRead(m)) && Enabled(s, CountFailed(m))
      case Writing(_, accepted) => Enabled(s, WriteFailed(m)) && (accepted ==> Enabled(s, WriteResolved(m)))
      case Settled(_) => false
  {
    assert LinkOk(s, m);
    if m > 0 {
      assert LinkOk(s, m - 1);
    }
    QueueNeverRejects(s, m);
  }

  /** As long as a send has not settled, something can happen without a new one. */
  lemma UnsettledIsBusy(s: State, k: nat)
    requires Linked(s) && k < |s.runs| && !s.runs[k].Settled?
    ensures Busy(s)
  {
    var m := N.FirstUnsettled(s.runs, 0);
    NeverBlocked(s, m);
    hide Linked, Enabled;
    if s.runs[m] == N.Waiting {
      var e := if Enabled(s, React(ResultOf(m))) then React(ResultOf(m)) else React(TailOf(m));
      assert Enabled(s, e);
    } else {
      var e := if s.runs[m] == N.Reading then CountRead(m) else WriteFailed(m);
      assert Enabled(s, e);
    }
  }

  /** The queue is at rest exactly when every send has settled and every callback
      has been called. */
  lemma QuietMeansSettled(s: State)
    requires Linked(s)
    ensures !Busy(s) <==>
      && (forall k :: 0 <= k < |s.runs| ==> s.runs[k].Settled?)
      && (forall p :: 0 <= p < |s.promises| ==> s.promises[p].called)
  {
    if k: nat :| k < |s.runs| && !s.runs[k].Settled? {
      UnsettledIsBusy(s, k);
    } else if p: nat :| p < |s.promises| && !s.promises[p].called {
      UncalledIsDue(s, p);
    }
  }

  lemma UncalledIsDue(s: State, p: nat)
    requires Linked(s) && p < |s.promises| && !s.promises[p].called
    requires forall k :: 0 <= k < |s.runs| ==> s.runs[k].Settled?
    ensures Busy(s)
  {
    var k := PromiseIs(s, p);
    assert LinkOk(s, k);
    assert Enabled(s, React(p));
  }

  function Uncalled(promises: seq<Promise>): nat {
    if promises == [] then 0
    else Uncalled(promises[..|promises| - 1]) + if promises[|promises| - 1].called then 0 else 1
  }

  lemma {:induction false} UncalledAt(promises: seq<Promise>, i: nat, p: Promise)
    requires i < |promises|
    ensures Uncalled(promises[i := p])
         == Uncalled(promises) - (if promises[i].called then 0 else 1) + if p.called then 0 else 1
  {
    var z := |promises| - 1;
    if i < z {
      UncalledAt(promises[..z], i, p);
      assert promises[i := p][..z] == promises[..z][i := p];
    } else {
      assert promises[i := p][..z] == promises[..z];
    }
  }

  /** How many events the sends made so far still need, at most. */
  function Work(s: State): nat { N.Remaining(s.runs) + Uncalled(s.promises) }

  lemma SettlingShrinks(s: State, k: nat, outcome: N.Outcome)
    requires Linked(s) && k < |s.runs| && !s.runs[k].Settled?
    ensures Active(s, k) && Work(Settle(s, k, outcome)) < Work(s)
  {
    var r, t := s.results[k], Settle(s, k, outcome);
    N.RemainingAt(s.runs, k, t.runs[k]);
    UncalledAt(s.promises, r, t.promises[r]);
  }

  lemma ReactionShrinks(s: State, p: nat)
    requires Linked(s) && Enabled(s, React(p))
    ensures Work(Next(s, React(p))) < Work(s)
  {
    var cb := CallbackOf(s, p);
    UncalledAt(s.promises, p, Next(s, React(p)).promises[p]);
    if cb.StartRun? {
      StartsInTurn(s, p);
      N.RemainingAt(s.runs, cb.k, Begun(s.nextNonce));
    }
  }

  /** Every event other than a new send brings the queue closer to rest. */
  lemma WorkShrinks(s: State, e: Event)
    requires Linked(s) && Enabled(s, e) && e != Submit
    ensures Work(Next(s, e)) < Work(s)
  {
    match e
    case Submit =>
    case React(p) => ReactionShrinks(s, p);
    case CountRead(k) => N.RemainingAt(s.runs, k, Next(s, e).runs[k]);
    case Accept(k) => N.RemainingAt(s.runs, k, Next(s, e).runs[k]);
    case CountFailed(k) => SettlingShrinks(s, k, N.Rejected);
    case WriteResolved(k) => SettlingShrinks(s, k, N.Resolved);
    case WriteFailed(k) => SettlingShrinks(s, k, N.Rejected);
  }

  /** Without new sends the queue comes to rest after boundedly many events,
      whatever they are. */
  lemma {:induction false} QuietsDown(s: State, events: seq<Event>)
    requires Linked(s) && Possible(s, events) && Submit !in events
    ensures |events| <= Work(s)
    decreases |events|
  {
    if events != [] {
      WorkShrinks(s, events[0]);
      StepLinks(s, events[0]);
      hide Linked, Next, Work;
      QuietsDown(Next(s, events[0]), events[1..]);
    }
  }
}
