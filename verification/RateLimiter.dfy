/** The relayer's per-address limiter: one accepted call per window, with
    opportunistic pruning of old entries. */
module RateLimiter {
  const PRUNE_ABOVE: nat := 10_000

  datatype Call = Call(ip: string, now: int)

  function Admits(hits: map<string, int>, windowMs: int, c: Call): bool {
    c.ip !in hits || !(c.now - hits[c.ip] < windowMs)
  }

  function Pruned(hits: map<string, int>, cutoff: int): map<string, int> {
    map k | k in hits && !(hits[k] < cutoff) :: hits[k]
  }

  /** The table after a call. */
  function Taken(hits: map<string, int>, windowMs: int, c: Call): map<string, int> {
    if !Admits(hits, windowMs, c) then hits
    else
      var hits' := hits[c.ip := c.now];
      if |hits'| > PRUNE_ABOVE then Pruned(hits', c.now - windowMs * 10) else hits'
  }

  class Limiter {
    const windowMs: int
    var lastHit: map<string, int>

    constructor (windowMs: int)
      ensures this.windowMs == windowMs && lastHit == map[]
    {
      this.windowMs := windowMs;
      lastHit := map[];
    }

    method Take(ip: string, now: int) returns (ok: bool)
      modifies this
      ensures ok == Admits(old(lastHit), windowMs, Call(ip, now))
      ensures lastHit == Taken(old(lastHit), windowMs, Call(ip, now))
    {
      if ip in lastHit && now - lastHit[ip] < windowMs {
        return false;
      }
      lastHit := lastHit[ip := now];
      if |lastHit| > PRUNE_ABOVE {
        var cutoff := now - windowMs * 10;
        Prune(cutoff);
      }
      return true;
    }

    /** Deletes the old entries one by one, in any order. */
    method Prune(cutoff: int)
      modifies this
      ensures lastHit == Pruned(old(lastHit), cutoff)
    {
      ghost var before := lastHit;
      var rest := lastHit.Keys;
      while rest != {}
        invariant rest <= lastHit.Keys <= before.Keys
        invariant forall k :: k in lastHit ==> lastHit[k] == before[k]
        invariant forall k :: k in before && k !in rest ==> (k in lastHit <==> !(before[k] < cutoff))
        decreases |rest|
      {
        var k :| k in rest;
        if lastHit[k] < cutoff {
          lastHit := lastHit - {k};
        }
        rest := rest - {k};
      }
    }
  }

  // ----- runs ----------------------------------------------------------------------------------

  /** The answers to a run of calls. */
  function Answers(hits: map<string, int>, windowMs: int, calls: seq<Call>): (r: seq<bool>)
    ensures |r| == |calls|
    decreases |calls|
  {
    if calls == [] then []
    else [Admits(hits, windowMs, calls[0])] + Answers(Taken(hits, windowMs, calls[0]), windowMs, calls[1..])
  }

  /** The table of a limiter that never deletes an entry. */
  function Remembered(hits: map<string, int>, windowMs: int, c: Call): map<string, int> {
    if Admits(hits, windowMs, c) then hits[c.ip := c.now] else hits
  }

  function AnswersUnpruned(hits: map<string, int>, windowMs: int, calls: seq<Call>): (r: seq<bool>)
    ensures |r| == |calls|
    decreases |calls|
  {
    if calls == [] then []
    else [Admits(hits, windowMs, calls[0])]
         + AnswersUnpruned(Remembered(hits, windowMs, calls[0]), windowMs, calls[1..])
  }

  /** The clock never goes back, from time t on. */
  ghost predicate Ordered(calls: seq<Call>, t: int) {
    && (forall i :: 0 <= i < |calls| ==> t <= calls[i].now)
    && (forall i, j :: 0 <= i < j < |calls| ==> calls[i].now <= calls[j].now)
  }

  /** What pruning has removed from the full table would no longer reject at
      time t or later. */
  ghost predicate Agrees(pruned: map<string, int>, full: map<string, int>, windowMs: int, t: int) {
    && (forall k :: k in pruned ==> k in full && pruned[k] == full[k])
    && (forall k :: k in full ==> full[k] <= t)
    && (forall k :: k in full && k !in pruned ==> t - full[k] >= windowMs)
  }

  lemma StepAgrees(pruned: map<string, int>, full: map<string, int>, windowMs: int, t: int, c: Call)
    requires Agrees(pruned, full, windowMs, t) && t <= c.now
    ensures Admits(pruned, windowMs, c) == Admits(full, windowMs, c)
    ensures Agrees(Taken(pruned, windowMs, c), Remembered(full, windowMs, c), windowMs, c.now)
  {}

  lemma {:induction false} PruningAgrees(pruned: map<string, int>, full: map<string, int>, windowMs: int, t: int,
                                         calls: seq<Call>)
    requires Agrees(pruned, full, windowMs, t) && Ordered(calls, t)
    ensures Answers(pruned, windowMs, calls) == AnswersUnpruned(full, windowMs, calls)
    decreases |calls|
  {
    if calls != [] {
      var c := calls[0];
      StepAgrees(pruned, full, windowMs, t, c);
      PruningAgrees(Taken(pruned, windowMs, c), Remembered(full, windowMs, c), windowMs, c.now, calls[1..]);
    }
  }

  /** Pruning is invisible: on every run of a fresh limiter with a clock that
      does not go back, for any window, the answers are those of a limiter
      that keeps every entry. */
  lemma PruningIsInvisible(windowMs: int, calls: seq<Call>)
    requires forall i, j :: 0 <= i < j < |calls| ==> calls[i].now <= calls[j].now
    ensures Answers(map[], windowMs, calls) == AnswersUnpruned(map[], windowMs, calls)
  {
    if calls != [] {
      PruningAgrees(map[], map[], windowMs, calls[0].now, calls);
    }
  }

  lemma {:induction false} SpacedFrom(full: map<string, int>, windowMs: int, t: int, calls: seq<Call>)
    requires (forall k :: k in full ==> full[k] <= t) && Ordered(calls, t)
    ensures var r := AnswersUnpruned(full, windowMs, calls);
      && (forall j :: 0 <= j < |calls| && r[j] && calls[j].ip in full ==> calls[j].now - full[calls[j].ip] >= windowMs)
      && (forall i, j :: 0 <= i < j < |calls| && r[i] && r[j] && calls[i].ip == calls[j].ip
            ==> calls[j].now - calls[i].now >= windowMs)
    decreases |calls|
  {
    if calls != [] {
      var c, rest := calls[0], calls[1..];
      var full' := Remembered(full, windowMs, c);
      SpacedFrom(full', windowMs, c.now, rest);
      var r, r' := AnswersUnpruned(full, windowMs, calls), AnswersUnpruned(full', windowMs, rest);
      assert forall j :: 0 < j < |calls| ==> r[j] == r'[j - 1] && calls[j] == rest[j - 1];
    }
  }

  /** Two accepted calls from one address are at least a window apart. */
  lemma AcceptedAreSpaced(windowMs: int, calls: seq<Call>, i: nat, j: nat)
    requires forall i, j :: 0 <= i < j < |calls| ==> calls[i].now <= calls[j].now
    requires i < j < |calls| && calls[i].ip == calls[j].ip
    requires Answers(map[], windowMs, calls)[i] && Answers(map[], windowMs, calls)[j]
    ensures calls[j].now - calls[i].now >= windowMs
  {
    PruningIsInvisible(windowMs, calls);
    SpacedFrom(map[], windowMs, calls[0].now, calls);
  }

  /** The entry of the call's address, if any, is at least a window old. */
  ghost predicate Old(full: map<string, int>, windowMs: int, c: Call) {
    c.ip in full ==> c.now - full[c.ip] >= windowMs
  }

  /** The calls before j that were accepted from its address are at least a window
      before it. */
  ghost predicate NoneNear(r: seq<bool>, windowMs: int, calls: seq<Call>, j: nat)
    requires j < |calls| == |r|
  {
    forall i :: 0 <= i < j && r[i] && calls[i].ip == calls[j].ip ==> calls[j].now - calls[i].now >= windowMs
  }

  lemma OldAfter(full: map<string, int>, windowMs: int, c: Call, later: Call)
    requires c.now <= later.now
    ensures Old(Remembered(full, windowMs, c), windowMs, later) <==>
      Old(full, windowMs, later)
      && (Admits(full, windowMs, c) && c.ip == later.ip ==> later.now - c.now >= windowMs)
  {}

  lemma NoneNearAfter(first: bool, r: seq<bool>, windowMs: int, calls: seq<Call>, j: nat)
    requires 0 < j < |calls| == |r| + 1
    ensures NoneNear([first] + r, windowMs, calls, j) <==>
      NoneNear(r, windowMs, calls[1..], j - 1)
      && (first && calls[0].ip == calls[j].ip ==> calls[j].now - calls[0].now >= windowMs)
  {
    var all := [first] + r;
    assert forall i :: 0 <= i < |r| ==> all[i + 1] == r[i] && calls[1..][i] == calls[i + 1];
    if NoneNear(all, windowMs, calls, j) {
      forall i | 0 <= i < j - 1 && r[i] && calls[1..][i].ip == calls[1..][j - 1].ip
        ensures calls[1..][j - 1].now - calls[1..][i].now >= windowMs
      {
        assert all[i + 1] && calls[i + 1].ip == calls[j].ip;
      }
    }
  }

  /** The full table holds the last accepted call of each address. */
  lemma {:induction false} AcceptedFrom(full: map<string, int>, windowMs: int, calls: seq<Call>, j: nat)
    requires j < |calls| && forall i, j :: 0 <= i < j < |calls| ==> calls[i].now <= calls[j].now
    ensures var r := AnswersUnpruned(full, windowMs, calls);
      r[j] <==> Old(full, windowMs, calls[j]) && NoneNear(r, windowMs, calls, j)
    decreases j
  {
    if j > 0 {
      var c, rest := calls[0], calls[1..];
      var full' := Remembered(full, windowMs, c);
      AcceptedFrom(full', windowMs, rest, j - 1);
      OldAfter(full, windowMs, c, calls[j]);
      NoneNearAfter(Admits(full, windowMs, c), AnswersUnpruned(full', windowMs, rest), windowMs, calls, j);
      hide Old, NoneNear, Admits, Remembered;
    }
  }

  /** A call is accepted exactly when no earlier accepted call from its address is
      less than a window before it. */
  lemma AcceptedExactly(windowMs: int, calls: seq<Call>, j: nat)
    requires forall i, j :: 0 <= i < j < |calls| ==> calls[i].now <= calls[j].now
    requires j < |calls|
    ensures var r := Answers(map[], windowMs, calls);
      r[j] <==> forall i :: 0 <= i < j && r[i] && calls[i].ip == calls[j].ip ==> calls[j].now - calls[i].now >= windowMs
  {
    PruningIsInvisible(windowMs, calls);
    AcceptedFrom(map[], windowMs, calls, j);
  }
}
