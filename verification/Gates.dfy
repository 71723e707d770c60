/** The two gates in front of blind evaluation: the replay cache of signed
    envelopes and the per-subject counter, both pruned by age at any moment. */
module Gates {
  import opened Sets
  import opened Store

  /** Rows older than ttl seconds are pruned; cap evaluations per counter row. */
  datatype Policy = Policy(ttl: int, cap: int)
  datatype Tables = Tables(replay: map<Hash, int>, counts: map<Hash, Tally>)

  /** A request whose attestation and age passed, one that was turned away before
      the gates, or a run of the cleanup timer. */
  datatype Event = Request(envelope: Hash, subject: Hash, now: int) | TurnedAway(now: int) | Cleanup(now: int)

  datatype Verdict = Replayed | Throttled | Admitted | Barred | Cleaned
  datatype Stepped = Stepped(tables: Tables, verdict: Verdict)

  function Step(p: Policy, t: Tables, e: Event): Stepped {
    match e
    case TurnedAway(_) => Stepped(t, Barred)
    case Cleanup(now) =>
      Stepped(Tables(KeepSeen(t.replay, now - p.ttl), KeepTallies(t.counts, now - p.ttl)), Cleaned)
    case Request(envelope, subject, now) =>
      if envelope in t.replay then Stepped(t, Replayed)
      else
        var replay := Recorded(t.replay, envelope, now);
        if p.cap <= 0 then Stepped(Tables(replay, t.counts), Admitted)
        else
          var counts := Counted(t.counts, subject, now);
          Stepped(Tables(replay, counts), if counts[subject].count > p.cap then Throttled else Admitted)
  }

  /** The gate part of the request handler. */
  method PassGates(store: EnrollmentStore, p: Policy, envelope: Hash, subject: Hash, now: int) returns (v: Verdict)
    modifies store`replay, store`counts
    ensures Stepped(Tables(store.replay, store.counts), v)
         == Step(p, old(Tables(store.replay, store.counts)), Request(envelope, subject, now))
  {
    var isFresh := store.RecordP7sHashIfFresh(envelope, now);
    if !isFresh {
      return Replayed;
    }
    if p.cap > 0 {
      var row := store.IncrementBlindEvalCount(subject, now);
      if row.count > p.cap {
        return Throttled;
      }
    }
    v := Admitted;
  }

  /** The cleanup timer. */
  method CleanUp(store: EnrollmentStore, p: Policy, now: int)
    modifies store`replay, store`counts
    ensures Stepped(Tables(store.replay, store.counts), Cleaned)
         == Step(p, old(Tables(store.replay, store.counts)), Cleanup(now))
  {
    var cutoff := now - p.ttl;
    store.PruneReplayCache(cutoff);
    store.PruneBlindEvalCounts(cutoff);
  }

  // ----- histories --------------------------------------------------------------------------------

  /** The tables after a history that starts with empty ones. */
  function After(p: Policy, es: seq<Event>): Tables {
    if es == [] then Tables(map[], map[])
    else Step(p, After(p, es[..|es| - 1]), es[|es| - 1]).tables
  }

  function VerdictAt(p: Policy, es: seq<Event>, i: nat): Verdict
    requires i < |es|
  {
    Step(p, After(p, es[..i]), es[i]).verdict
  }

  /** The clock never goes back. */
  ghost predicate Ordered(es: seq<Event>) {
    forall i, j :: 0 <= i < j < |es| ==> es[i].now <= es[j].now
  }

  lemma AfterNext(p: Policy, es: seq<Event>, i: nat)
    requires i < |es|
    ensures After(p, es[..i + 1]) == Step(p, After(p, es[..i]), es[i]).tables
  {
    assert es[..i + 1][..i] == es[..i];
  }

  /** What is asked of the tables, and what is answered. With the counter off every
      fresh envelope is admitted. */
  lemma VerdictIs(p: Policy, es: seq<Event>, i: nat)
    requires i < |es|
    ensures var before, e := After(p, es[..i]), es[i];
      VerdictAt(p, es, i) == match e
        case TurnedAway(_) => Barred
        case Cleanup(_) => Cleaned
        case Request(envelope, subject, now) =>
          if envelope in before.replay then Replayed
          else if p.cap > 0 && subject in before.counts && before.counts[subject].count >= p.cap then Throttled
          else Admitted
    ensures p.cap <= 0 ==> After(p, es[..i]).counts == map[]
    ensures p.cap > 0 ==> forall s :: s in After(p, es[..i]).counts ==> After(p, es[..i]).counts[s].count >= 1
  {
    CountsPositive(p, es[..i]);
  }

  lemma {:induction false} CountsPositive(p: Policy, es: seq<Event>)
    ensures p.cap <= 0 ==> After(p, es).counts == map[]
    ensures forall s :: s in After(p, es).counts ==> After(p, es).counts[s].count >= 1
  {
    if es != [] {
      CountsPositive(p, es[..|es| - 1]);
    }
  }

  // ----- the replay gate ------------------------------------------------------------------------------

  /** Request i carries the envelope h and passes the replay check. */
  ghost predicate PassesReplay(p: Policy, es: seq<Event>, i: nat, h: Hash)
    requires i < |es|
  {
    es[i].Request? && es[i].envelope == h && h !in After(p, es[..i]).replay
  }

  /** Once passed, an envelope stays in the cache until more than ttl seconds
      have gone by. */
  lemma {:induction false} RememberedWhileFresh(p: Policy, es: seq<Event>, i: nat, h: Hash, n: nat)
    requires Ordered(es) && i < n <= |es| && PassesReplay(p, es, i, h)
    ensures Remembers(p, es, i, h, n)
  {
    AfterNext(p, es, n - 1);
    hide After;
    if i < n - 1 {
      RememberedWhileFresh(p, es, i, h, n - 1);
    }
  }

  ghost predicate Remembers(p: Policy, es: seq<Event>, i: nat, h: Hash, n: nat)
    requires i < n <= |es|
  {
    var replay := After(p, es[..n]).replay;
    (h in replay && es[i].now <= replay[h]) || es[n - 1].now - es[i].now > p.ttl
  }

  /** Two requests that pass the replay check with one envelope are more than
      ttl seconds apart, however the cleanups fall. */
  lemma ReplaysAreSpaced(p: Policy, es: seq<Event>, i: nat, j: nat, h: Hash)
    requires Ordered(es) && i < j < |es|
    requires PassesReplay(p, es, i, h) && PassesReplay(p, es, j, h)
    ensures es[j].now - es[i].now > p.ttl
  {
    RememberedWhileFresh(p, es, i, h, j);
  }

  /** No cleanup among the events from i to n removes a row of time t. */
  ghost predicate Unpruned(p: Policy, es: seq<Event>, i: nat, n: nat, t: int)
    requires n <= |es|
  {
    forall j :: i < j < n && es[j].Cleanup? ==> !(t < es[j].now - p.ttl)
  }

  /** The envelope has passed with request i and has not been pruned since. */
  ghost predicate CachedSince(p: Policy, es: seq<Event>, i: nat, n: nat, h: Hash)
    requires i < n <= |es|
  {
    PassesReplay(p, es, i, h) && Unpruned(p, es, i, n, es[i].now)
  }

  /** How one event changes the row of an envelope. */
  lemma CacheChange(p: Policy, es: seq<Event>, n: nat, h: Hash)
    requires n < |es|
    ensures var before, after := After(p, es[..n]).replay, After(p, es[..n + 1]).replay;
      if PassesReplay(p, es, n, h) then h in after && after[h] == es[n].now
      else
        && (h in after <==> h in before && !(es[n].Cleanup? && before[h] < es[n].now - p.ttl))
        && (h in after ==> after[h] == before[h])
  {
    AfterNext(p, es, n);
  }

  ghost predicate HasTime(p: Policy, es: seq<Event>, n: nat, h: Hash, t: int)
    requires n <= |es|
  {
    h in After(p, es[..n]).replay && After(p, es[..n]).replay[h] == t
  }

  lemma {:induction false} CacheKeeps(p: Policy, es: seq<Event>, i: nat, n: nat, h: Hash)
    requires i < n <= |es| && CachedSince(p, es, i, n, h)
    ensures HasTime(p, es, n, h, es[i].now)
  {
    CacheChange(p, es, n - 1, h);
    if i < n - 1 {
      UnprunedNext(p, es, i, n - 1, es[i].now);
      CacheKeeps(p, es, i, n - 1, h);
    }
    hide After;
  }

  lemma {:induction false} CachedFrom(p: Policy, es: seq<Event>, n: nat, h: Hash) returns (i: nat)
    requires n <= |es| && h in After(p, es[..n]).replay
    ensures i < n && CachedSince(p, es, i, n, h)
  {
    CacheChange(p, es, n - 1, h);
    if PassesReplay(p, es, n - 1, h) {
      i := n - 1;
      assert Unpruned(p, es, i, n, es[i].now);
    } else {
      i := CachedFrom(p, es, n - 1, h);
      CacheKeeps(p, es, i, n - 1, h);
      UnprunedNext(p, es, i, n - 1, es[i].now);
    }
  }

  /** An envelope is in the cache exactly when a request with it has passed and no
      cleanup since was more than ttl later; the row keeps the time of that pass. */
  lemma CacheMeaning(p: Policy, es: seq<Event>, n: nat, h: Hash)
    requires n <= |es|
    ensures h in After(p, es[..n]).replay <==> exists i: nat :: i < n && CachedSince(p, es, i, n, h)
    ensures forall i: nat :: i < n && CachedSince(p, es, i, n, h) ==> HasTime(p, es, n, h, es[i].now)
  {
    forall i: nat | i < n && CachedSince(p, es, i, n, h) ensures HasTime(p, es, n, h, es[i].now) {
      CacheKeeps(p, es, i, n, h);
    }
    if h in After(p, es[..n]).replay {
      var i := CachedFrom(p, es, n, h);
    }
  }

  lemma UnprunedNext(p: Policy, es: seq<Event>, i: nat, n: nat, t: int)
    requires i < n < |es|
    ensures Unpruned(p, es, i, n + 1, t) <==>
      Unpruned(p, es, i, n, t) && !(es[n].Cleanup? && t < es[n].now - p.ttl)
  {}

  /** After a cleanup more than ttl later an envelope passes again, unless it has
      passed in between. */
  lemma PassesAgain(p: Policy, es: seq<Event>, i: nat, j: nat, k: nat, h: Hash)
    requires i < j < k < |es| && PassesReplay(p, es, i, h)
    requires es[j].Cleanup? && es[i].now < es[j].now - p.ttl
    requires es[k].Request? && es[k].envelope == h
    requires forall q: nat :: i < q < k ==> !PassesReplay(p, es, q, h)
    ensures PassesReplay(p, es, k, h)
  {
    CacheMeaning(p, es, i, h);
    CacheMeaning(p, es, k, h);
  }

  // ----- the counter ------------------------------------------------------------------------------------

  /** Event i is counted for s: its envelope passes the replay check. */
  ghost predicate CountedFor(p: Policy, es: seq<Event>, i: nat, s: Hash)
    requires i < |es|
  {
    es[i].Request? && es[i].subject == s && PassesReplay(p, es, i, es[i].envelope)
  }

  ghost predicate OpensRow(p: Policy, es: seq<Event>, i: nat, s: Hash)
    requires i < |es|
  {
    CountedFor(p, es, i, s) && s !in After(p, es[..i]).counts
  }

  /** How many events from i to n are counted for s. */
  ghost function TallyOf(p: Policy, es: seq<Event>, i: nat, n: nat, s: Hash): nat
    requires i <= n <= |es|
  {
    if i == n then 0 else TallyOf(p, es, i, n - 1, s) + if CountedFor(p, es, n - 1, s) then 1 else 0
  }

  /** The row opened by event i is still there after n events. */
  ghost predicate RowSince(p: Policy, es: seq<Event>, i: nat, n: nat, s: Hash)
    requires i < n <= |es|
  {
    OpensRow(p, es, i, s) && Unpruned(p, es, i, n, es[i].now)
  }

  lemma RowSinceNext(p: Policy, es: seq<Event>, i: nat, n: nat, s: Hash)
    requires i < n < |es|
    ensures RowSince(p, es, i, n + 1, s) <==>
      RowSince(p, es, i, n, s) && !(es[n].Cleanup? && es[i].now < es[n].now - p.ttl)
  {
    UnprunedNext(p, es, i, n, es[i].now);
    hide OpensRow;
  }

  ghost predicate HasRow(p: Policy, es: seq<Event>, i: nat, n: nat, s: Hash)
    requires i < n <= |es|
  {
    var counts := After(p, es[..n]).counts;
    s in counts && counts[s] == Tally(TallyOf(p, es, i, n, s), es[i].now)
  }

  lemma {:induction false} RowCounts(p: Policy, es: seq<Event>, i: nat, n: nat, s: Hash)
    requires p.cap > 0 && i < n <= |es| && RowSince(p, es, i, n, s)
    ensures HasRow(p, es, i, n, s)
  {
    RowChangeExactly(p, es, n - 1, s);
    if i < n - 1 {
      RowSinceNext(p, es, i, n - 1, s);
      RowCounts(p, es, i, n - 1, s);
    } else {
      assert TallyOf(p, es, i, i, s) == 0;
    }
    hide After, CountedFor;
  }

  lemma NoRowsAtFirst(p: Policy, es: seq<Event>, n: nat, s: Hash)
    requires n <= |es| && s in After(p, es[..n]).counts
    ensures n > 0
  {}

  lemma {:induction false} RowWasOpened(p: Policy, es: seq<Event>, n: nat, s: Hash) returns (i: nat)
    requires p.cap > 0 && n <= |es| && s in After(p, es[..n]).counts
    ensures i < n && RowSince(p, es, i, n, s)
  {
    RowChangeExactly(p, es, n - 1, s);
    NoRowsAtFirst(p, es, n, s);
    hide After, CountedFor;
    if s in After(p, es[..n - 1]).counts {
      i := RowWasOpened(p, es, n - 1, s);
      RowCounts(p, es, i, n - 1, s);
      RowSinceNext(p, es, i, n - 1, s);
    } else {
      i := n - 1;
      assert Unpruned(p, es, i, n, es[i].now);
    }
  }

  /** A subject has a row exactly when one was opened and no cleanup since was more
      than ttl later; the row counts every request from then on, admitted or not,
      and keeps the time at which it was opened. */
  lemma RowMeaning(p: Policy, es: seq<Event>, n: nat, s: Hash)
    requires p.cap > 0 && n <= |es|
    ensures s in After(p, es[..n]).counts <==> exists i: nat :: i < n && RowSince(p, es, i, n, s)
    ensures forall i: nat :: i < n && RowSince(p, es, i, n, s) ==> HasRow(p, es, i, n, s)
  {
    forall i: nat | i < n && RowSince(p, es, i, n, s) ensures HasRow(p, es, i, n, s) {
      RowCounts(p, es, i, n, s);
    }
    if s in After(p, es[..n]).counts {
      var i := RowWasOpened(p, es, n, s);
    }
  }

  /** How one event changes the row of s. */
  lemma RowChangeExactly(p: Policy, es: seq<Event>, n: nat, s: Hash)
    requires p.cap > 0 && n < |es|
    ensures var before, after := After(p, es[..n]).counts, After(p, es[..n + 1]).counts;
      if CountedFor(p, es, n, s) then
        && s in after
        && after[s] == (if s in before then Tally(before[s].count + 1, before[s].firstSeen) else Tally(1, es[n].now))
      else
        && (s in after <==> s in before && !(es[n].Cleanup? && before[s].firstSeen < es[n].now - p.ttl))
        && (s in after ==> after[s] == before[s])
  {
    AfterNext(p, es, n);
  }

  /** Event i is an evaluation for s, counted in the row first seen at f. */
  ghost predicate InRow(p: Policy, es: seq<Event>, i: nat, s: Hash, f: int)
    requires i < |es|
  {
    && es[i].Request? && es[i].subject == s
    && VerdictAt(p, es, i) == Admitted
    && s in After(p, es[..i + 1]).counts
    && After(p, es[..i + 1]).counts[s].firstSeen == f
  }

  ghost predicate AdmittedFor(p: Policy, es: seq<Event>, i: nat, s: Hash)
    requires i < |es|
  {
    es[i].Request? && es[i].subject == s && VerdictAt(p, es, i) == Admitted
  }

  /** The row in which an evaluation was counted. */
  ghost function RowOf(p: Policy, es: seq<Event>, i: nat, s: Hash): (f: int)
    requires p.cap > 0 && i < |es| && AdmittedFor(p, es, i, s)
    ensures InRow(p, es, i, s, f)
  {
    AfterNext(p, es, i);
    After(p, es[..i + 1]).counts[s].firstSeen
  }

  /** The evaluations for s among the first n events counted in the row f. */
  ghost function RowSet(p: Policy, es: seq<Event>, n: nat, s: Hash, f: int): set<int>
    requires n <= |es|
  {
    set i: int | 0 <= i < n && InRow(p, es, i, s, f)
  }

  lemma RowSetNext(p: Policy, es: seq<Event>, n: nat, s: Hash, f: int)
    requires n < |es|
    ensures RowSet(p, es, n + 1, s, f)
         == if InRow(p, es, n, s, f) then RowSet(p, es, n, s, f) + {n} else RowSet(p, es, n, s, f)
    ensures n !in RowSet(p, es, n, s, f)
  {}

  /** What n events leave behind for the subject s. A row has at most as many
      evaluations as its count, and at most cap; its first one was at firstSeen. */
  ghost predicate RowsBounded(p: Policy, es: seq<Event>, n: nat, s: Hash)
    requires n <= |es|
  {
    var counts := After(p, es[..n]).counts;
    && (forall f :: |RowSet(p, es, n, s, f)| <= p.cap)
    && (s in counts ==> counts[s].count >= 1 && |RowSet(p, es, n, s, counts[s].firstSeen)| <= counts[s].count)
  }

  /** Rows follow each other: an older row was first seen more than ttl before
      the current one or before now, and all its evaluations precede the current
      row. */
  ghost predicate RowsInSuccession(p: Policy, es: seq<Event>, n: nat, s: Hash)
    requires n <= |es|
  {
    var counts := After(p, es[..n]).counts;
    && (s in counts && n > 0 ==> counts[s].firstSeen <= es[n - 1].now)
    && forall i: nat, f :: i < n && InRow(p, es, i, s, f) ==> Succession(p, es, n, s, i, f)
  }

  ghost predicate Succession(p: Policy, es: seq<Event>, n: nat, s: Hash, i: nat, f: int)
    requires i < n <= |es|
  {
    var counts := After(p, es[..n]).counts;
    && f <= es[i].now
    && (s in counts && counts[s].firstSeen != f ==> f + p.ttl < counts[s].firstSeen && es[i].now <= counts[s].firstSeen)
    && (s !in counts ==> f + p.ttl < es[n - 1].now)
  }

  /** The row f was opened by an evaluation at time f. */
  ghost predicate Opened(p: Policy, es: seq<Event>, n: nat, s: Hash, f: int)
    requires n <= |es|
  {
    exists i: nat :: i < n && InRow(p, es, i, s, f) && es[i].now == f
  }

  ghost predicate RowsOpened(p: Policy, es: seq<Event>, n: nat, s: Hash)
    requires n <= |es|
  {
    var counts := After(p, es[..n]).counts;
    && (s in counts ==> Opened(p, es, n, s, counts[s].firstSeen))
    && forall i: nat, f :: i < n && InRow(p, es, i, s, f) ==> Opened(p, es, n, s, f)
  }

  /** How one event changes the row of s: it is counted up, opened, pruned, or
      left alone. */
  lemma RowChange(p: Policy, es: seq<Event>, n: nat, s: Hash)
    requires p.cap > 0 && n < |es|
    ensures var before, after := After(p, es[..n]).counts, After(p, es[..n + 1]).counts;
      var counted := es[n].Request? && es[n].subject == s && es[n].envelope !in After(p, es[..n]).replay;
      if counted then
        && s in after
        && after[s] == (if s in before then Tally(before[s].count + 1, before[s].firstSeen) else Tally(1, es[n].now))
        && (AdmittedFor(p, es, n, s) <==> after[s].count <= p.cap)
      else
        && !AdmittedFor(p, es, n, s)
        && (s in after ==> s in before && after[s] == before[s])
        && (s in before && s !in after ==> before[s].firstSeen < es[n].now - p.ttl)
  {
    AfterNext(p, es, n);
  }

  lemma {:induction false} Succeeds(p: Policy, es: seq<Event>, n: nat, s: Hash)
    requires p.cap > 0 && p.ttl >= 0 && Ordered(es) && n <= |es|
    ensures RowsInSuccession(p, es, n, s)
  {
    if n > 0 {
      Succeeds(p, es, n - 1, s);
      RowChange(p, es, n - 1, s);
      forall i: nat, f | i < n && InRow(p, es, i, s, f) ensures Succession(p, es, n, s, i, f) {
        if i < n - 1 {
          assert Succession(p, es, n - 1, s, i, f);
        }
      }
    }
  }

  lemma {:induction false} Opens(p: Policy, es: seq<Event>, n: nat, s: Hash)
    requires p.cap > 0 && n <= |es|
    ensures RowsOpened(p, es, n, s)
  {
    if n > 0 {
      Opens(p, es, n - 1, s);
      RowChange(p, es, n - 1, s);
      var before, after := After(p, es[..n - 1]).counts, After(p, es[..n]).counts;
      hide After, VerdictAt;
      if s in after {
        if s in before && after[s].firstSeen == before[s].firstSeen {
          OpenedStays(p, es, n - 1, s, before[s].firstSeen);
        } else {
          assert InRow(p, es, n - 1, s, after[s].firstSeen);
        }
      }
      forall i: nat, f | i < n && InRow(p, es, i, s, f) ensures Opened(p, es, n, s, f) {
        if i < n - 1 {
          OpenedStays(p, es, n - 1, s, f);
        }
      }
    }
  }

  lemma OpenedStays(p: Policy, es: seq<Event>, n: nat, s: Hash, f: int)
    requires n < |es| && Opened(p, es, n, s, f)
    ensures Opened(p, es, n + 1, s, f)
  {}

  /** A newly opened row is empty: every earlier row of s is older. */
  lemma NewRowIsEmpty(p: Policy, es: seq<Event>, n: nat, s: Hash)
    requires p.ttl >= 0 && n < |es| && Ordered(es) && RowsInSuccession(p, es, n, s)
    requires s !in After(p, es[..n]).counts
    ensures RowSet(p, es, n, s, es[n].now) == {}
  {
    forall i: nat, f | i < n && InRow(p, es, i, s, f) ensures f < es[n].now {
      assert Succession(p, es, n, s, i, f);
    }
  }

  /** One event adds at most itself to a row, and only to the row it counts up. */
  lemma RowGrowth(p: Policy, es: seq<Event>, n: nat, s: Hash, f: int)
    requires p.cap > 0 && n < |es|
    ensures var grows := InRow(p, es, n, s, f); var after := After(p, es[..n + 1]).counts;
      && |RowSet(p, es, n + 1, s, f)| == |RowSet(p, es, n, s, f)| + (if grows then 1 else 0)
      && (grows ==> s in after && after[s].firstSeen == f && after[s].count <= p.cap)
  {
    RowSetNext(p, es, n, s, f);
    RowChange(p, es, n, s);
    assert InRow(p, es, n, s, f) ==> AdmittedFor(p, es, n, s);
  }

  lemma CountKeepsUp(p: Policy, es: seq<Event>, n: nat, s: Hash)
    requires p.cap > 0 && p.ttl >= 0 && Ordered(es) && n < |es| && RowsBounded(p, es, n, s)
    ensures var after := After(p, es[..n + 1]).counts;
      s in after ==> after[s].count >= 1 && |RowSet(p, es, n + 1, s, after[s].firstSeen)| <= after[s].count
  {
    Succeeds(p, es, n, s);
    var before, after := After(p, es[..n]).counts, After(p, es[..n + 1]).counts;
    if s !in before {
      NewRowIsEmpty(p, es, n, s);
    }
    RowChange(p, es, n, s);
    if s in after {
      RowGrowth(p, es, n, s, after[s].firstSeen);
      assert InRow(p, es, n, s, after[s].firstSeen) ==> AdmittedFor(p, es, n, s);
    }
  }

  /** No row outgrows the cap in one event: a row that grows is the current one. */
  lemma RowStaysBounded(p: Policy, es: seq<Event>, n: nat, s: Hash, f: int)
    requires p.cap > 0 && p.ttl >= 0 && Ordered(es) && n < |es| && RowsBounded(p, es, n, s)
    ensures |RowSet(p, es, n + 1, s, f)| <= p.cap
  {
    RowGrowth(p, es, n, s, f);
    CountKeepsUp(p, es, n, s);
  }

  lemma AllStayBounded(p: Policy, es: seq<Event>, n: nat, s: Hash)
    requires p.cap > 0 && p.ttl >= 0 && Ordered(es) && n < |es| && RowsBounded(p, es, n, s)
    ensures RowsBounded(p, es, n + 1, s)
  {
    hide RowSet, After;
    CountKeepsUp(p, es, n, s);
    var next := n + 1;
    forall f ensures |RowSet(p, es, next, s, f)| <= p.cap {
      RowStaysBounded(p, es, n, s, f);
    }
  }

  lemma NoRowsYet(p: Policy, es: seq<Event>, s: Hash)
    requires p.cap > 0
    ensures RowsBounded(p, es, 0, s)
  {
    assert forall f :: RowSet(p, es, 0, s, f) == {};
  }

  lemma {:induction false} Bounded(p: Policy, es: seq<Event>, n: nat, s: Hash)
    requires p.cap > 0 && p.ttl >= 0 && Ordered(es) && n <= |es|
    ensures RowsBounded(p, es, n, s)
  {
    hide RowsBounded;
    if n > 0 {
      Bounded(p, es, n - 1, s);
      AllStayBounded(p, es, n - 1, s);
    } else {
      NoRowsYet(p, es, s);
    }
  }

  /** A counter row admits at most cap evaluations. */
  lemma RowAdmitsAtMostCap(p: Policy, es: seq<Event>, s: Hash, f: int)
    requires p.cap > 0 && p.ttl >= 0 && Ordered(es)
    ensures |RowSet(p, es, |es|, s, f)| <= p.cap
  {
    Bounded(p, es, |es|, s);
  }

  /** Of two evaluations in different rows the later row was first seen more
      than ttl after the earlier one, and not before the earlier evaluation. */
  lemma RowsApart(p: Policy, es: seq<Event>, i: nat, j: nat, s: Hash, f: int, f': int)
    requires p.cap > 0 && p.ttl >= 0 && Ordered(es) && i < j < |es|
    requires InRow(p, es, i, s, f) && InRow(p, es, j, s, f') && f != f'
    ensures f + p.ttl < f' && es[i].now <= f' <= es[j].now
  {
    Succeeds(p, es, j + 1, s);
    assert Succession(p, es, j + 1, s, i, f);
    assert Succession(p, es, j + 1, s, j, f');
  }

  // ----- any window of ttl seconds --------------------------------------------------------------------------

  ghost predicate InWindow(p: Policy, es: seq<Event>, i: nat, s: Hash, a: int)
    requires i < |es|
  {
    AdmittedFor(p, es, i, s) && a <= es[i].now <= a + p.ttl
  }

  ghost function Window(p: Policy, es: seq<Event>, s: Hash, a: int): set<int> {
    set i: int | 0 <= i < |es| && InWindow(p, es, i, s, a)
  }

  lemma NoThreeRows(p: Policy, es: seq<Event>, i: nat, j: nat, k: nat, s: Hash, a: int)
    requires p.cap > 0 && p.ttl >= 0 && Ordered(es) && i < j < k < |es|
    requires InWindow(p, es, i, s, a) && InWindow(p, es, j, s, a) && InWindow(p, es, k, s, a)
    ensures RowOf(p, es, i, s) == RowOf(p, es, j, s) || RowOf(p, es, j, s) == RowOf(p, es, k, s)
  {
    var f, g, h := RowOf(p, es, i, s), RowOf(p, es, j, s), RowOf(p, es, k, s);
    if f != g && g != h {
      RowsApart(p, es, i, j, s, f, g);
      RowsApart(p, es, j, k, s, g, h);
    }
  }

  /** With two rows in the window, there is no third. */
  lemma RowOfThird(p: Policy, es: seq<Event>, i: nat, j: nat, k: nat, s: Hash, a: int)
    requires p.cap > 0 && p.ttl >= 0 && Ordered(es) && i < j < |es| && k < |es|
    requires InWindow(p, es, i, s, a) && InWindow(p, es, j, s, a) && InWindow(p, es, k, s, a)
    requires RowOf(p, es, i, s) != RowOf(p, es, j, s)
    ensures RowOf(p, es, k, s) == RowOf(p, es, i, s) || RowOf(p, es, k, s) == RowOf(p, es, j, s)
  {
    if RowOf(p, es, k, s) != RowOf(p, es, i, s) && RowOf(p, es, k, s) != RowOf(p, es, j, s) {
      if k < i {
        NoThreeRows(p, es, k, i, j, s, a);
      } else if k < j {
        NoThreeRows(p, es, i, k, j, s, a);
      } else {
        NoThreeRows(p, es, i, j, k, s, a);
      }
    }
  }

  /** Two rows in one window cover it, and the evaluation that opened the
      earlier one lies before it. */
  lemma WindowInTwoRows(p: Policy, es: seq<Event>, i: nat, j: nat, s: Hash, a: int) returns (o: int)
    requires p.cap > 0 && p.ttl >= 0 && Ordered(es) && i < j < |es|
    requires InWindow(p, es, i, s, a) && InWindow(p, es, j, s, a)
    requires RowOf(p, es, i, s) != RowOf(p, es, j, s)
    ensures o in RowSet(p, es, |es|, s, RowOf(p, es, i, s))
    ensures Window(p, es, s, a)
         <= (RowSet(p, es, |es|, s, RowOf(p, es, i, s)) - {o}) + RowSet(p, es, |es|, s, RowOf(p, es, j, s))
  {
    var f, f' := RowOf(p, es, i, s), RowOf(p, es, j, s);
    RowsApart(p, es, i, j, s, f, f');
    Opens(p, es, |es|, s);
    assert Opened(p, es, |es|, s, f);
    var k: nat :| k < |es| && InRow(p, es, k, s, f) && es[k].now == f;
    o := k;
    hide InRow, After;
    forall k | k in Window(p, es, s, a)
      ensures k != o && (InRow(p, es, k, s, f) || InRow(p, es, k, s, f'))
    {
      RowOfThird(p, es, i, j, k, s, a);
    }
  }

  lemma TwoRowWindow(p: Policy, es: seq<Event>, i: nat, j: nat, s: Hash, a: int)
    requires p.cap > 0 && p.ttl >= 0 && Ordered(es) && i < j < |es|
    requires InWindow(p, es, i, s, a) && InWindow(p, es, j, s, a)
    requires RowOf(p, es, i, s) != RowOf(p, es, j, s)
    ensures |Window(p, es, s, a)| <= 2 * p.cap - 1
  {
    var f, f' := RowOf(p, es, i, s), RowOf(p, es, j, s);
    var o := WindowInTwoRows(p, es, i, j, s, a);
    hide InRow, RowSet, Window;
    var r, r' := RowSet(p, es, |es|, s, f), RowSet(p, es, |es|, s, f');
    SubsetSize(Window(p, es, s, a), (r - {o}) + r');
    RowAdmitsAtMostCap(p, es, s, f);
    RowAdmitsAtMostCap(p, es, s, f');
  }

  ghost predicate TwoRows(p: Policy, es: seq<Event>, i: nat, j: nat, s: Hash, a: int)
    requires p.cap > 0 && i < |es| && j < |es|
  {
    InWindow(p, es, i, s, a) && InWindow(p, es, j, s, a) && RowOf(p, es, i, s) != RowOf(p, es, j, s)
  }

  /** Any closed window of ttl seconds holds at most 2 cap - 1 evaluations for
      one subject, over every history and with cleanups at any moment. */
  lemma WindowBound(p: Policy, es: seq<Event>, s: Hash, a: int)
    requires p.cap > 0 && p.ttl >= 0 && Ordered(es)
    ensures |Window(p, es, s, a)| <= 2 * p.cap - 1
  {
    if i: nat, j: nat :| i < j < |es| && TwoRows(p, es, i, j, s, a) {
      TwoRowWindow(p, es, i, j, s, a);
    } else if i: nat :| i < |es| && InWindow(p, es, i, s, a) {
      var f := RowOf(p, es, i, s);
      forall k | k in Window(p, es, s, a) ensures k in RowSet(p, es, |es|, s, f) {
        assert k < i ==> !TwoRows(p, es, k, i, s, a);
        assert i < k ==> !TwoRows(p, es, i, k, s, a);
      }
      SubsetSize(Window(p, es, s, a), RowSet(p, es, |es|, s, f));
      RowAdmitsAtMostCap(p, es, s, f);
    } else {
      assert Window(p, es, s, a) == {};
    }
  }

  // ----- the bound is reached ------------------------------------------------------------------------------------

  /** An envelope that differs from the others by its length. */
  function Envelope(i: nat): Hash { seq(i, _ => 0) }

  const SUBJECT: Hash := [1]

  /** One evaluation at 0; cap - 1 more as late as they are still counted with it;
      a cleanup that removes the row; cap more in the same second. */
  function Flood(p: Policy): seq<Event>
    requires p.cap > 0
  {
    seq(2 * p.cap + 1, i requires 0 <= i => FloodEvent(p, i))
  }

  function FloodEvent(p: Policy, i: nat): Event {
    if i == p.cap then Cleanup(p.ttl + 1)
    else Request(Envelope(i), SUBJECT, if i == 0 then 0 else p.ttl + 1)
  }

  /** After i events: the row counts them, from the cleanup on anew, and only the
      envelopes of earlier events are known. */
  ghost predicate Flooding(p: Policy, i: nat, t: Tables) {
    && (forall e :: e in t.replay ==> |e| < i)
    && (if i == 0 || i == p.cap + 1 then SUBJECT !in t.counts
        else SUBJECT in t.counts
             && t.counts[SUBJECT] == if i <= p.cap then Tally(i, 0) else Tally(i - p.cap - 1, p.ttl + 1))
  }

  lemma FloodStep(p: Policy, i: nat, t: Tables)
    requires p.cap > 0 && p.ttl >= 0 && i <= 2 * p.cap && Flooding(p, i, t)
    ensures Flooding(p, i + 1, Step(p, t, FloodEvent(p, i)).tables)
    ensures i != p.cap ==> Step(p, t, FloodEvent(p, i)).verdict == Admitted
  {
    assert Envelope(i) !in t.replay;
  }

  lemma FloodPrefix(p: Policy, i: nat)
    requires p.cap > 0 && i <= 2 * p.cap
    ensures After(p, Flood(p)[..i + 1]) == Step(p, After(p, Flood(p)[..i]), FloodEvent(p, i)).tables
    ensures VerdictAt(p, Flood(p), i) == Step(p, After(p, Flood(p)[..i]), FloodEvent(p, i)).verdict
  {
    assert Flood(p)[i] == FloodEvent(p, i);
    hide After, Step, FloodEvent, Flood;
    AfterNext(p, Flood(p), i);
  }

  lemma {:induction false} FloodState(p: Policy, i: nat)
    requires p.cap > 0 && p.ttl >= 0 && i <= 2 * p.cap + 1
    ensures Flooding(p, i, After(p, Flood(p)[..i]))
  {
    if i > 0 {
      hide Flooding, FloodEvent, Step, After, Flood;
      var j := i - 1;
      FloodState(p, j);
      FloodPrefix(p, j);
      FloodStep(p, j, After(p, Flood(p)[..j]));
    } else {
      assert Flood(p)[..0] == [];
    }
  }

  /** The 2 cap - 1 late evaluations are admitted within one second. */
  lemma FloodWindow(p: Policy)
    requires p.cap > 0 && p.ttl >= 0
    ensures Window(p, Flood(p), SUBJECT, 1) == Below(2 * p.cap + 1) - {0, p.cap}
  {
    forall i: nat | i <= 2 * p.cap
      ensures InWindow(p, Flood(p), i, SUBJECT, 1) <==> i != 0 && i != p.cap
    {
      FloodAt(p, i);
    }
    hide InWindow, Flood;
  }

  lemma FloodAt(p: Policy, i: nat)
    requires p.cap > 0 && p.ttl >= 0 && i <= 2 * p.cap
    ensures InWindow(p, Flood(p), i, SUBJECT, 1) <==> i != 0 && i != p.cap
  {
    assert Flood(p)[i] == FloodEvent(p, i);
    FloodState(p, i);
    FloodStep(p, i, After(p, Flood(p)[..i]));
    FloodPrefix(p, i);
    hide After, Step, Flooding, VerdictAt, Flood;
  }

  /** For every cap and every ttl there is a history that reaches the bound. */
  lemma WindowBoundIsReached(p: Policy)
    requires p.cap > 0 && p.ttl >= 0
    ensures Ordered(Flood(p)) && |Window(p, Flood(p), SUBJECT, 1)| == 2 * p.cap - 1
  {
    FloodWindow(p);
    hide Window;
    var all := Below(2 * p.cap + 1);
    assert all - {0, p.cap} == all - {0} - {p.cap};
  }
}
