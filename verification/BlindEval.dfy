/** The blind evaluation handler: attestation, age gate, the two gates of Gates,
    then the evaluation. */
module BlindEval {
  import opened Calendar
  import opened Gates
  import opened Sets
  import opened Store
  import opened Wrappers
  import Voprf

  /** What a verified attestation says: the date of birth, if the certificate
      carries one, and the hashes of the subject and of the envelope. */
  datatype Attested = Attested(dob: Option<Date>, subject: Hash, envelope: Hash)

  /** An attestation error has a code; any other exception is rethrown. */
  datatype Attestation = Verified(attested: Attested) | NotAttested(code: string) | Crashed

  /** A request, with what the libraries make of it (whether the body validates,
      what the attestation yields, what blindEvaluate returns for the input, None
      where it throws), the day and the second; or a run of the timer. */
  datatype Call =
    | Evaluate(wellFormed: bool, attestation: Attestation, outcome: Option<Voprf.Evaluation>,
               today: Date, now: int)
    | Timer(now: int)

  datatype Answer =
    | BadRequest
    | Unattested(code: string)
    | ServerError
    | AgeBelowThreshold(min: int, found: int)
    | ReplayedAttestation
    | TooMany
    | BadBlindedInput
    | Evaluated(evaluation: Voprf.Evaluation)
    | Pruned

  datatype Handled = Handled(tables: Tables, answer: Answer)

  /** Admitted by the age gate; a certificate without the attribute is. */
  predicate OldEnough(threshold: int, dob: Option<Date>, today: Date) {
    threshold > 0 && dob.Some? ==> Age(dob.value, today) >= threshold
  }

  /** The event that the gates see. */
  function Seen(threshold: int, c: Call): Event {
    match c
    case Timer(now) => Cleanup(now)
    case Evaluate(wellFormed, attestation, _, today, now) =>
      if wellFormed && attestation.Verified? && OldEnough(threshold, attestation.attested.dob, today)
      then Request(attestation.attested.envelope, attestation.attested.subject, now)
      else TurnedAway(now)
  }

  function AnswerTo(threshold: int, c: Call, v: Verdict): Answer {
    match v
    case Cleaned => Pruned
    case Replayed => ReplayedAttestation
    case Throttled => TooMany
    case Admitted => if c.Evaluate? && c.outcome.Some? then Evaluated(c.outcome.value) else BadBlindedInput
    case Barred =>
      if c.Timer? then Pruned
      else if !c.wellFormed then BadRequest
      else match c.attestation
        case NotAttested(code) => Unattested(code)
        case Crashed => ServerError
        case Verified(v) => AgeBelowThreshold(threshold, if v.dob.Some? then Age(v.dob.value, c.today) else 0)
  }

  /** The handler, or the timer, on the tables. */
  function Handling(p: Policy, threshold: int, t: Tables, c: Call): Handled {
    var stepped := Step(p, t, Seen(threshold, c));
    Handled(stepped.tables, AnswerTo(threshold, c, stepped.verdict))
  }

  method Handle(store: EnrollmentStore, p: Policy, threshold: int, c: Call) returns (answer: Answer)
    modifies store`replay, store`counts
    ensures Handled(Tables(store.replay, store.counts), answer)
         == Handling(p, threshold, old(Tables(store.replay, store.counts)), c)
  {
    if c.Timer? {
      CleanUp(store, p, c.now);
      return Pruned;
    }
    if !c.wellFormed {
      return BadRequest;
    }
    if c.attestation.NotAttested? {
      return Unattested(c.attestation.code);
    }
    if c.attestation.Crashed? {
      return ServerError;
    }
    var verified := c.attestation.attested;
    if threshold > 0 && verified.dob.Some? {
      var age := AgeInYears(verified.dob.value, c.today);
      if age < threshold {
        return AgeBelowThreshold(threshold, age);
      }
    }
    var verdict := PassGates(store, p, verified.envelope, verified.subject, c.now);
    if verdict == Replayed {
      return ReplayedAttestation;
    }
    if verdict == Throttled {
      return TooMany;
    }
    answer := if c.outcome.Some? then Evaluated(c.outcome.value) else BadBlindedInput;
  }

  // ----- runs -----------------------------------------------------------------------------------------

  /** The tables after a history of calls. */
  function TablesAfter(p: Policy, threshold: int, cs: seq<Call>): Tables {
    if cs == [] then Tables(map[], map[])
    else Handling(p, threshold, TablesAfter(p, threshold, cs[..|cs| - 1]), cs[|cs| - 1]).tables
  }

  function AnswerAt(p: Policy, threshold: int, cs: seq<Call>, i: nat): Answer
    requires i < |cs|
  {
    Handling(p, threshold, TablesAfter(p, threshold, cs[..i]), cs[i]).answer
  }

  function AllSeen(threshold: int, cs: seq<Call>): (es: seq<Event>)
    ensures |es| == |cs|
  {
    seq(|cs|, i requires 0 <= i < |cs| => Seen(threshold, cs[i]))
  }

  ghost predicate OrderedCalls(cs: seq<Call>) {
    forall i, j :: 0 <= i < j < |cs| ==> cs[i].now <= cs[j].now
  }

  lemma {:induction false} RunIsHistory(p: Policy, threshold: int, cs: seq<Call>)
    ensures TablesAfter(p, threshold, cs) == After(p, AllSeen(threshold, cs))
  {
    if cs != [] {
      var n := |cs| - 1;
      RunIsHistory(p, threshold, cs[..n]);
      assert AllSeen(threshold, cs)[..n] == AllSeen(threshold, cs[..n]);
    }
  }

  /** The age gate bars the holder: it is on, and the certificate carries a date of
      birth whose threshold birthday is still to come. */
  ghost predicate TooYoung(threshold: int, dob: Option<Date>, today: Date) {
    threshold > 0 && dob.Some? && !NotAfter(Birthday(dob.value, threshold), today)
  }

  /** What a call is answered when the tables are t. */
  ghost function AnswerOn(p: Policy, threshold: int, t: Tables, c: Call): Answer {
    if c.Timer? then Pruned
    else if !c.wellFormed then BadRequest
    else if c.attestation.NotAttested? then Unattested(c.attestation.code)
    else if c.attestation.Crashed? then ServerError
    else
      var v := c.attestation.attested;
      if TooYoung(threshold, v.dob, c.today) then AgeBelowThreshold(threshold, Age(v.dob.value, c.today))
      else if v.envelope in t.replay then ReplayedAttestation
      else if p.cap > 0 && v.subject in t.counts && t.counts[v.subject].count >= p.cap then TooMany
      else if c.outcome.None? then BadBlindedInput
      else Evaluated(c.outcome.value)
  }

  lemma TooYoungWhen(threshold: int, dob: Option<Date>, today: Date)
    ensures TooYoung(threshold, dob, today) <==> !OldEnough(threshold, dob, today)
  {
    if threshold > 0 && dob.Some? {
      AgeGate(dob.value, today, threshold);
    }
  }

  /** The answer to every call, on the tables that the calls before it have left. */
  lemma AnswerIs(p: Policy, threshold: int, cs: seq<Call>, i: nat)
    requires i < |cs|
    ensures AnswerAt(p, threshold, cs, i) == AnswerOn(p, threshold, TablesAfter(p, threshold, cs[..i]), cs[i])
  {
    if cs[i].Evaluate? && cs[i].attestation.Verified? {
      TooYoungWhen(threshold, cs[i].attestation.attested.dob, cs[i].today);
    }
    RunIsHistory(p, threshold, cs[..i]);
    CountsPositive(p, AllSeen(threshold, cs[..i]));
    hide After, TooYoung, OldEnough, Age, TablesAfter;
  }

  /** What a call leaves of the tables t. */
  ghost function TablesOn(p: Policy, threshold: int, t: Tables, c: Call): Tables {
    if c.Timer? then
      Tables(map h | h in t.replay && t.replay[h] >= c.now - p.ttl :: t.replay[h],
             map h | h in t.counts && t.counts[h].firstSeen >= c.now - p.ttl :: t.counts[h])
    else if !c.wellFormed || !c.attestation.Verified? then t
    else
      var v := c.attestation.attested;
      if TooYoung(threshold, v.dob, c.today) || v.envelope in t.replay then t
      else Tables(t.replay[v.envelope := c.now],
                  if p.cap <= 0 then t.counts
                  else if v.subject in t.counts
                  then t.counts[v.subject := Tally(t.counts[v.subject].count + 1, t.counts[v.subject].firstSeen)]
                  else t.counts[v.subject := Tally(1, c.now)])
  }

  /** A call that reaches the gates with a new envelope records it and is counted,
      also when it is then throttled or not evaluated; the timer prunes both tables;
      no other call changes them. */
  lemma TablesAre(p: Policy, threshold: int, cs: seq<Call>, i: nat)
    requires i < |cs|
    ensures TablesAfter(p, threshold, cs[..i + 1]) == TablesOn(p, threshold, TablesAfter(p, threshold, cs[..i]), cs[i])
  {
    if cs[i].Evaluate? && cs[i].attestation.Verified? {
      TooYoungWhen(threshold, cs[i].attestation.attested.dob, cs[i].today);
    }
    assert cs[..i + 1][..i] == cs[..i];
    var t := TablesAfter(p, threshold, cs[..i]);
    assert TablesAfter(p, threshold, cs[..i + 1]) == Handling(p, threshold, t, cs[i]).tables;
    hide TablesAfter, TooYoung, OldEnough, Age;
  }

  /** Who is evaluated. */
  lemma EvaluatedExactly(p: Policy, threshold: int, cs: seq<Call>, i: nat)
    requires i < |cs|
    ensures var t := TablesAfter(p, threshold, cs[..i]);
      AnswerAt(p, threshold, cs, i).Evaluated? <==>
        && cs[i].Evaluate? && cs[i].wellFormed && cs[i].attestation.Verified?
        && var v := cs[i].attestation.attested;
        && (threshold <= 0 || v.dob.None?
            || NotAfter(Date(v.dob.value.year + threshold, v.dob.value.month, v.dob.value.day), cs[i].today))
        && v.envelope !in t.replay
        && (p.cap <= 0 || v.subject !in t.counts || t.counts[v.subject].count < p.cap)
        && cs[i].outcome.Some?
  {
    AnswerIs(p, threshold, cs, i);
    hide AnswerAt, NotAfter, Age, TablesAfter;
  }

  /** Who is too young. */
  lemma TooYoungExactly(p: Policy, threshold: int, cs: seq<Call>, i: nat)
    requires i < |cs|
    ensures AnswerAt(p, threshold, cs, i).AgeBelowThreshold? <==>
      && cs[i].Evaluate? && cs[i].wellFormed && cs[i].attestation.Verified? && threshold > 0
      && var dob := cs[i].attestation.attested.dob;
      dob.Some? && !NotAfter(Date(dob.value.year + threshold, dob.value.month, dob.value.day), cs[i].today)
  {
    AnswerIs(p, threshold, cs, i);
    hide AnswerAt, NotAfter, Age, TablesAfter;
  }

  /** The subject s is granted an evaluation by call i. */
  ghost predicate EvaluatedFor(p: Policy, threshold: int, cs: seq<Call>, i: nat, s: Hash)
    requires i < |cs|
  {
    && AnswerAt(p, threshold, cs, i).Evaluated?
    && cs[i].Evaluate? && cs[i].attestation.Verified? && cs[i].attestation.attested.subject == s
  }

  lemma EvaluatedIsAdmitted(p: Policy, threshold: int, cs: seq<Call>, i: nat, s: Hash)
    requires i < |cs| && EvaluatedFor(p, threshold, cs, i, s)
    ensures AdmittedFor(p, AllSeen(threshold, cs), i, s)
    ensures PassesReplay(p, AllSeen(threshold, cs), i, cs[i].attestation.attested.envelope)
  {
    RunIsHistory(p, threshold, cs[..i]);
    assert AllSeen(threshold, cs)[..i] == AllSeen(threshold, cs[..i]);
  }

  /** Nobody is evaluated before the threshold birthday, unless the certificate
      carries no date of birth or the gate is off. */
  lemma EvaluatedAreOfAge(p: Policy, threshold: int, cs: seq<Call>, i: nat)
    requires i < |cs| && AnswerAt(p, threshold, cs, i).Evaluated?
    ensures cs[i].Evaluate? && cs[i].wellFormed && cs[i].attestation.Verified?
    ensures var dob := cs[i].attestation.attested.dob;
      threshold <= 0 || dob.None? || NotAfter(Birthday(dob.value, threshold), cs[i].today)
  {
    if threshold > 0 && cs[i].Evaluate? && cs[i].attestation.Verified? && cs[i].attestation.attested.dob.Some? {
      AgeGate(cs[i].attestation.attested.dob.value, cs[i].today, threshold);
    }
  }

  predicate LeavesNoTrace(a: Answer) {
    a in {BadRequest, ServerError, ReplayedAttestation} || a.Unattested? || a.AgeBelowThreshold?
  }

  /** A request refused for its form, its attestation or its age leaves no trace:
      it burns neither the envelope nor a retry. A replayed one burns no retry. */
  lemma RefusalsLeaveNoTrace(p: Policy, threshold: int, t: Tables, c: Call)
    ensures var done := Handling(p, threshold, t, c);
      && (LeavesNoTrace(done.answer) ==> done.tables == t)
      && (done.answer.AgeBelowThreshold? ==> threshold > 0 && done.answer.found < done.answer.min == threshold)
  {}

  /** One envelope is evaluated at most once in ttl seconds. */
  lemma OneEvaluationPerEnvelope(p: Policy, threshold: int, cs: seq<Call>, i: nat, j: nat, s: Hash, s': Hash)
    requires OrderedCalls(cs) && i < j < |cs|
    requires EvaluatedFor(p, threshold, cs, i, s) && EvaluatedFor(p, threshold, cs, j, s')
    requires cs[i].attestation.attested.envelope == cs[j].attestation.attested.envelope
    ensures cs[j].now - cs[i].now > p.ttl
  {
    EvaluatedIsAdmitted(p, threshold, cs, i, s);
    EvaluatedIsAdmitted(p, threshold, cs, j, s');
    ReplaysAreSpaced(p, AllSeen(threshold, cs), i, j, cs[i].attestation.attested.envelope);
  }

  ghost function EvaluatedIn(p: Policy, threshold: int, cs: seq<Call>, s: Hash, a: int): set<int> {
    set i: int | 0 <= i < |cs| && EvaluatedFor(p, threshold, cs, i, s) && a <= cs[i].now <= a + p.ttl
  }

  /** Any closed window of ttl seconds grants one subject at most 2 cap - 1
      evaluations. */
  lemma EvaluationsPerWindow(p: Policy, threshold: int, cs: seq<Call>, s: Hash, a: int)
    requires p.cap > 0 && p.ttl >= 0 && OrderedCalls(cs)
    ensures |EvaluatedIn(p, threshold, cs, s, a)| <= 2 * p.cap - 1
  {
    var es := AllSeen(threshold, cs);
    forall i | i in EvaluatedIn(p, threshold, cs, s, a) ensures i in Window(p, es, s, a) {
      EvaluatedIsAdmitted(p, threshold, cs, i, s);
    }
    SubsetSize(EvaluatedIn(p, threshold, cs, s, a), Window(p, es, s, a));
    WindowBound(p, es, s, a);
  }

  lemma EvaluatedIsOutcome(p: Policy, threshold: int, cs: seq<Call>, i: nat)
    requires i < |cs| && AnswerAt(p, threshold, cs, i).Evaluated?
    ensures cs[i].Evaluate? && cs[i].outcome == Some(AnswerAt(p, threshold, cs, i).evaluation)
  {}

  /** What blindEvaluate of the OPRF module returns for the input x. */
  ghost function Outcome<P(!new)>(s: Voprf.Suite<P>, x: P, k: int, r: int): Option<Voprf.Evaluation>
    requires Voprf.IsSuite(s)
  {
    match Voprf.BlindEvaluate(s, s.enc(x), k, Voprf.PublicKey(s, k), r)
    case Ok(e) => Some(e)
    case Err(_) => None
  }

  /** k times the input, with a proof that verifies under the service's key unless
      one of its two scalars is zero. */
  ghost predicate Convincing<P(!new)>(s: Voprf.Suite<P>, x: P, k: int, r: int, e: Voprf.Evaluation)
    requires Voprf.IsSuite(s)
  {
    var c := Voprf.HonestChallenge(s, x, k, r);
    && e.y == s.enc(s.g.mul(k, x))
    && Voprf.VerifyProof(s, Voprf.PublicKey(s, k), s.enc(x), e.y, e.proof)
       == if c == 0 || (r - c * k) % s.g.order == 0 then Err(Voprf.BadScalar) else Ok(true)
  }

  lemma OutcomeConvinces<P(!new)>(s: Voprf.Suite<P>, x: P, k: int, r: int)
    requires Voprf.IsSuite(s) && 1 <= k < s.g.order && 1 <= r < s.g.order
    ensures Outcome(s, x, k, r).Some? && Convincing(s, x, k, r, Outcome(s, x, k, r).value)
  {
    hide Voprf.IsSuite, Voprf.HonestChallenge, Voprf.VerifyProof, Voprf.BlindEvaluate, Voprf.PublicKey;
    var c := Voprf.HonestChallenge(s, x, k, r);
    ConvincesWith(s, x, k, r, c, (r - c * k) % s.g.order);
  }

  lemma ConvincesWith<P(!new)>(s: Voprf.Suite<P>, x: P, k: int, r: int, c: int, z: int)
    requires Voprf.IsSuite(s) && 1 <= k < s.g.order && 1 <= r < s.g.order
    requires c == Voprf.HonestChallenge(s, x, k, r) && z == (r - c * k) % s.g.order
    ensures Outcome(s, x, k, r).Some? && Convincing(s, x, k, r, Outcome(s, x, k, r).value)
  {
    hide Voprf.IsSuite, Voprf.HonestChallenge, Voprf.VerifyProof, Voprf.BlindEvaluate, Voprf.PublicKey;
    Voprf.HonestProofAccepted(s, x, k, r, c, z);
  }

  /** Whoever is evaluated receives k M with a convincing proof. */
  lemma EvaluatedVerifies<P(!new)>(p: Policy, threshold: int, cs: seq<Call>, i: nat, s: Voprf.Suite<P>, x: P, k: int,
                                   r: int)
    requires i < |cs| && AnswerAt(p, threshold, cs, i).Evaluated?
    requires Voprf.IsSuite(s) && 1 <= k < s.g.order && 1 <= r < s.g.order
    requires cs[i].Evaluate? && cs[i].outcome == Outcome(s, x, k, r)
    ensures Convincing(s, x, k, r, AnswerAt(p, threshold, cs, i).evaluation)
  {
    EvaluatedIsOutcome(p, threshold, cs, i);
    hide AnswerAt, Voprf.IsSuite, Outcome, Convincing;
    OutcomeConvinces(s, x, k, r);
  }
}
