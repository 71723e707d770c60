/** The walk over a cert-only SignedData bundle (section 5.1 of RFC 5652). */
module P7b {
  import opened Bytes
  import opened Der
  import opened Sets
  import opened Wrappers

  datatype P7bError = Malformed(DerError) | NotSequence | NotSignedData | NotExplicit
                    | BadSignedData | BadVersion | BadDigests | BadContentInfo

  /** Object identifier 1.2.840.113549.1.7.2, as an element. */
  const OID_SIGNED_DATA: seq<Byte> := [0x06, 0x09, 0x2a, 0x86, 0x48, 0x86, 0xf7, 0x0d, 0x01, 0x07, 0x02]

  // ----- the specification of the walk --------------------------------------------------------------

  datatype Span = Span(start: int, stop: int)

  /** An element that must carry a tag. */
  function Expect(der: seq<Byte>, off: int, tag: Byte, wrong: P7bError): Result<Tlv, P7bError> {
    match ReadTlv(der, off)
    case Err(e) => Err(Malformed(e))
    case Ok(t) => if t.tag == tag then Ok(t) else Err(wrong)
  }

  /** The SignedData inside the ContentInfo. */
  function LocateSignedData(der: seq<Byte>): Result<Tlv, P7bError> {
    match Expect(der, 0, 0x30, NotSequence)
    case Err(e) => Err(e)
    case Ok(ci) =>
      if !HoldsAt(der, ci.contentStart, OID_SIGNED_DATA) then Err(NotSignedData)
      else
        match Expect(der, ci.contentStart + |OID_SIGNED_DATA|, 0xa0, NotExplicit)
        case Err(e) => Err(e)
        case Ok(exp) => Expect(der, exp.contentStart, 0x30, BadSignedData)
  }

  /** The end of the three fields before the certificates. */
  function SkipFields(der: seq<Byte>, start: int): Result<int, P7bError> {
    match Expect(der, start, 0x02, BadVersion)
    case Err(e) => Err(e)
    case Ok(ver) =>
      match Expect(der, ver.contentEnd, 0x31, BadDigests)
      case Err(e) => Err(e)
      case Ok(da) =>
        match Expect(der, da.contentEnd, 0x30, BadContentInfo)
        case Err(e) => Err(e)
        case Ok(eci) => Ok(eci.contentEnd)
  }

  /** The field at cur, if it is there and is the certificates field. */
  function FieldAt(der: seq<Byte>, cur: int, end: int): Result<Option<Span>, P7bError> {
    if cur >= end then Ok(None)
    else
      match ReadTlv(der, cur)
      case Err(e) => Err(Malformed(e))
      case Ok(next) =>
        if next.tag != 0xa0 then Ok(None) else Ok(Some(Span(next.contentStart, next.contentEnd)))
  }

  /** The contents of the certificates field, or None when there is none. */
  function Locate(der: seq<Byte>): Result<Option<Span>, P7bError> {
    match LocateSignedData(der)
    case Err(e) => Err(e)
    case Ok(sd) =>
      match SkipFields(der, sd.contentStart)
      case Err(e) => Err(e)
      case Ok(cur) => FieldAt(der, cur, sd.contentEnd)
  }

  /** The loop stops here: at the end, or at an element that cannot be read. */
  predicate Stops(der: seq<Byte>, ptr: int, end: int) {
    ptr >= end || ReadTlv(der, ptr).Err?
  }

  /** Where the walk stands after at most k elements, whether it advances or not. */
  function After(der: seq<Byte>, ptr: int, end: int, k: nat): int
    decreases k
  {
    if k == 0 || Stops(der, ptr, end) then ptr
    else After(der, ReadTlv(der, ptr).value.contentEnd, end, k - 1)
  }

  /** Every element met on the walk from ptr ends behind its start. */
  ghost predicate Advances(der: seq<Byte>, ptr: int, end: int)
    decreases |der| - ptr
  {
    ptr < end && ReadTlv(der, ptr).Ok? ==>
      var next := ReadTlv(der, ptr).value.contentEnd;
      ptr < next && Advances(der, next, end)
  }

  /** Every element met on the walk declares a length below 2^31. */
  ghost predicate ShortLengths(der: seq<Byte>, ptr: nat, end: int)
    decreases |der| - ptr
  {
    ptr < end && ReadTlv(der, ptr).Ok? ==>
      && Declared(der, ptr + 1) < 0x8000_0000
      && (AdvancesWhen(der, ptr); ShortLengths(der, ReadTlv(der, ptr).value.contentEnd, end))
  }

  /** The elements with tag 0x30 between ptr and end. */
  ghost function Sequences(der: seq<Byte>, ptr: int, end: int): Result<seq<Span>, P7bError>
    requires Advances(der, ptr, end)
    decreases |der| - ptr
  {
    if ptr >= end then Ok([])
    else
      match ReadTlv(der, ptr)
      case Err(e) => Err(Malformed(e))
      case Ok(t) =>
        match Sequences(der, t.contentEnd, end)
        case Err(e) => Err(e)
        case Ok(rest) => Ok(if t.tag == 0x30 then [Span(ptr, t.contentEnd)] + rest else rest)
  }

  /** What the loop collects in at most k steps, which are enough. */
  ghost function Collected(der: seq<Byte>, ptr: int, end: int, k: nat): Result<seq<Span>, P7bError>
    requires Stops(der, After(der, ptr, end, k), end)
    decreases k
  {
    if ptr >= end then Ok([])
    else
      match ReadTlv(der, ptr)
      case Err(e) => Err(Malformed(e))
      case Ok(t) =>
        match Collected(der, t.contentEnd, end, k - 1)
        case Err(e) => Err(e)
        case Ok(rest) => Ok(if t.tag == 0x30 then [Span(ptr, t.contentEnd)] + rest else rest)
  }

  /** The loop over the located field ends, if there is one: by then it has made
      at most |der| + 1 steps (EndsInTimeOrNever). */
  ghost predicate Terminates(der: seq<Byte>) {
    match Locate(der)
    case Ok(Some(field)) => Stops(der, After(der, field.start, field.stop, |der| + 1), field.stop)
    case _ => true
  }

  /** The walk of the located field advances to its end. */
  ghost predicate Walkable(der: seq<Byte>) {
    match Locate(der)
    case Ok(Some(field)) => Advances(der, field.start, field.stop)
    case _ => true
  }

  ghost predicate Inside(der: seq<Byte>, s: Span) {
    0 <= s.start < s.stop <= |der|
  }

  /** The octets of a span, der.slice(start, stop); a negative stop counts from
      the end. */
  function Slice(der: seq<Byte>, s: Span): seq<Byte> {
    var stop := if s.stop < 0 then |der| + s.stop else s.stop;
    if 0 <= s.start <= stop <= |der| then der[s.start..stop] else []
  }

  function Slices(der: seq<Byte>, spans: seq<Span>): seq<seq<Byte>> {
    seq(|spans|, i requires 0 <= i < |spans| => Slice(der, spans[i]))
  }

  function SlicesOf(der: seq<Byte>, r: Result<seq<Span>, P7bError>): Result<seq<seq<Byte>>, P7bError> {
    match r case Err(e) => Err(e) case Ok(spans) => Ok(Slices(der, spans))
  }

  /** What parseP7b returns. */
  ghost function Parsed(der: seq<Byte>): Result<seq<seq<Byte>>, P7bError>
    requires Terminates(der)
  {
    match Locate(der)
    case Err(e) => Err(e)
    case Ok(None) => Ok([])
    case Ok(Some(field)) => SlicesOf(der, Collected(der, field.start, field.stop, |der| + 1))
  }

  // ----- the program -------------------------------------------------------------------------------------

  method BytesEqAt(a: seq<Byte>, off: nat, b: seq<Byte>) returns (r: bool)
    ensures r == HoldsAt(a, off, b)
  {
    if off + |b| > |a| {
      return false;
    }
    for i := 0 to |b|
      invariant forall j :: 0 <= j < i ==> a[off + j] == b[j]
    {
      if a[off + i] != b[i] {
        assert a[off..off + |b|][i] != b[i];
        return false;
      }
    }
    return true;
  }

  method ReadExpected(der: seq<Byte>, off: int, tag: Byte, wrong: P7bError) returns (r: Result<Tlv, P7bError>)
    ensures r == Expect(der, off, tag, wrong)
  {
    var t := ReadElement(der, off);
    if t.Err? {
      return Err(Malformed(t.error));
    }
    r := if t.value.tag == tag then Ok(t.value) else Err(wrong);
  }

  ghost function Prepend(spans: seq<Span>, r: Result<seq<Span>, P7bError>): Result<seq<Span>, P7bError> {
    match r case Err(e) => Err(e) case Ok(rest) => Ok(spans + rest)
  }

  /** The loop over the certificates field, which ends within k steps. */
  method CollectCertificates(der: seq<Byte>, start: int, end: int, ghost k: nat)
    returns (r: Result<seq<seq<Byte>>, P7bError>)
    requires Stops(der, After(der, start, end, k), end)
    ensures r == SlicesOf(der, Collected(der, start, end, k))
  {
    var certs: seq<seq<Byte>> := [];
    ghost var spans: seq<Span> := [];
    var ptr := start;
    ghost var left := k;
    assert forall rest: seq<Span> :: [] + rest == rest;
    while ptr < end
      invariant Stops(der, After(der, ptr, end, left), end)
      invariant certs == Slices(der, spans)
      invariant Collected(der, start, end, k) == Prepend(spans, Collected(der, ptr, end, left))
      decreases left
    {
      var cert := ReadElement(der, ptr);
      if cert.Err? {
        return Err(Malformed(cert.error));
      }
      var next := cert.value.contentEnd;
      if cert.value.tag == 0x30 {
        var piece := Slice(der, Span(ptr, next));
        assert Slices(der, spans + [Span(ptr, next)]) == Slices(der, spans) + [piece];
        certs := certs + [piece];
        ghost var before := spans;
        spans := spans + [Span(ptr, next)];
        assert forall rest: seq<Span> :: before + ([Span(ptr, next)] + rest) == spans + rest;
      }
      ptr := next;
      left := left - 1;
    }
    assert spans + [] == spans;
    r := Ok(certs);
  }

  /** parseP7b, on every input on which it ends. */
  method ParseP7b(der: seq<Byte>) returns (r: Result<seq<seq<Byte>>, P7bError>)
    requires Terminates(der)
    ensures r == Parsed(der)
  {
    var ci := ReadExpected(der, 0, 0x30, NotSequence);
    if ci.Err? { return Err(ci.error); }
    ContentBehindHeader(der, 0);
    var isSigned := BytesEqAt(der, ci.value.contentStart, OID_SIGNED_DATA);
    if !isSigned { return Err(NotSignedData); }
    var cur := ci.value.contentStart + |OID_SIGNED_DATA|;
    var exp := ReadExpected(der, cur, 0xa0, NotExplicit);
    if exp.Err? { return Err(exp.error); }
    cur := exp.value.contentStart;
    var sd := ReadExpected(der, cur, 0x30, BadSignedData);
    if sd.Err? { return Err(sd.error); }
    cur := sd.value.contentStart;
    var ver := ReadExpected(der, cur, 0x02, BadVersion);
    if ver.Err? { return Err(ver.error); }
    cur := ver.value.contentEnd;
    var da := ReadExpected(der, cur, 0x31, BadDigests);
    if da.Err? { return Err(da.error); }
    cur := da.value.contentEnd;
    var eci := ReadExpected(der, cur, 0x30, BadContentInfo);
    if eci.Err? { return Err(eci.error); }
    cur := eci.value.contentEnd;
    if cur >= sd.value.contentEnd { return Ok([]); }
    var next := ReadElement(der, cur);
    if next.Err? { return Err(Malformed(next.error)); }
    if next.value.tag != 0xa0 { return Ok([]); }
    ContentBehindHeader(der, cur);
    r := CollectCertificates(der, next.value.contentStart, next.value.contentEnd, |der| + 1);
  }

  /** An element with a tag starts inside the input. */
  lemma ContentBehindHeader(der: seq<Byte>, off: int)
    requires ReadTlv(der, off).Ok? && ReadTlv(der, off).value.tag >= 0
    ensures 0 <= off && ReadTlv(der, off).value.contentStart >= off + 2
  {}

  // ----- which bundles are refused ------------------------------------------------------------------------------

  /** An element with the tag stands at off. */
  ghost predicate Elem(der: seq<Byte>, off: int, tag: Byte) {
    ReadTlv(der, off).Ok? && ReadTlv(der, off).value.tag == tag
  }

  ghost function BodyOf(der: seq<Byte>, off: int): int {
    if ReadTlv(der, off).Ok? then ReadTlv(der, off).value.contentStart else 0
  }

  ghost function EndOf(der: seq<Byte>, off: int): int {
    if ReadTlv(der, off).Ok? then ReadTlv(der, off).value.contentEnd else 0
  }

  /** The object identifier of signedData, octet for octet. */
  ghost predicate OidAt(der: seq<Byte>, off: int) {
    && 0 <= off && off + 11 <= |der|
    && der[off] == 6 && der[off + 1] == 9 && der[off + 2] == 42 && der[off + 3] == 134 && der[off + 4] == 72
    && der[off + 5] == 134 && der[off + 6] == 247 && der[off + 7] == 13 && der[off + 8] == 1 && der[off + 9] == 7
    && der[off + 10] == 2
  }

  /** The error for what stands at off in place of an element with the right tag. */
  ghost function Fault(der: seq<Byte>, off: int, wrong: P7bError): P7bError {
    match ReadTlv(der, off) case Err(e) => Malformed(e) case Ok(_) => wrong
  }

  lemma OidIs(der: seq<Byte>, off: int)
    ensures HoldsAt(der, off, OID_SIGNED_DATA) <==> OidAt(der, off)
  {
    if 0 <= off && off + 11 <= |der| {
      var w := der[off..off + 11];
      assert forall i :: 0 <= i < 11 ==> w[i] == der[off + i];
      assert OidAt(der, off) ==> w == OID_SIGNED_DATA;
    }
  }

  /** Where the SignedData is: a SEQUENCE that holds the identifier and, under an
      explicit tag, a SEQUENCE. Otherwise the first fault is the error. */
  lemma SignedDataWhen(der: seq<Byte>)
    ensures var a := BodyOf(der, 0); var b := BodyOf(der, a + 11); var r := LocateSignedData(der);
      if !Elem(der, 0, 0x30) then r == Err(Fault(der, 0, NotSequence))
      else if !OidAt(der, a) then r == Err(NotSignedData)
      else if !Elem(der, a + 11, 0xa0) then r == Err(Fault(der, a + 11, NotExplicit))
      else if !Elem(der, b, 0x30) then r == Err(Fault(der, b, BadSignedData))
      else r == Ok(ReadTlv(der, b).value)
  {
    OidIs(der, BodyOf(der, 0));
    hide ReadTlv, OidAt, HoldsAt;
  }

  /** Where the certificates are: behind a version, the digests and the content
      information, an element with the tag 0xa0; without one there are none. */
  lemma LocateWhen(der: seq<Byte>)
    requires LocateSignedData(der).Ok?
    ensures var sd := LocateSignedData(der).value; var c := sd.contentStart;
      var d := EndOf(der, c); var e := EndOf(der, d); var f := EndOf(der, e); var r := Locate(der);
      if !Elem(der, c, 0x02) then r == Err(Fault(der, c, BadVersion))
      else if !Elem(der, d, 0x31) then r == Err(Fault(der, d, BadDigests))
      else if !Elem(der, e, 0x30) then r == Err(Fault(der, e, BadContentInfo))
      else if f >= sd.contentEnd then r == Ok(None)
      else if ReadTlv(der, f).Err? then r == Err(Malformed(ReadTlv(der, f).error))
      else r == Ok(if Elem(der, f, 0xa0) then Some(Span(BodyOf(der, f), EndOf(der, f))) else None)
  {
    hide ReadTlv, LocateSignedData;
  }

  /** A bundle that cannot be located is refused with that error. */
  lemma RefusedWhen(der: seq<Byte>)
    ensures LocateSignedData(der).Err? ==> Locate(der) == Err(LocateSignedData(der).error)
    ensures Locate(der).Err? ==> Terminates(der) && Parsed(der) == Err(Locate(der).error)
    ensures Locate(der) == Ok(None) ==> Terminates(der) && Parsed(der) == Ok([])
  {
    hide LocateSignedData, SkipFields;
  }

  // ----- termination ------------------------------------------------------------------------------------------

  /** Lengths below 2^31 make every step advance, by at least two octets. */
  lemma {:induction false} ShortLengthsAdvance(der: seq<Byte>, ptr: nat, end: int)
    requires ShortLengths(der, ptr, end)
    ensures Advances(der, ptr, end)
    ensures ptr < end && ReadTlv(der, ptr).Ok? ==> ReadTlv(der, ptr).value.contentEnd >= ptr + 2
    decreases |der| - ptr
  {
    if ptr < end && ReadTlv(der, ptr).Ok? {
      AdvancesWhen(der, ptr);
      ShortLengthsAdvance(der, ReadTlv(der, ptr).value.contentEnd, end);
    }
  }

  /** Every element met declares a length below 2^31 or within five of 2^32. */
  ghost predicate AdvancingLengths(der: seq<Byte>, ptr: nat, end: int)
    decreases |der| - ptr
  {
    ptr < end && ReadTlv(der, ptr).Ok? ==>
      && (Declared(der, ptr + 1) < 0x8000_0000 || Declared(der, ptr + 1) >= 0xffff_fffb)
      && (AdvancesWhen(der, ptr); AdvancingLengths(der, ReadTlv(der, ptr).value.contentEnd, end))
  }

  /** These are exactly the walks that advance. */
  lemma {:induction false} AdvancesExactly(der: seq<Byte>, ptr: nat, end: int)
    ensures Advances(der, ptr, end) <==> AdvancingLengths(der, ptr, end)
    decreases |der| - ptr
  {
    if ptr < end && ReadTlv(der, ptr).Ok? {
      AdvancesWhen(der, ptr);
      var next := ReadTlv(der, ptr).value.contentEnd;
      if ptr < next {
        AdvancesExactly(der, next, end);
      }
    }
  }

  lemma {:induction false} Stuck(der: seq<Byte>, ptr: int, end: int, k: nat)
    requires ReadTlv(der, ptr).Ok? && ReadTlv(der, ptr).value.contentEnd == ptr
    ensures After(der, ptr, end, k) == ptr
  {
    if k > 0 {
      Stuck(der, ptr, end, k - 1);
    }
  }

  lemma {:induction false} AfterAdds(der: seq<Byte>, ptr: int, end: int, j: nat, k: nat)
    ensures After(der, ptr, end, j + k) == After(der, After(der, ptr, end, j), end, k)
    decreases j
  {
    if j > 0 && !Stops(der, ptr, end) {
      AfterAdds(der, ReadTlv(der, ptr).value.contentEnd, end, j - 1, k);
    }
  }

  /** Once the walk has stopped it stays. */
  lemma StoppedStays(der: seq<Byte>, ptr: int, end: int, j: nat, k: nat)
    requires j <= k && Stops(der, After(der, ptr, end, j), end)
    ensures After(der, ptr, end, k) == After(der, ptr, end, j)
  {
    AfterAdds(der, ptr, end, j, k - j);
  }

  /** A walk that comes back to where it was goes round for ever. */
  lemma {:induction false} CycleNeverStops(der: seq<Byte>, ptr: int, end: int, i: nat, j: nat, k: nat)
    requires i < j && After(der, ptr, end, i) == After(der, ptr, end, j)
    requires !Stops(der, After(der, ptr, end, j), end)
    ensures !Stops(der, After(der, ptr, end, k), end)
  {
    if k <= j {
      if Stops(der, After(der, ptr, end, k), end) {
        StoppedStays(der, ptr, end, k, j);
      }
    } else {
      AfterAdds(der, ptr, end, i, k - j);
      AfterAdds(der, ptr, end, j, k - j);
      CycleNeverStops(der, ptr, end, i, j, k - (j - i));
    }
  }

  ghost predicate Repeats(der: seq<Byte>, ptr: int, end: int, n: nat) {
    exists i: nat, j: nat :: i < j < n && After(der, ptr, end, i) == After(der, ptr, end, j)
  }

  /** The first n positions. */
  ghost function Visited(der: seq<Byte>, ptr: int, end: int, n: nat): set<int> {
    set i | 0 <= i < n :: After(der, ptr, end, i)
  }

  lemma {:induction false} VisitedCount(der: seq<Byte>, ptr: int, end: int, n: nat)
    requires !Repeats(der, ptr, end, n)
    ensures |Visited(der, ptr, end, n)| == n
  {
    hide After;
    if n > 0 {
      assert !Repeats(der, ptr, end, n - 1);
      VisitedCount(der, ptr, end, n - 1);
      var last := After(der, ptr, end, n - 1);
      assert Visited(der, ptr, end, n) == Visited(der, ptr, end, n - 1) + {last};
      assert last !in Visited(der, ptr, end, n - 1);
    } else {
      assert Visited(der, ptr, end, n) == {};
    }
  }

  /** Where a walk over n octets can be. */
  ghost function Positions(n: nat): (r: set<int>)
    ensures |r| == n + 1
    ensures forall i :: i in r <==> -1 <= i < n
  {
    if n == 0 then {-1} else Positions(n - 1) + {n - 1}
  }

  /** The loop ends, if it ends at all, within one step more than there are octets.
      So whether parseP7b returns can be decided by counting steps. */
  lemma EndsInTimeOrNever(der: seq<Byte>, ptr: int, end: int)
    ensures (exists k: nat :: Stops(der, After(der, ptr, end, k), end))
       <==> Stops(der, After(der, ptr, end, |der| + 1), end)
  {
    var n := |der| + 1;
    if !Stops(der, After(der, ptr, end, n), end) {
      hide ReadTlv, After;
      forall i: nat | i <= n
        ensures -1 <= After(der, ptr, end, i) < |der| && !Stops(der, After(der, ptr, end, i), end)
      {
        if Stops(der, After(der, ptr, end, i), end) {
          StoppedStays(der, ptr, end, i, n);
        }
        RunningIsInside(der, After(der, ptr, end, i), end);
      }
      if !Repeats(der, ptr, end, n + 1) {
        VisitedCount(der, ptr, end, n + 1);
        SubsetSize(Visited(der, ptr, end, n + 1), Positions(|der|));
      }
      var i: nat, j: nat :| i < j < n + 1 && After(der, ptr, end, i) == After(der, ptr, end, j);
      forall k: nat ensures !Stops(der, After(der, ptr, end, k), end) {
        CycleNeverStops(der, ptr, end, i, j, k);
      }
    }
  }

  lemma RunningIsInside(der: seq<Byte>, ptr: int, end: int)
    requires !Stops(der, ptr, end)
    ensures -1 <= ptr < |der|
  {}

  /** A walk whose every step advances ends. */
  lemma {:induction false} AdvancingEnds(der: seq<Byte>, ptr: int, end: int) returns (k: nat)
    requires Advances(der, ptr, end)
    ensures Stops(der, After(der, ptr, end, k), end)
    decreases |der| - ptr
  {
    if Stops(der, ptr, end) {
      k := 0;
    } else {
      var rest := AdvancingEnds(der, ReadTlv(der, ptr).value.contentEnd, end);
      k := rest + 1;
    }
  }

  /** On a walk that advances the loop collects the elements with tag 0x30. */
  lemma {:induction false} AdvancingCollects(der: seq<Byte>, ptr: int, end: int, k: nat)
    requires Advances(der, ptr, end) && Stops(der, After(der, ptr, end, k), end)
    ensures Collected(der, ptr, end, k) == Sequences(der, ptr, end)
    decreases k
  {
    if !Stops(der, ptr, end) {
      AdvancingCollects(der, ReadTlv(der, ptr).value.contentEnd, end, k - 1);
    }
  }

  lemma AdvancingEndsInTime(der: seq<Byte>, ptr: int, end: int)
    requires Advances(der, ptr, end)
    ensures Stops(der, After(der, ptr, end, |der| + 1), end)
  {
    hide Stops, After, Advances;
    var k := AdvancingEnds(der, ptr, end);
    assert Stops(der, After(der, ptr, end, k), end);
    EndsInTimeOrNever(der, ptr, end);
  }

  lemma WalkableParses(der: seq<Byte>)
    requires Walkable(der)
    ensures Terminates(der)
    ensures Locate(der).Ok? && Locate(der).value.Some? ==>
      var field := Locate(der).value.value;
      Parsed(der) == SlicesOf(der, Sequences(der, field.start, field.stop))
  {
    hide Stops, After, Advances, Locate, Collected, Sequences;
    if Locate(der).Ok? && Locate(der).value.Some? {
      var field := Locate(der).value.value;
      AdvancingEndsInTime(der, field.start, field.stop);
      AdvancingCollects(der, field.start, field.stop, |der| + 1);
    }
  }

  lemma ReadShort(d: seq<Byte>, off: nat, tag: Byte, n: Byte)
    requires off + 2 + n <= |d| && d[off] == tag && d[off + 1] == n < 0x80
    ensures ReadTlv(d, off) == Ok(Tlv(tag, off + 2, off + 2 + n))
  {}

  /** A bundle whose only certificate declares the length 2^32 - 6. */
  const ENDLESS: seq<Byte> := [0x30, 0x1d] + OID_SIGNED_DATA + ENDLESS_TAIL
  const ENDLESS_TAIL: seq<Byte> :=
    [0xa0, 0x10, 0x30, 0x0e, 0x02, 0x00, 0x31, 0x00, 0x30, 0x00, 0xa0, 0x06, 0x30, 0x84, 0xff, 0xff, 0xff, 0xfa]

  lemma EndlessLocated()
    ensures |ENDLESS| == 31 && ENDLESS[13..] == ENDLESS_TAIL
    ensures Locate(ENDLESS) == Ok(Some(Span(25, 31)))
  {
    var d := ENDLESS;
    assert d[2..13] == OID_SIGNED_DATA;
    assert d[13..] == ENDLESS_TAIL;
    ReadShort(d, 0, 0x30, 0x1d);
    ReadShort(d, 13, 0xa0, 0x10);
    ReadShort(d, 15, 0x30, 0x0e);
    ReadShort(d, 17, 0x02, 0);
    ReadShort(d, 19, 0x31, 0);
    ReadShort(d, 21, 0x30, 0);
    ReadShort(d, 23, 0xa0, 6);
    hide ReadTlv;
    assert LocateSignedData(d) == Ok(Tlv(0x30, 17, 31));
    assert SkipFields(d, 17) == Ok(23);
  }

  /** A first element that ends where it starts holds the walk for ever. */
  lemma StandsStill(der: seq<Byte>, start: int, end: int)
    requires Locate(der) == Ok(Some(Span(start, end))) && start < end
    requires ReadTlv(der, start).Ok? && ReadTlv(der, start).value.contentEnd == start
    ensures forall k: nat :: After(der, start, end, k) == start && !Stops(der, After(der, start, end, k), end)
    ensures !Terminates(der)
  {
    assert !Stops(der, start, end);
    hide ReadTlv, After, Locate, Stops;
    forall k: nat ensures After(der, start, end, k) == start {
      Stuck(der, start, end, k);
    }
  }

  /** The certificate of that bundle seems to end where it starts. */
  lemma EndlessCertificate()
    ensures ReadTlv(ENDLESS, 25) == Ok(Tlv(0x30, 31, 25))
  {
    var d := ENDLESS;
    assert d[13..] == ENDLESS_TAIL;
    assert forall i :: 12 <= i < 18 ==> d[i + 13] == ENDLESS_TAIL[i];
    hide ReadTlv;
    assert d[25] == 0x30 && d[26] == 0x84 && d[27] == 0xff && d[28] == 0xff && d[29] == 0xff && d[30] == 0xfa;
    ReadNegative(d, 25);
  }

  /** On that bundle the walk never leaves the certificate: however many steps
      it takes, it is still in front of the end. */
  lemma WalkCanBeEndless()
    ensures Locate(ENDLESS) == Ok(Some(Span(25, 31)))
    ensures forall k: nat :: After(ENDLESS, 25, 31, k) == 25 && !Stops(ENDLESS, After(ENDLESS, 25, 31, k), 31)
    ensures !Terminates(ENDLESS)
  {
    hide ReadTlv, After, Locate, Stops, Terminates;
    EndlessLocated();
    EndlessCertificate();
    StandsStill(ENDLESS, 25, 31);
  }

  /** A bundle whose only certificate declares the length 2^32 - 14, so that the
      walk steps back to octets that read as an element up to the end. */
  const BACKWARD: seq<Byte> := [0x30, 0x1f] + OID_SIGNED_DATA + BACKWARD_TAIL
  const BACKWARD_TAIL: seq<Byte> :=
    [0xa0, 0x12, 0x30, 0x10, 0x02, 0x02, 0x30, 0x0c, 0x31, 0x00, 0x30, 0x00, 0xa0, 0x06, 0x30, 0x84, 0xff, 0xff, 0xff,
     0xf2]

  lemma BackwardLocated()
    ensures |BACKWARD| == 33 && BACKWARD[13..] == BACKWARD_TAIL
    ensures Locate(BACKWARD) == Ok(Some(Span(27, 33)))
  {
    var d := BACKWARD;
    assert d[2..13] == OID_SIGNED_DATA;
    assert d[13..] == BACKWARD_TAIL;
    ReadShort(d, 0, 0x30, 0x1f);
    ReadShort(d, 13, 0xa0, 0x12);
    ReadShort(d, 15, 0x30, 0x10);
    ReadShort(d, 17, 0x02, 2);
    ReadShort(d, 21, 0x31, 0);
    ReadShort(d, 23, 0x30, 0);
    ReadShort(d, 25, 0xa0, 6);
    hide ReadTlv;
    assert LocateSignedData(d) == Ok(Tlv(0x30, 17, 33));
    assert SkipFields(d, 17) == Ok(25);
  }

  lemma BackwardElements()
    ensures ReadTlv(BACKWARD, 27) == Ok(Tlv(0x30, 33, 19)) && ReadTlv(BACKWARD, 19) == Ok(Tlv(0x30, 21, 33))
  {
    var d := BACKWARD;
    assert d[13..] == BACKWARD_TAIL;
    assert forall i :: 6 <= i < 20 ==> d[i + 13] == BACKWARD_TAIL[i];
    hide ReadTlv;
    assert d[19] == 0x30 && d[20] == 0x0c;
    assert d[27] == 0x30 && d[28] == 0x84 && d[29] == 0xff && d[30] == 0xff && d[31] == 0xff && d[32] == 0xf2;
    ReadNegative(d, 27);
    ReadShort(d, 19, 0x30, 0x0c);
  }

  /** A walk of two steps over elements with tag 0x30. */
  lemma TwoSteps(der: seq<Byte>, ptr: int, next: int, end: int, k: nat)
    requires ptr < end && next < end && k >= 2
    requires ReadTlv(der, ptr).Ok? && ReadTlv(der, ptr).value.tag == 0x30 && ReadTlv(der, ptr).value.contentEnd == next
    requires ReadTlv(der, next).Ok? && ReadTlv(der, next).value.tag == 0x30
    requires ReadTlv(der, next).value.contentEnd == end
    ensures Stops(der, After(der, ptr, end, k), end)
    ensures Collected(der, ptr, end, k) == Ok([Span(ptr, next), Span(next, end)])
  {
    hide ReadTlv;
    assert After(der, ptr, end, k) == After(der, next, end, k - 1) == After(der, end, end, k - 2) == end;
    assert Collected(der, end, end, k - 2) == Ok([]);
    assert [Span(next, end)] + [] == [Span(next, end)];
    assert Collected(der, next, end, k - 1) == Ok([Span(next, end)]);
    assert [Span(ptr, next)] + [Span(next, end)] == [Span(ptr, next), Span(next, end)];
  }

  /** On that bundle the walk ends, and the results are neither apart nor whole:
      an empty one, and one that overlaps what stands before the certificates. */
  lemma WalkCanStepBack()
    ensures Locate(BACKWARD) == Ok(Some(Span(27, 33))) && |BACKWARD| == 33 && Terminates(BACKWARD)
    ensures Parsed(BACKWARD) == Ok(Slices(BACKWARD, [Span(27, 19), Span(19, 33)])) == Ok([[], BACKWARD[19..33]])
  {
    hide ReadTlv, Locate, Collected, After;
    BackwardLocated();
    BackwardElements();
    TwoSteps(BACKWARD, 27, 19, 33, |BACKWARD| + 1);
    var spans := [Span(27, 19), Span(19, 33)];
    assert Slice(BACKWARD, spans[0]) == [] && Slice(BACKWARD, spans[1]) == BACKWARD[19..33];
    assert Slices(BACKWARD, spans) == [[], BACKWARD[19..33]];
  }

  // ----- what is returned -----------------------------------------------------------------------------------------

  /** Where a result comes from: an element with tag 0x30 that was read there. */
  ghost predicate IsRead(der: seq<Byte>, s: Span) {
    && 0 <= s.start < |der| && der[s.start] == 0x30
    && ReadTlv(der, s.start).Ok? && ReadTlv(der, s.start).value.contentEnd == s.stop
  }

  /** The octets of a result. Where the element ends before it starts there are none,
      unless it ends before the input, where slice counts from the end. */
  lemma SliceIs(der: seq<Byte>, s: Span)
    requires IsRead(der, s)
    ensures s.start <= s.stop ==> s.stop <= |der| && Slice(der, s) == der[s.start..s.stop]
    ensures 0 <= s.stop < s.start ==> Slice(der, s) == []
    ensures s.stop < 0 ==>
      Slice(der, s) == if s.start <= |der| + s.stop then der[s.start..|der| + s.stop] else []
  {}

  /** On every walk that ends, whether it advances or not, each result is an
      element with tag 0x30 that was read from the input. */
  lemma {:induction false} CollectedAreRead(der: seq<Byte>, ptr: int, end: int, k: nat)
    requires Stops(der, After(der, ptr, end, k), end) && Collected(der, ptr, end, k).Ok?
    ensures forall s :: s in Collected(der, ptr, end, k).value ==> IsRead(der, s)
    decreases k
  {
    if ptr < end {
      CollectedAreRead(der, ReadTlv(der, ptr).value.contentEnd, end, k - 1);
    }
  }

  /** A result is a proper part of the input exactly when its declared length is
      below 2^31 or within five of 2^32. */
  lemma ProperWhen(der: seq<Byte>, s: Span)
    requires IsRead(der, s)
    ensures Inside(der, s) <==> Declared(der, s.start + 1) < 0x8000_0000 || Declared(der, s.start + 1) >= 0xffff_fffb
  {
    AdvancesWhen(der, s.start);
  }

  /** For every input whose walk advances, the spans ascend, do not overlap, lie
      inside the input and are elements with tag 0x30, complete when their
      declared length is below 2^31. */
  lemma {:induction false} SpansAreElements(der: seq<Byte>, ptr: int, end: int)
    requires 0 <= ptr && Advances(der, ptr, end) && Sequences(der, ptr, end).Ok?
    ensures var spans := Sequences(der, ptr, end).value;
      && (forall i :: 0 <= i < |spans| ==> ptr <= spans[i].start < end && Inside(der, spans[i]))
      && (forall i, j :: 0 <= i < j < |spans| ==> spans[i].stop <= spans[j].start)
      && (forall i :: 0 <= i < |spans| ==> IsSequenceElement(der, spans[i]))
    decreases |der| - ptr
  {
    if ptr < end {
      var t := ReadTlv(der, ptr).value;
      SpansAreElements(der, t.contentEnd, end);
      if t.tag == 0x30 {
        AdvancesWhen(der, ptr);
      }
    }
  }

  ghost predicate IsSequenceElement(der: seq<Byte>, s: Span) {
    && Inside(der, s) && der[s.start] == 0x30
    && ReadTlv(der, s.start).Ok?
    && var t := ReadTlv(der, s.start).value;
       t.contentEnd == s.stop && (Declared(der, s.start + 1) < 0x8000_0000 ==> t.contentStart <= s.stop)
  }

  ghost predicate IsShort(der: seq<Byte>, s: Span) {
    && 0 <= s.start && ReadTlv(der, s.start).Ok?
    && Declared(der, s.start + 1) < 0x8000_0000
  }

  lemma {:induction false} ShortSpans(der: seq<Byte>, ptr: nat, end: int)
    requires ShortLengths(der, ptr, end) && Advances(der, ptr, end) && Sequences(der, ptr, end).Ok?
    ensures forall s :: s in Sequences(der, ptr, end).value ==> IsShort(der, s)
    decreases |der| - ptr
  {
    if ptr < end {
      ShortSpans(der, ReadTlv(der, ptr).value.contentEnd, end);
    }
  }

  lemma FieldStart(der: seq<Byte>)
    requires Locate(der).Ok? && Locate(der).value.Some?
    ensures 0 <= Locate(der).value.value.start
  {
    hide LocateSignedData, SkipFields;
  }

  /** What the results are: complete elements with tag 0x30, in order and apart. */
  ghost predicate AreElements(der: seq<Byte>, spans: seq<Span>) {
    && (forall i, j :: 0 <= i < j < |spans| ==> spans[i].stop <= spans[j].start)
    && (forall i :: 0 <= i < |spans| ==> IsSequenceElement(der, spans[i]))
    && (forall i :: 0 <= i < |spans| ==> IsShort(der, spans[i]))
  }

  /** Every element met in the certificates field, if there is one, declares a
      length below 2^31. */
  ghost predicate HasShortLengths(der: seq<Byte>) {
    match Locate(der)
    case Ok(Some(field)) => (FieldStart(der); ShortLengths(der, field.start, field.stop))
    case _ => true
  }

  /** On every such input parseP7b returns, and what it returns is an error or the
      slices of ascending, disjoint, complete elements with tag 0x30 inside the
      input. */
  lemma ShortLengthsParse(der: seq<Byte>)
    requires HasShortLengths(der)
    ensures Terminates(der)
    ensures Parsed(der).Ok? ==> exists spans :: AreElements(der, spans) && Parsed(der) == Ok(Slices(der, spans))
  {
    hide Locate;
    match Locate(der)
    case Ok(Some(field)) =>
      FieldStart(der);
      ShortLengthsAdvance(der, field.start, field.stop);
      hide ShortLengths, Advances, Sequences, Terminates;
      WalkableParses(der);
      var r := Sequences(der, field.start, field.stop);
      if r.Ok? {
        SpansAreElements(der, field.start, field.stop);
        ShortSpans(der, field.start, field.stop);
        assert AreElements(der, r.value);
      }
    case _ =>
      assert AreElements(der, []) && Slices(der, []) == [];
  }

  // ----- round trip -----------------------------------------------------------------------------------

  datatype Item = Item(tag: Byte, content: seq<Byte>)

  function EncodeItem(item: Item): seq<Byte>
    requires |item.content| < 0x8000_0000
  {
    EncodeTlv(item.tag, item.content)
  }

  ghost predicate Encodable(items: seq<Item>) {
    forall i :: 0 <= i < |items| ==> |items[i].content| < 0x8000_0000
  }

  function EncodeItems(items: seq<Item>): seq<Byte>
    requires Encodable(items)
  {
    if items == [] then [] else EncodeItem(items[0]) + EncodeItems(items[1..])
  }

  /** The encodings of the items with tag 0x30, in order. */
  function Certificates(items: seq<Item>): seq<seq<Byte>>
    requires Encodable(items)
  {
    if items == [] then []
    else
      var rest := Certificates(items[1..]);
      if items[0].tag == 0x30 then [EncodeItem(items[0])] + rest else rest
  }

  lemma SliceOfHeld(der: seq<Byte>, off: nat, s: seq<Byte>)
    requires HoldsAt(der, off, s)
    ensures Slice(der, Span(off, off + |s|)) == s
  {}

  /** One step of the walk, over a whole element. */
  lemma WalkStep(der: seq<Byte>, ptr: nat, end: int, tag: Byte, body: int, next: int)
    requires ptr < end && ptr < next && ReadTlv(der, ptr) == Ok(Tlv(tag, body, next))
    requires Advances(der, next, end) && Sequences(der, next, end).Ok?
    ensures Advances(der, ptr, end) && Sequences(der, ptr, end).Ok?
    ensures var tail := Sequences(der, next, end).value;
      Slices(der, Sequences(der, ptr, end).value)
        == if tag == 0x30 then [Slice(der, Span(ptr, next))] + Slices(der, tail) else Slices(der, tail)
  {
    var tail := Sequences(der, next, end).value;
    assert Sequences(der, ptr, end) == Ok(if tag == 0x30 then [Span(ptr, next)] + tail else tail);
    assert Slices(der, [Span(ptr, next)] + tail) == [Slice(der, Span(ptr, next))] + Slices(der, tail);
  }

  lemma NoItems(der: seq<Byte>, ptr: int)
    ensures EncodeItems([]) == [] && Certificates([]) == []
    ensures Advances(der, ptr, ptr) && Sequences(der, ptr, ptr) == Ok([]) && Slices(der, []) == []
  {}

  /** One step of the walk, over an encoded item. */
  lemma ItemStep(der: seq<Byte>, ptr: nat, end: int, item: Item, next: int)
    requires |item.content| < 0x8000_0000 && HoldsAt(der, ptr, EncodeItem(item))
    requires ptr < end && next == ptr + |EncodeItem(item)|
    requires Advances(der, next, end) && Sequences(der, next, end).Ok?
    ensures Advances(der, ptr, end) && Sequences(der, ptr, end).Ok?
    ensures var found := Slices(der, Sequences(der, next, end).value);
      Slices(der, Sequences(der, ptr, end).value) == if item.tag == 0x30 then [EncodeItem(item)] + found else found
  {
    assert EncodeItem(item) == EncodeTlv(item.tag, item.content);
    hide ReadTlv, EncodeTlv, EncodeItem, HoldsAt, Sequences, Advances, Slices, Slice;
    ReadEncoded(der, ptr, item.tag, item.content);
    SliceOfHeld(der, ptr, EncodeItem(item));
    WalkStep(der, ptr, end, item.tag, next - |item.content|, next);
  }

  lemma ItemsParts(der: seq<Byte>, ptr: nat, items: seq<Item>)
    requires Encodable(items) && items != [] && HoldsAt(der, ptr, EncodeItems(items))
    ensures var e, rest := EncodeItem(items[0]), EncodeItems(items[1..]);
      && |e| > 0 && |EncodeItems(items)| == |e| + |rest|
      && HoldsAt(der, ptr, e) && HoldsAt(der, ptr + |e|, rest)
    ensures var found := Certificates(items[1..]);
      Certificates(items) == if items[0].tag == 0x30 then [EncodeItem(items[0])] + found else found
  {
    hide HoldsAt;
    HoldsParts(der, ptr, EncodeItem(items[0]), EncodeItems(items[1..]));
  }

  /** The walk over encoded items advances and finds exactly the certificates. */
  lemma {:induction false} WalkFindsItems(der: seq<Byte>, ptr: nat, items: seq<Item>)
    requires Encodable(items) && HoldsAt(der, ptr, EncodeItems(items))
    ensures var end := ptr + |EncodeItems(items)|;
      && Advances(der, ptr, end)
      && Sequences(der, ptr, end).Ok?
      && Slices(der, Sequences(der, ptr, end).value) == Certificates(items)
    decreases |items|
  {
    hide ReadTlv, EncodeItem, EncodeItems, Certificates, HoldsAt, Sequences, Advances, Slices;
    if items != [] {
      ItemsParts(der, ptr, items);
      var next, end := ptr + |EncodeItem(items[0])|, ptr + |EncodeItems(items)|;
      WalkFindsItems(der, next, items[1..]);
      ItemStep(der, ptr, end, items[0], next);
    } else {
      NoItems(der, ptr);
    }
  }

  /** The fields of a SignedData around its certificates. */
  datatype Bundle = Bundle(version: seq<Byte>, digests: seq<Byte>, contentInfo: seq<Byte>, trailer: seq<Byte>)

  function Preamble(b: Bundle): seq<Byte>
    requires |b.version| < 0x8000_0000 && |b.digests| < 0x8000_0000 && |b.contentInfo| < 0x8000_0000
  {
    EncodeTlv(0x02, b.version) + (EncodeTlv(0x31, b.digests) + EncodeTlv(0x30, b.contentInfo))
  }

  /** A SignedData with the given octets after its content information. */
  function SignedData(b: Bundle, rest: seq<Byte>): seq<Byte>
    requires |b.version| < 0x8000_0000 && |b.digests| < 0x8000_0000 && |b.contentInfo| < 0x8000_0000
  {
    Preamble(b) + rest
  }

  /** A ContentInfo of type signedData. */
  ghost predicate IsBundle(der: seq<Byte>, body: seq<Byte>) {
    && |body| < 0x8000_0000
    && var sd := EncodeTlv(0x30, body);
    && |sd| < 0x8000_0000
    && var exp := EncodeTlv(0xa0, sd);
    && |OID_SIGNED_DATA + exp| < 0x8000_0000
    && der == EncodeTlv(0x30, OID_SIGNED_DATA + exp)
  }

  lemma OuterHeaders(der: seq<Byte>, body: seq<Byte>) returns (start: nat)
    requires IsBundle(der, body)
    ensures HoldsAt(der, start, body)
    ensures LocateSignedData(der) == Ok(Tlv(0x30, start, start + |body|))
  {
    hide ReadTlv, EncodeTlv, EncodeLength;
    var sd := EncodeTlv(0x30, body);
    var exp := EncodeTlv(0xa0, sd);
    var oid := OID_SIGNED_DATA;
    ReadEncoded(der, 0, 0x30, oid + exp);
    var p1 := |der| - |oid + exp|;
    HoldsParts(der, p1, oid, exp);
    var p2 := p1 + |oid|;
    ReadEncoded(der, p2, 0xa0, sd);
    var p3 := p2 + |exp| - |sd|;
    ReadEncoded(der, p3, 0x30, body);
    start := p3 + |sd| - |body|;
  }

  lemma InnerFields(der: seq<Byte>, start: nat, b: Bundle)
    requires |b.version| < 0x8000_0000 && |b.digests| < 0x8000_0000 && |b.contentInfo| < 0x8000_0000
    requires HoldsAt(der, start, Preamble(b))
    ensures SkipFields(der, start) == Ok(start + |Preamble(b)|)
  {
    hide ReadTlv, EncodeTlv, HoldsAt;
    var v, d, c := EncodeTlv(0x02, b.version), EncodeTlv(0x31, b.digests), EncodeTlv(0x30, b.contentInfo);
    HoldsParts(der, start, v, d + c);
    HoldsParts(der, start + |v|, d, c);
    ReadEncoded(der, start, 0x02, b.version);
    ReadEncoded(der, start + |v|, 0x31, b.digests);
    ReadEncoded(der, start + |v| + |d|, 0x30, b.contentInfo);
  }

  /** The fixed fields lead to what follows the content information. */
  lemma HeaderLeadsTo(der: seq<Byte>, b: Bundle, rest: seq<Byte>) returns (cur: nat)
    requires |b.version| < 0x8000_0000 && |b.digests| < 0x8000_0000 && |b.contentInfo| < 0x8000_0000
    requires IsBundle(der, SignedData(b, rest))
    ensures HoldsAt(der, cur, rest) && Locate(der) == FieldAt(der, cur, cur + |rest|)
  {
    hide ReadTlv, EncodeTlv, LocateSignedData, SkipFields, FieldAt;
    var start := OuterHeaders(der, SignedData(b, rest));
    HoldsParts(der, start, Preamble(b), rest);
    InnerFields(der, start, b);
    cur := start + |Preamble(b)|;
  }

  /** Round trip: parsing an encoded bundle returns exactly its SEQUENCEs, byte
      for byte and in order, whatever stands around them. */
  lemma ParseInvertsEncode(der: seq<Byte>, b: Bundle, items: seq<Item>)
    requires |b.version| < 0x8000_0000 && |b.digests| < 0x8000_0000 && |b.contentInfo| < 0x8000_0000
    requires Encodable(items) && |EncodeItems(items)| < 0x8000_0000
    requires IsBundle(der, SignedData(b, EncodeTlv(0xa0, EncodeItems(items)) + b.trailer))
    ensures Terminates(der) && Parsed(der) == Ok(Certificates(items))
  {
    hide ReadTlv, EncodeTlv, EncodeLength;
    var inner := EncodeItems(items);
    var field := EncodeTlv(0xa0, inner);
    var cur := HeaderLeadsTo(der, b, field + b.trailer);
    HoldsParts(der, cur, field, b.trailer);
    ReadEncoded(der, cur, 0xa0, inner);
    var start := cur + |field| - |inner|;
    WalkFindsItems(der, start, items);
    assert FieldAt(der, cur, cur + |field + b.trailer|) == Ok(Some(Span(start, start + |inner|)));
    WalkableParses(der);
  }

  /** A bundle without a certificates field has no certificates: nothing, or
      an element with another tag, follows the content information. */
  lemma NoFieldNoCertificates(der: seq<Byte>, b: Bundle, next: Item, more: seq<Byte>)
    requires |b.version| < 0x8000_0000 && |b.digests| < 0x8000_0000 && |b.contentInfo| < 0x8000_0000
    requires next.tag != 0xa0 && |next.content| < 0x8000_0000
    requires IsBundle(der, SignedData(b, EncodeItem(next) + more)) || IsBundle(der, SignedData(b, []))
    ensures Terminates(der) && Parsed(der) == Ok([])
  {
    if IsBundle(der, SignedData(b, [])) {
      var cur := HeaderLeadsTo(der, b, []);
    } else {
      var cur := HeaderLeadsTo(der, b, EncodeItem(next) + more);
      HoldsParts(der, cur, EncodeItem(next), more);
      ReadEncoded(der, cur, next.tag, next.content);
    }
  }
}
