/** The service's four tables and the statements that change them. */
module Store {
  import opened Bytes
  import opened Sets
  import opened Wrappers

  datatype Row = Row(leafIndex: int, enrolledAt: int, blindedInput: string)

  /** A row of the per-subject counter. */
  datatype Tally = Tally(count: int, firstSeen: int)

  type Hash = seq<Byte>
  type Enrolled = map<string, Row>

  datatype StoreError = Constraint

  // ----- enrolled commitments -----------------------------------------------------------------

  /** Both uniqueness constraints admit the row. */
  predicate Insertable(t: Enrolled, commitment: string, leafIndex: int) {
    commitment !in t && forall c :: c in t ==> t[c].leafIndex != leafIndex
  }

  ghost predicate DistinctIndices(t: Enrolled) {
    forall c, d :: c in t && d in t && t[c].leafIndex == t[d].leafIndex ==> c == d
  }

  /** r lists the commitments by ascending leaf index. */
  ghost predicate ListsInOrder(t: Enrolled, r: seq<string>) {
    && (forall i :: 0 <= i < |r| ==> r[i] in t)
    && (forall c :: c in t ==> c in r)
    && (forall i, j :: 0 <= i < j < |r| ==> t[r[i]].leafIndex < t[r[j]].leafIndex)
  }

  /** Two such lists that agree up to k: the second has, at k, the element of
      the first or one with a smaller index. */
  lemma NextInOrder(t: Enrolled, r: seq<string>, s: seq<string>, k: nat)
    requires ListsInOrder(t, r) && ListsInOrder(t, s) && k < |r|
    requires k <= |s| && forall i :: 0 <= i < k ==> s[i] == r[i]
    ensures k < |s| && (s[k] == r[k] || t[s[k]].leafIndex < t[r[k]].leafIndex)
  {
    assert forall j :: 0 <= j < k ==> t[s[j]].leafIndex < t[r[k]].leafIndex;
    assert r[k] in s;
    var i: nat :| i < |s| && s[i] == r[k];
  }

  lemma {:induction false} AgreeUpTo(t: Enrolled, r: seq<string>, s: seq<string>, k: nat)
    requires ListsInOrder(t, r) && ListsInOrder(t, s) && k <= |r|
    ensures k <= |s| && forall i :: 0 <= i < k ==> s[i] == r[i]
  {
    if k > 0 {
      AgreeUpTo(t, r, s, k - 1);
      NextInOrder(t, r, s, k - 1);
      NextInOrder(t, s, r, k - 1);
    }
  }

  /** There is only one such list. */
  lemma OrderIsUnique(t: Enrolled, r: seq<string>, s: seq<string>)
    requires ListsInOrder(t, r) && ListsInOrder(t, s)
    ensures r == s
  {
    AgreeUpTo(t, r, s, |r|);
    AgreeUpTo(t, s, r, |s|);
  }

  // ----- replay cache and counters ------------------------------------------------------------

  function Recorded(t: map<Hash, int>, h: Hash, seenAt: int): map<Hash, int> {
    if h in t then t else t[h := seenAt]
  }

  function KeepSeen(t: map<Hash, int>, olderThan: int): map<Hash, int> {
    map h | h in t && !(t[h] < olderThan) :: t[h]
  }

  function Counted(t: map<Hash, Tally>, h: Hash, now: int): map<Hash, Tally> {
    if h in t then t[h := Tally(t[h].count + 1, t[h].firstSeen)] else t[h := Tally(1, now)]
  }

  function KeepTallies(t: map<Hash, Tally>, olderThan: int): map<Hash, Tally> {
    map h | h in t && !(t[h].firstSeen < olderThan) :: t[h]
  }

  /** r lists, in order, all commitments but the rest, which come later. */
  ghost predicate ListsBelow(t: Enrolled, r: seq<string>, rest: set<string>)
    requires rest <= t.Keys
  {
    && (forall i :: 0 <= i < |r| ==> r[i] in t)
    && (forall c :: c in t ==> c in r || c in rest)
    && (forall i, j :: 0 <= i < j < |r| ==> t[r[i]].leafIndex < t[r[j]].leafIndex)
    && (forall i, c :: 0 <= i < |r| && c in rest ==> t[r[i]].leafIndex < t[c].leafIndex)
  }

  lemma ListsMore(t: Enrolled, r: seq<string>, rest: set<string>, first: string)
    requires rest <= t.Keys && ListsBelow(t, r, rest) && DistinctIndices(t) && first in rest
    requires forall c :: c in rest ==> t[first].leafIndex <= t[c].leafIndex
    ensures ListsBelow(t, r + [first], rest - {first})
  {
    var r' := r + [first];
    assert forall c :: c in r ==> c in r';
    assert first in r';
  }

  class EnrollmentStore {
    var enrolled: Enrolled
    var kv: map<string, string>
    var replay: map<Hash, int>
    var counts: map<Hash, Tally>

    constructor ()
      ensures enrolled == map[] && kv == map[] && replay == map[] && counts == map[]
    {
      enrolled, kv, replay, counts := map[], map[], map[], map[];
    }

    /** INSERT with two UNIQUE columns: all or nothing. */
    method Insert(commitment: string, row: Row) returns (r: Result<(), StoreError>)
      modifies this`enrolled
      ensures r.Ok? <==> Insertable(old(enrolled), commitment, row.leafIndex)
      ensures enrolled == if r.Ok? then old(enrolled)[commitment := row] else old(enrolled)
    {
      if !Insertable(enrolled, commitment, row.leafIndex) {
        return Err(Constraint);
      }
      enrolled := enrolled[commitment := row];
      r := Ok(());
    }

    /** SELECT ... ORDER BY leaf_index ASC. */
    method AllInOrder() returns (r: seq<string>)
      requires DistinctIndices(enrolled)
      ensures ListsInOrder(enrolled, r)
    {
      r := [];
      var rest := enrolled.Keys;
      while rest != {}
        invariant rest <= enrolled.Keys && ListsBelow(enrolled, r, rest)
        decreases |rest|
      {
        var first := Smallest(rest);
        ListsMore(enrolled, r, rest, first);
        r := r + [first];
        rest := rest - {first};
      }
    }

    method Smallest(s: set<string>) returns (least: string)
      requires s != {} && s <= enrolled.Keys
      ensures least in s
      ensures forall c :: c in s ==> enrolled[least].leafIndex <= enrolled[c].leafIndex
    {
      least := Pick(s);
      var rest := s - {least};
      while rest != {}
        invariant rest <= s && least in s
        invariant forall c :: c in s && c !in rest ==> enrolled[least].leafIndex <= enrolled[c].leafIndex
        decreases |rest|
      {
        var c := Pick(rest);
        rest := rest - {c};
        if enrolled[c].leafIndex < enrolled[least].leafIndex {
          least := c;
        }
      }
    }

    method KvSet(key: string, value: string)
      modifies this`kv
      ensures kv == old(kv)[key := value]
    {
      kv := kv[key := value];
    }

    /** INSERT OR IGNORE: whether the row was new. */
    method RecordP7sHashIfFresh(h: Hash, seenAt: int) returns (fresh_: bool)
      modifies this`replay
      ensures fresh_ <==> h !in old(replay)
      ensures replay == Recorded(old(replay), h, seenAt)
    {
      fresh_ := h !in replay;
      if fresh_ {
        replay := replay[h := seenAt];
      }
    }

    method PruneReplayCache(olderThan: int)
      modifies this`replay
      ensures replay == KeepSeen(old(replay), olderThan)
    {
      replay := map h | h in replay && !(replay[h] < olderThan) :: replay[h];
    }

    /** The upsert and the read-back, in one transaction. */
    method IncrementBlindEvalCount(h: Hash, now: int) returns (row: Tally)
      modifies this`counts
      ensures counts == Counted(old(counts), h, now) && row == counts[h]
    {
      if h in counts {
        counts := counts[h := Tally(counts[h].count + 1, counts[h].firstSeen)];
      } else {
        counts := counts[h := Tally(1, now)];
      }
      row := counts[h];
    }

    method PruneBlindEvalCounts(olderThan: int)
      modifies this`counts
      ensures counts == KeepTallies(old(counts), olderThan)
    {
      counts := map h | h in counts && !(counts[h].firstSeen < olderThan) :: counts[h];
    }
  }
}
