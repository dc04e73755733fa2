/**
  TimestampVector: for every participant, the timestamp of the last
  operation received from it (the node's summary vector).

  The Java object is mutated in place; here each mutator is a function from
  the old vector to the new one, so a clone is independent of its original
  by construction.
 */
module Vectors {
  import opened Wrappers
  import opened Timestamps

  datatype TimestampVector = TimestampVector(entries: map<HostId, Timestamp>)

  /** Every entry is filed under its own host id. The constructor,
      `updateTimestamp` and `clone` all store a timestamp under its host id,
      so every vector these classes build has this shape. */
  predicate WellFormed(v: TimestampVector) {
    forall h :: h in v.entries ==> v.entries[h].hostid == h
  }

  /** `v` is entry-wise at most `w`, over the same hosts. */
  predicate Below(v: TimestampVector, w: TimestampVector) {
    && v.entries.Keys == w.entries.Keys
    && forall h :: h in v.entries ==> v.entries[h].seqnumber <= w.entries[h].seqnumber
  }

  /** The vector a node starts with: every host in `hosts` mapped to its own
      null timestamp. */
  function Fresh(hosts: set<HostId>): (v: TimestampVector)
    ensures v.entries.Keys == hosts
    ensures WellFormed(v)
    ensures forall h :: h in v.entries ==> IsNull(v.entries[h])
  {
    TimestampVector(map h | h in hosts :: NullTimestamp(h))
  }

  /** The constructor: walks the participant list, filing a null timestamp
      for each participant. */
  method Create(participants: seq<HostId>) returns (v: TimestampVector)
    ensures v.entries.Keys == set p | p in participants
    ensures forall h :: h in v.entries ==> v.entries[h] == NullTimestamp(h)
    ensures v == Fresh(set p | p in participants)
  {
    var entries: map<HostId, Timestamp> := map[];
    var i := 0;
    while i < |participants|
      invariant 0 <= i <= |participants|
      invariant entries.Keys == set p | p in participants[..i]
      invariant forall h :: h in entries ==> entries[h] == NullTimestamp(h)
    {
      assert participants[..i + 1] == participants[..i] + [participants[i]];
      entries := entries[participants[i] := NullTimestamp(participants[i])];
      i := i + 1;
    }
    assert participants[..i] == participants;
    v := TimestampVector(entries);
  }

  /** Records `ts` as the last timestamp seen from its host. */
  function UpdateTimestamp(v: TimestampVector, ts: Timestamp): (r: TimestampVector)
    ensures r.entries.Keys == v.entries.Keys + {ts.hostid}
    ensures r.entries[ts.hostid] == ts
    ensures forall h :: h in v.entries && h != ts.hostid ==> r.entries[h] == v.entries[h]
  {
    TimestampVector(v.entries[ts.hostid := ts])
  }

  /** The stored entry for `node`; `None` stands for Java's null. */
  function GetLast(v: TimestampVector, node: HostId): (r: Option<Timestamp>)
    ensures r.Some? <==> node in v.entries
    ensures r.Some? ==> r.value == v.entries[node]
  {
    if node in v.entries then Some(v.entries[node]) else None
  }

  /** Element-wise maximum. Hosts missing from `other` keep their entry.
      The source writes the winning entry back under the entry's own host
      id, which is the key being visited exactly when `other` is well-formed. */
  function UpdateMax(v: TimestampVector, other: TimestampVector): (r: TimestampVector)
    requires WellFormed(other)
    ensures r.entries.Keys == v.entries.Keys
    ensures forall h :: h in r.entries && h !in other.entries ==> r.entries[h] == v.entries[h]
    ensures forall h :: h in r.entries && h in other.entries ==>
      && (r.entries[h] == v.entries[h] || r.entries[h] == other.entries[h])
      && r.entries[h].seqnumber >= v.entries[h].seqnumber
      && r.entries[h].seqnumber >= other.entries[h].seqnumber
  {
    TimestampVector(map h | h in v.entries ::
      if h in other.entries then Later(v.entries[h], other.entries[h]) else v.entries[h])
  }

  /** Element-wise minimum, as documented for `mergeMin`. In the source the
      body of `mergeMin` is empty (see MergeMinAsWritten). Hosts missing
      from `other` keep their entry, mirroring UpdateMax. */
  function MergeMin(v: TimestampVector, other: TimestampVector): (r: TimestampVector)
    ensures r.entries.Keys == v.entries.Keys
    ensures forall h :: h in r.entries && h !in other.entries ==> r.entries[h] == v.entries[h]
    ensures forall h :: h in r.entries && h in other.entries ==>
      && (r.entries[h] == v.entries[h] || r.entries[h] == other.entries[h])
      && r.entries[h].seqnumber <= v.entries[h].seqnumber
      && r.entries[h].seqnumber <= other.entries[h].seqnumber
      && (IsNull(r.entries[h]) <==> IsNull(v.entries[h]) || IsNull(other.entries[h]))
  {
    TimestampVector(map h | h in v.entries ::
      if h in other.entries then Earlier(v.entries[h], other.entries[h]) else v.entries[h])
  }

  /** `mergeMin` exactly as the source writes it: the body is empty, so the
      receiver is left as it was. */
  function MergeMinAsWritten(v: TimestampVector, other: TimestampVector): (r: TimestampVector)
    ensures r.entries == v.entries
  {
    v
  }

  /** The clone: a fresh vector over the same hosts, into which every stored
      timestamp is written back through `updateTimestamp`. */
  method Clone(v: TimestampVector) returns (r: TimestampVector)
    ensures v.entries.Keys <= r.entries.Keys
    ensures WellFormed(v) ==> r == v
  {
    var keys := v.entries.Keys;
    r := Fresh(keys);
    var todo := keys;
    while todo != {}
      invariant todo <= keys
      invariant keys <= r.entries.Keys
      invariant WellFormed(v) ==> r.entries.Keys == keys
      invariant WellFormed(v) ==> forall h :: h in keys && h !in todo ==> r.entries[h] == v.entries[h]
      decreases todo
    {
      var h :| h in todo;
      r := UpdateTimestamp(r, v.entries[h]);
      todo := todo - {h};
    }
    if WellFormed(v) {
      assert r.entries == v.entries;
    }
  }

  /** `equals`: the two host-to-timestamp maps agree pointwise. */
  function Equals(v: TimestampVector, w: TimestampVector): (r: bool)
    ensures r <==> v.entries.Keys == w.entries.Keys && forall h :: h in v.entries ==> v.entries[h] == w.entries[h]
  {
    v == w
  }

  // ---------------------------------------------------------------------
  // Lookup after update

  /** Reading back after `updateTimestamp`: the written host yields the new
      timestamp, every other host yields what it yielded before. */
  lemma GetLastAfterUpdate(v: TimestampVector, ts: Timestamp, node: HostId)
    ensures GetLast(UpdateTimestamp(v, ts), node) ==
      (if node == ts.hostid then Some(ts) else GetLast(v, node))
  {
  }

  /** A fresh vector answers the null timestamp for each participant and
      nothing for any other host. */
  lemma GetLastFresh(hosts: set<HostId>, node: HostId)
    ensures GetLast(Fresh(hosts), node) ==
      (if node in hosts then Some(NullTimestamp(node)) else None)
  {
  }

  /** Equal vectors are exactly those that answer every lookup alike. */
  lemma EqualsIffSameLookups(v: TimestampVector, w: TimestampVector)
    ensures Equals(v, w) <==> forall h :: GetLast(v, h) == GetLast(w, h)
  {
    if forall h :: GetLast(v, h) == GetLast(w, h) {
      assert forall h :: h in v.entries <==> GetLast(v, h).Some?;
      assert v.entries.Keys == w.entries.Keys;
      assert v.entries == w.entries;
    }
  }

  // ---------------------------------------------------------------------
  // Well-formedness is preserved

  lemma UpdateTimestampPreservesWellFormed(v: TimestampVector, ts: Timestamp)
    requires WellFormed(v)
    ensures WellFormed(UpdateTimestamp(v, ts))
  {
  }

  lemma UpdateMaxPreservesWellFormed(v: TimestampVector, other: TimestampVector)
    requires WellFormed(v) && WellFormed(other)
    ensures WellFormed(UpdateMax(v, other))
  {
  }

  lemma MergeMinPreservesWellFormed(v: TimestampVector, other: TimestampVector)
    requires WellFormed(v) && WellFormed(other)
    ensures WellFormed(MergeMin(v, other))
  {
  }

  // ---------------------------------------------------------------------
  // Lattice laws of the element-wise maximum

  /** Merging a vector into itself changes nothing. */
  lemma UpdateMaxIdempotent(v: TimestampVector)
    requires WellFormed(v)
    ensures UpdateMax(v, v) == v
  {
    assert UpdateMax(v, v).entries == v.entries;
  }

  /** Merging the same vector twice is merging it once. */
  lemma UpdateMaxAbsorbs(v: TimestampVector, other: TimestampVector)
    requires WellFormed(other)
    ensures UpdateMax(UpdateMax(v, other), other) == UpdateMax(v, other)
  {
    var once := UpdateMax(v, other);
    assert UpdateMax(once, other).entries == once.entries;
  }

  /** Over a common host set the merge is symmetric. */
  lemma UpdateMaxCommutative(v: TimestampVector, w: TimestampVector)
    requires WellFormed(v) && WellFormed(w)
    requires v.entries.Keys == w.entries.Keys
    ensures UpdateMax(v, w) == UpdateMax(w, v)
  {
    var a := UpdateMax(v, w);
    var b := UpdateMax(w, v);
    forall h | h in a.entries
      ensures a.entries[h] == b.entries[h]
    {
      SameHostSameSeq(a.entries[h], b.entries[h]);
    }
    assert a.entries == b.entries;
  }

  /** The merge is an upper bound of both inputs and below every other upper
      bound: it is the join of the two vectors. */
  lemma UpdateMaxIsLeastUpperBound(v: TimestampVector, other: TimestampVector, w: TimestampVector)
    requires WellFormed(other)
    requires v.entries.Keys == other.entries.Keys
    ensures Below(v, UpdateMax(v, other)) && Below(other, UpdateMax(v, other))
    ensures Below(v, w) && Below(other, w) ==> Below(UpdateMax(v, other), w)
  {
  }

  /** No entry ever decreases, whatever is merged in. */
  lemma UpdateMaxNeverLowers(v: TimestampVector, other: TimestampVector)
    requires WellFormed(other)
    ensures Below(v, UpdateMax(v, other))
  {
  }

  // ---------------------------------------------------------------------
  // Lattice laws of the documented element-wise minimum

  lemma MergeMinIdempotent(v: TimestampVector)
    ensures MergeMin(v, v) == v
  {
    assert MergeMin(v, v).entries == v.entries;
  }

  lemma MergeMinCommutative(v: TimestampVector, w: TimestampVector)
    requires WellFormed(v) && WellFormed(w)
    requires v.entries.Keys == w.entries.Keys
    ensures MergeMin(v, w) == MergeMin(w, v)
  {
    var a := MergeMin(v, w);
    var b := MergeMin(w, v);
    forall h | h in a.entries
      ensures a.entries[h] == b.entries[h]
    {
      SameHostSameSeq(a.entries[h], b.entries[h]);
    }
    assert a.entries == b.entries;
  }

  /** The minimum is a lower bound of both inputs and above every other
      lower bound: it is the meet of the two vectors. */
  lemma MergeMinIsGreatestLowerBound(v: TimestampVector, other: TimestampVector, w: TimestampVector)
    requires v.entries.Keys == other.entries.Keys
    ensures Below(MergeMin(v, other), v) && Below(MergeMin(v, other), other)
    ensures Below(w, v) && Below(w, other) ==> Below(w, MergeMin(v, other))
  {
  }
}
