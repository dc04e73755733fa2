/**
  Causal timestamps of the TSAE replication core.

  The Timestamp class itself is not part of this model; what the three
  data-structure classes rely on is reproduced here as an assumption:
  - a timestamp is the pair (issuing host id, sequence number);
  - a timestamp whose sequence number is negative is the null timestamp,
    "nothing seen yet from this host";
  - `compare` is only ever applied to two timestamps of the same host, and
    returns the sign of the difference of their sequence numbers.
 */
module Timestamps {

  type HostId = string

  /** The sequence number the null timestamp carries. Any negative value
      marks a null timestamp; -1 stands for the reserved constant. */
  const NullSeq: int := -1

  datatype Timestamp = Timestamp(hostid: HostId, seqnumber: int)

  predicate IsNull(t: Timestamp) {
    t.seqnumber < 0
  }

  /** The timestamp a fresh vector stores for host `h`. */
  function NullTimestamp(h: HostId): (t: Timestamp)
    ensures t.hostid == h
    ensures IsNull(t)
  {
    Timestamp(h, NullSeq)
  }

  /** Three-way comparison by sequence number: positive when `a` is newer,
      zero when both carry the same sequence number, negative otherwise. */
  function Compare(a: Timestamp, b: Timestamp): (r: int)
    ensures -1 <= r <= 1
    ensures r > 0 <==> a.seqnumber > b.seqnumber
    ensures r < 0 <==> a.seqnumber < b.seqnumber
  {
    if a.seqnumber > b.seqnumber then 1 else if a.seqnumber < b.seqnumber then -1 else 0
  }

  /** The entry `updateMax` keeps: `b` replaces `a` only when strictly newer. */
  function Later(a: Timestamp, b: Timestamp): (r: Timestamp)
    ensures r == a || r == b
    ensures r.seqnumber >= a.seqnumber && r.seqnumber >= b.seqnumber
  {
    if Compare(b, a) > 0 then b else a
  }

  /** The entry the documented `mergeMin` keeps: `b` replaces `a` only when
      strictly older. */
  function Earlier(a: Timestamp, b: Timestamp): (r: Timestamp)
    ensures r == a || r == b
    ensures r.seqnumber <= a.seqnumber && r.seqnumber <= b.seqnumber
  {
    if Compare(b, a) < 0 then b else a
  }

  /** Comparison is antisymmetric. */
  lemma CompareAntisymmetric(a: Timestamp, b: Timestamp)
    ensures Compare(a, b) == -Compare(b, a)
  {
  }

  /** Comparison is transitive. */
  lemma CompareTransitive(a: Timestamp, b: Timestamp, c: Timestamp)
    requires Compare(a, b) > 0 && Compare(b, c) > 0
    ensures Compare(a, c) > 0
  {
  }

  /** A null timestamp compares below every non-null timestamp, and null
      timestamps carrying the reserved number compare equal. */
  lemma NullBeforeReal(h: HostId, t: Timestamp)
    ensures !IsNull(t) ==> Compare(NullTimestamp(h), t) < 0
    ensures IsNull(t) && t.seqnumber == NullSeq ==> Compare(NullTimestamp(h), t) == 0
  {
  }

  /** "Unknown to at least one side" wins the minimum: a null entry on
      either side makes the minimum null. */
  lemma EarlierNullDominates(a: Timestamp, b: Timestamp)
    ensures IsNull(a) || IsNull(b) <==> IsNull(Earlier(a, b))
  {
  }

  /** Two timestamps of the same host with the same sequence number are the
      same timestamp; this is what makes entry-wise max and min symmetric. */
  lemma SameHostSameSeq(a: Timestamp, b: Timestamp)
    requires a.hostid == b.hostid && Compare(a, b) == 0
    ensures a == b
  {
  }
}
