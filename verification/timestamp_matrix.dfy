/**
  TimestampMatrix: for every participant, the summary vector this node
  believes that participant holds. Its entry-wise minimum over all rows is
  the acknowledgement vector that drives log purging.

  The Java class enumerates a hash map whose iteration order is not
  specified; wherever that order decides the result, it is an explicit
  `order` parameter here, and the lemmas show which results do not depend
  on it.
 */
module Matrices {
  import opened Wrappers
  import opened Timestamps
  import opened Vectors

  datatype TimestampMatrix = TimestampMatrix(rows: map<HostId, TimestampVector>)

  /** The shape every matrix built by the constructor keeps: one row per
      host, each row well-formed and covering exactly the same hosts. */
  predicate Square(m: TimestampMatrix) {
    && (forall k :: k in m.rows ==> WellFormed(m.rows[k]))
    && (forall k {:trigger Covers(m.rows[k], m.rows.Keys)} :: k in m.rows ==> Covers(m.rows[k], m.rows.Keys))
  }

  /** `v` holds an entry for exactly the hosts in `hosts`. A named wrapper
      so that the quantifier in Square fires only on this term and not on
      every key-set equality in scope. */
  predicate Covers(v: TimestampVector, hosts: set<HostId>) {
    v.entries.Keys == hosts
  }

  /** One row of a square matrix covers every host of the matrix. */
  lemma SquareRow(m: TimestampMatrix, k: HostId)
    requires Square(m) && k in m.rows
    ensures m.rows[k].entries.Keys == m.rows.Keys && WellFormed(m.rows[k])
  {
    assert Covers(m.rows[k], m.rows.Keys);
  }

  /** `order` lists every row key exactly once, as an enumeration of the
      matrix's hash map would. */
  predicate Enumerates(order: seq<HostId>, keys: set<HostId>) {
    && (forall i :: 0 <= i < |order| ==> order[i] in keys)
    && (forall k {:trigger Listed(order, k)} :: k in keys ==> Listed(order, k))
    && (forall i, j :: 0 <= i < j < |order| ==> order[i] != order[j])
  }

  /** `k` occurs somewhere in `order`. A named wrapper so that the
      quantifier in Enumerates fires only where a proof asks for it. */
  predicate Listed(order: seq<HostId>, k: HostId) {
    k in order
  }

  /** The matrix a node starts with: a fresh all-null vector over `hosts`
      for every host. */
  function FreshMatrix(hosts: set<HostId>): (m: TimestampMatrix)
    ensures m.rows.Keys == hosts
    ensures Square(m)
    ensures forall k, h :: k in m.rows && h in m.rows[k].entries ==> IsNull(m.rows[k].entries[h])
  {
    TimestampMatrix(map k | k in hosts :: Fresh(hosts))
  }

  /** The constructor: one freshly built vector over the whole participant
      list per participant. */
  method Create(participants: seq<HostId>) returns (m: TimestampMatrix)
    ensures m.rows.Keys == set p | p in participants
    ensures forall k :: k in m.rows ==> m.rows[k] == Fresh(set p | p in participants)
    ensures Square(m)
  {
    var rows: map<HostId, TimestampVector> := map[];
    var i := 0;
    while i < |participants|
      invariant 0 <= i <= |participants|
      invariant rows.Keys == set p | p in participants[..i]
      invariant forall k :: k in rows ==> rows[k] == Fresh(set p | p in participants)
    {
      assert participants[..i + 1] == participants[..i] + [participants[i]];
      var row := Vectors.Create(participants);
      rows := rows[participants[i] := row];
      i := i + 1;
    }
    assert participants[..i] == participants;
    m := TimestampMatrix(rows);
  }

  /** The stored row for `node`; `None` stands for Java's null. */
  function GetTimestampVector(m: TimestampMatrix, node: HostId): (r: Option<TimestampVector>)
    ensures r.Some? <==> node in m.rows
    ensures r.Some? ==> r.value == m.rows[node]
  {
    if node in m.rows then Some(m.rows[node]) else None
  }

  /** Row-wise `updateMax`. The source looks up `other`'s row for every key
      of this matrix and dereferences it, so `other` must hold each of them. */
  function UpdateMax(m: TimestampMatrix, other: TimestampMatrix): (r: TimestampMatrix)
    requires m.rows.Keys <= other.rows.Keys
    requires forall k :: k in m.rows ==> WellFormed(other.rows[k])
    ensures r.rows.Keys == m.rows.Keys
    ensures forall k :: k in r.rows ==> r.rows[k] == Vectors.UpdateMax(m.rows[k], other.rows[k])
  {
    TimestampMatrix(map k | k in m.rows :: Vectors.UpdateMax(m.rows[k], other.rows[k]))
  }

  /** Replaces the row for `node` outright. */
  function Update(m: TimestampMatrix, node: HostId, v: TimestampVector): (r: TimestampMatrix)
    ensures r.rows.Keys == m.rows.Keys + {node}
    ensures r.rows[node] == v
    ensures forall k :: k in m.rows && k != node ==> r.rows[k] == m.rows[k]
  {
    TimestampMatrix(m.rows[node := v])
  }

  /** The rows of `m` in the order `order` visits them. */
  function RowsInOrder(m: TimestampMatrix, order: seq<HostId>): (rows: seq<TimestampVector>)
    requires forall i :: 0 <= i < |order| ==> order[i] in m.rows
    ensures |rows| == |order|
    ensures forall i :: 0 <= i < |order| ==> rows[i] == m.rows[order[i]]
  {
    seq(|order|, i requires 0 <= i < |order| => m.rows[order[i]])
  }

  /** Left fold of the documented `mergeMin` over `rows`, starting from `acc`. */
  function FoldMin(acc: TimestampVector, rows: seq<TimestampVector>): (r: TimestampVector)
    ensures r.entries.Keys == acc.entries.Keys
    decreases |rows|
  {
    if |rows| == 0 then acc else FoldMin(MergeMin(acc, rows[0]), rows[1..])
  }

  /** `minTimestampVector` with the documented `mergeMin`: a copy of the
      first enumerated row, merged with every further row in turn. The
      source takes the first row without checking that there is one. */
  function MinTimestampVector(m: TimestampMatrix, order: seq<HostId>): (r: TimestampVector)
    requires Enumerates(order, m.rows.Keys) && |order| > 0
    ensures r.entries.Keys == m.rows[order[0]].entries.Keys
  {
    var rows := RowsInOrder(m, order);
    FoldMin(rows[0], rows[1..])
  }

  /** Left fold of `mergeMin` as the source writes it (an empty body):
      every merge leaves the accumulator alone, so the fold returns its
      starting vector. */
  function FoldMinAsWritten(acc: TimestampVector, rows: seq<TimestampVector>): (r: TimestampVector)
    ensures r == acc
    decreases |rows|
  {
    if |rows| == 0 then acc else FoldMinAsWritten(MergeMinAsWritten(acc, rows[0]), rows[1..])
  }

  /** `minTimestampVector` exactly as the source computes it: the result is
      the first row the enumeration yields, whatever the other rows hold. */
  function MinTimestampVectorAsWritten(m: TimestampMatrix, order: seq<HostId>): (r: TimestampVector)
    requires Enumerates(order, m.rows.Keys) && |order| > 0
    ensures r == m.rows[order[0]]
  {
    var rows := RowsInOrder(m, order);
    FoldMinAsWritten(rows[0], rows[1..])
  }

  /** The clone: a fresh matrix over the same hosts, whose every row is then
      replaced by a clone of the original row. */
  method Clone(m: TimestampMatrix) returns (r: TimestampMatrix)
    ensures r.rows.Keys == m.rows.Keys
    ensures forall k :: k in m.rows && WellFormed(m.rows[k]) ==> r.rows[k] == m.rows[k]
    ensures Square(m) ==> r == m
  {
    var keys := m.rows.Keys;
    r := FreshMatrix(keys);
    var todo := keys;
    while todo != {}
      invariant todo <= keys
      invariant r.rows.Keys == keys
      invariant forall k :: k in keys && k !in todo && WellFormed(m.rows[k]) ==> r.rows[k] == m.rows[k]
      decreases todo
    {
      var k :| k in todo;
      var row := Vectors.Clone(m.rows[k]);
      r := Update(r, k, row);
      todo := todo - {k};
    }
    if Square(m) {
      assert r.rows == m.rows;
    }
  }

  /** `equals`: the two host-to-row maps agree pointwise. */
  function Equals(m: TimestampMatrix, n: TimestampMatrix): (r: bool)
    ensures r <==> m.rows.Keys == n.rows.Keys && forall k :: k in m.rows ==> m.rows[k] == n.rows[k]
  {
    m == n
  }

  // ---------------------------------------------------------------------
  // Row replacement and row-wise maximum

  /** Reading a row back after `update`. */
  lemma GetAfterUpdate(m: TimestampMatrix, node: HostId, v: TimestampVector, k: HostId)
    ensures GetTimestampVector(Update(m, node, v), k) ==
      (if k == node then Some(v) else GetTimestampVector(m, k))
  {
  }

  /** Replacing a row by a well-formed vector over the same hosts keeps the
      matrix square. */
  lemma UpdatePreservesSquare(m: TimestampMatrix, node: HostId, v: TimestampVector)
    requires Square(m) && node in m.rows
    requires v.entries.Keys == m.rows.Keys && WellFormed(v)
    ensures Square(Update(m, node, v))
  {
    var r := Update(m, node, v);
    forall k | k in r.rows
      ensures Covers(r.rows[k], r.rows.Keys)
    {
      if k != node {
        SquareRow(m, k);
      }
    }
  }

  /** The row-wise maximum of two square matrices over the same hosts is
      square again. */
  lemma UpdateMaxPreservesSquare(m: TimestampMatrix, other: TimestampMatrix)
    requires Square(m) && Square(other) && m.rows.Keys == other.rows.Keys
    ensures Square(UpdateMax(m, other))
  {
    var r := UpdateMax(m, other);
    forall k | k in r.rows
      ensures WellFormed(r.rows[k]) && Covers(r.rows[k], r.rows.Keys)
    {
      SquareRow(m, k);
      UpdateMaxPreservesWellFormed(m.rows[k], other.rows[k]);
    }
  }

  /** Merging a square matrix into itself changes nothing. */
  lemma UpdateMaxIdempotent(m: TimestampMatrix)
    requires Square(m)
    ensures UpdateMax(m, m) == m
  {
    forall k | k in m.rows
      ensures Vectors.UpdateMax(m.rows[k], m.rows[k]) == m.rows[k]
    {
      Vectors.UpdateMaxIdempotent(m.rows[k]);
    }
    assert UpdateMax(m, m).rows == m.rows;
  }

  /** No entry of any row decreases under the row-wise maximum, and every
      entry ends at least as new as the other matrix's entry. */
  lemma UpdateMaxIsUpperBound(m: TimestampMatrix, other: TimestampMatrix)
    requires Square(m) && Square(other) && m.rows.Keys == other.rows.Keys
    ensures forall k :: k in m.rows ==>
      Below(m.rows[k], UpdateMax(m, other).rows[k]) && Below(other.rows[k], UpdateMax(m, other).rows[k])
  {
    forall k | k in m.rows
      ensures Below(m.rows[k], UpdateMax(m, other).rows[k]) && Below(other.rows[k], UpdateMax(m, other).rows[k])
    {
      SquareRow(m, k);
      SquareRow(other, k);
    }
  }

  // ---------------------------------------------------------------------
  // The acknowledgement vector

  /** The fold of the documented minimum is below the start and every row,
      and each of its entries comes from the start or from some row. */
  lemma {:induction false} FoldMinIsLowerBound(acc: TimestampVector, rows: seq<TimestampVector>)
    requires forall i :: 0 <= i < |rows| ==> rows[i].entries.Keys == acc.entries.Keys
    ensures forall h :: h in acc.entries ==> FoldMin(acc, rows).entries[h].seqnumber <= acc.entries[h].seqnumber
    ensures forall h, i :: h in acc.entries && 0 <= i < |rows| ==>
      FoldMin(acc, rows).entries[h].seqnumber <= rows[i].entries[h].seqnumber
    ensures forall h :: h in acc.entries ==>
      FoldMin(acc, rows).entries[h] == acc.entries[h] ||
      exists i :: 0 <= i < |rows| && FoldMin(acc, rows).entries[h] == rows[i].entries[h]
    decreases |rows|
  {
    if |rows| > 0 {
      var next := MergeMin(acc, rows[0]);
      var tail := rows[1..];
      FoldMinIsLowerBound(next, tail);
      var r := FoldMin(acc, rows);
      assert r == FoldMin(next, tail);
      forall h, i | h in acc.entries && 0 <= i < |rows|
        ensures r.entries[h].seqnumber <= rows[i].entries[h].seqnumber
      {
        if i > 0 {
          assert tail[i - 1] == rows[i];
        }
      }
      forall h | h in acc.entries
        ensures r.entries[h] == acc.entries[h] || exists i :: 0 <= i < |rows| && r.entries[h] == rows[i].entries[h]
      {
        if r.entries[h] != next.entries[h] {
          var j :| 0 <= j < |tail| && r.entries[h] == tail[j].entries[h];
          assert tail[j] == rows[j + 1];
        }
      }
    }
  }

  /** Folding a non-empty run of rows over one host set from its first row:
      each entry of the result is the entry of some row `i`, and no row
      holds an older entry. */
  lemma FoldMinFromFirst(rows: seq<TimestampVector>, h: HostId) returns (i: int)
    requires |rows| > 0
    requires forall j :: 0 <= j < |rows| ==> rows[j].entries.Keys == rows[0].entries.Keys
    requires h in rows[0].entries
    ensures FoldMin(rows[0], rows[1..]).entries.Keys == rows[0].entries.Keys
    ensures 0 <= i < |rows|
    ensures FoldMin(rows[0], rows[1..]).entries[h] == rows[i].entries[h]
    ensures forall j :: 0 <= j < |rows| ==>
      FoldMin(rows[0], rows[1..]).entries[h].seqnumber <= rows[j].entries[h].seqnumber
  {
    var tail := rows[1..];
    assert forall j :: 0 <= j < |tail| ==> tail[j] == rows[j + 1];
    FoldMinIsLowerBound(rows[0], tail);
    var r := FoldMin(rows[0], tail);
    if r.entries[h] == rows[0].entries[h] {
      i := 0;
    } else {
      var j :| 0 <= j < |tail| && r.entries[h] == tail[j].entries[h];
      i := j + 1;
    }
  }

  /** One entry of the acknowledgement vector, by enumeration position: it
      is the entry of the `i`-th enumerated row, and no enumerated row holds
      an older entry for that host. */
  lemma MinEntryFromRow(m: TimestampMatrix, order: seq<HostId>, h: HostId) returns (i: int)
    requires Square(m)
    requires Enumerates(order, m.rows.Keys) && |order| > 0
    requires h in m.rows
    ensures MinTimestampVector(m, order).entries.Keys == m.rows.Keys
    ensures 0 <= i < |order|
    ensures h in m.rows[order[i]].entries
    ensures MinTimestampVector(m, order).entries[h] == m.rows[order[i]].entries[h]
    ensures forall j :: 0 <= j < |order| && h in m.rows[order[j]].entries ==>
      MinTimestampVector(m, order).entries[h].seqnumber <= m.rows[order[j]].entries[h].seqnumber
  {
    var rows := RowsInOrder(m, order);
    SquareRow(m, order[0]);
    forall j | 0 <= j < |rows|
      ensures rows[j].entries.Keys == rows[0].entries.Keys
    {
      SquareRow(m, order[j]);
    }
    i := FoldMinFromFirst(rows, h);
    SquareRow(m, order[i]);
  }

  /** On a square matrix, each entry of `minTimestampVector` is no newer
      than the same entry of any row, and is the entry some row holds. */
  lemma MinTimestampVectorIsRowMinimum(m: TimestampMatrix, order: seq<HostId>, k: HostId, h: HostId)
    requires Square(m)
    requires Enumerates(order, m.rows.Keys) && |order| > 0
    requires k in m.rows && h in m.rows
    ensures MinTimestampVector(m, order).entries.Keys == m.rows.Keys
    ensures h in m.rows[k].entries
    ensures MinTimestampVector(m, order).entries[h].seqnumber <= m.rows[k].entries[h].seqnumber
    ensures exists k' :: k' in m.rows && h in m.rows[k'].entries && MinTimestampVector(m, order).entries[h] == m.rows[k'].entries[h]
  {
    SquareRow(m, order[0]);
    SquareRow(m, k);
    var i := MinEntryFromRow(m, order, h);
    assert Listed(order, k);
    var j :| 0 <= j < |order| && order[j] == k;
  }

  /** One entry of the acknowledgement vector is the same whichever order
      the rows are folded in. */
  lemma MinEntryOrderIndependent(m: TimestampMatrix, o1: seq<HostId>, o2: seq<HostId>, h: HostId)
    requires Square(m)
    requires Enumerates(o1, m.rows.Keys) && |o1| > 0
    requires Enumerates(o2, m.rows.Keys) && |o2| > 0
    requires h in m.rows
    ensures MinTimestampVector(m, o1).entries.Keys == m.rows.Keys
    ensures MinTimestampVector(m, o2).entries.Keys == m.rows.Keys
    ensures MinTimestampVector(m, o1).entries[h] == MinTimestampVector(m, o2).entries[h]
  {
    var i1 := MinEntryFromRow(m, o1, h);
    var i2 := MinEntryFromRow(m, o2, h);
    assert Listed(o2, o1[i1]) && Listed(o1, o2[i2]);
    var j2 :| 0 <= j2 < |o2| && o2[j2] == o1[i1];
    var j1 :| 0 <= j1 < |o1| && o1[j1] == o2[i2];
    SquareRow(m, o1[i1]);
    SquareRow(m, o2[i2]);
    SameHostSameSeq(MinTimestampVector(m, o1).entries[h], MinTimestampVector(m, o2).entries[h]);
  }

  /** The acknowledgement vector does not depend on the order in which the
      rows are folded. */
  lemma MinTimestampVectorOrderIndependent(m: TimestampMatrix, o1: seq<HostId>, o2: seq<HostId>)
    requires Square(m)
    requires Enumerates(o1, m.rows.Keys) && |o1| > 0
    requires Enumerates(o2, m.rows.Keys) && |o2| > 0
    ensures MinTimestampVector(m, o1) == MinTimestampVector(m, o2)
  {
    var r1 := MinTimestampVector(m, o1);
    var r2 := MinTimestampVector(m, o2);
    SquareRow(m, o1[0]);
    SquareRow(m, o2[0]);
    forall h | h in r1.entries
      ensures r1.entries[h] == r2.entries[h]
    {
      MinEntryOrderIndependent(m, o1, o2, h);
    }
    assert r1.entries == r2.entries;
  }

  /** If any row has not seen anything from host `h`, neither has the
      acknowledgement vector. */
  lemma MinTimestampVectorNullDominates(m: TimestampMatrix, order: seq<HostId>, k: HostId, h: HostId)
    requires Square(m)
    requires Enumerates(order, m.rows.Keys) && |order| > 0
    requires k in m.rows && h in m.rows
    ensures h in m.rows[k].entries && h in MinTimestampVector(m, order).entries
    ensures IsNull(m.rows[k].entries[h]) ==> IsNull(MinTimestampVector(m, order).entries[h])
  {
    MinTimestampVectorIsRowMinimum(m, order, k, h);
  }
}
