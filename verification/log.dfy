/**
  Log: for every host, the operations received from it, in the order they
  were admitted. It answers which operations a peer has not seen yet, and
  drops the operations every participant has acknowledged.
 */
module Logs {
  import opened Timestamps
  import opened Vectors
  import opened Matrices

  /** The application payload of an operation. This core only compares it
      for equality, when two logs are compared; it never looks inside. */
  type Payload(==, !new)

  datatype Operation = Operation(timestamp: Timestamp, payload: Payload)

  datatype Log = Log(ops: map<HostId, seq<Operation>>)

  /** Outcome of `add`: the log afterwards and whether the operation was taken. */
  datatype AddResult = AddResult(log: Log, added: bool)

  /** Sequence numbers strictly increase along `s`. */
  predicate Increasing(s: seq<Operation>) {
    forall i, j :: 0 <= i < j < |s| ==> s[i].timestamp.seqnumber < s[j].timestamp.seqnumber
  }

  /** Every operation of `s` was issued by host `h`. */
  predicate FromHost(s: seq<Operation>, h: HostId) {
    forall i :: 0 <= i < |s| ==> s[i].timestamp.hostid == h
  }

  /** The log invariant: each host's sequence holds only that host's
      operations, in strictly increasing sequence-number order. */
  predicate Valid(l: Log) {
    forall h :: h in l.ops ==> Increasing(l.ops[h]) && FromHost(l.ops[h], h)
  }

  /** The operations stored for `h`; a host without an entry has none. */
  function Stored(l: Log, h: HostId): seq<Operation> {
    if h in l.ops then l.ops[h] else []
  }

  /** The log a node starts with: an empty sequence for every host. */
  function Empty(hosts: set<HostId>): (l: Log)
    ensures l.ops.Keys == hosts
    ensures forall h :: h in l.ops ==> |l.ops[h]| == 0
    ensures Valid(l)
  {
    Log(map h | h in hosts :: [])
  }

  /** The constructor: walks the participant list, giving each participant
      an empty sequence. */
  method Create(participants: seq<HostId>) returns (l: Log)
    ensures l.ops.Keys == set p | p in participants
    ensures forall h :: h in l.ops ==> l.ops[h] == []
    ensures l == Empty(set p | p in participants)
  {
    var ops: map<HostId, seq<Operation>> := map[];
    var i := 0;
    while i < |participants|
      invariant 0 <= i <= |participants|
      invariant ops.Keys == set p | p in participants[..i]
      invariant forall h :: h in ops ==> ops[h] == []
    {
      assert participants[..i + 1] == participants[..i] + [participants[i]];
      ops := ops[participants[i] := []];
      i := i + 1;
    }
    assert participants[..i] == participants;
    l := Log(ops);
  }

  /** `add`: an operation is appended to its host's sequence when that
      sequence is missing or empty, or when the operation is strictly newer
      than the last one stored; otherwise the log is left alone. The
      accompanying comment in the source asks for the immediate successor of
      the last operation; the code only asks for a newer one, and that is
      what is modelled. */
  function Add(l: Log, op: Operation): (r: AddResult)
    ensures r.log.ops.Keys == l.ops.Keys + {op.timestamp.hostid}
    ensures forall h :: h in l.ops && h != op.timestamp.hostid ==> r.log.ops[h] == l.ops[h]
    ensures r.added <==>
      var s := Stored(l, op.timestamp.hostid);
      |s| == 0 || s[|s| - 1].timestamp.seqnumber < op.timestamp.seqnumber
    ensures r.added ==> r.log.ops[op.timestamp.hostid] == Stored(l, op.timestamp.hostid) + [op]
    ensures !r.added ==> r.log == l
  {
    var h := op.timestamp.hostid;
    if h !in l.ops || |l.ops[h]| == 0 then
      AddResult(Log(l.ops[h := [op]]), true)
    else if Compare(op.timestamp, l.ops[h][|l.ops[h]| - 1].timestamp) > 0 then
      AddResult(Log(l.ops[h := l.ops[h] + [op]]), true)
    else
      AddResult(l, false)
  }

  /** The operations of `s` newer than `t`, in their order in `s`. */
  function NewerThan(s: seq<Operation>, t: Timestamp): (r: seq<Operation>)
    ensures forall op :: op in r <==> op in s && Compare(op.timestamp, t) > 0
    ensures |r| <= |s|
    decreases |s|
  {
    if |s| == 0 then []
    else if Compare(s[0].timestamp, t) > 0 then [s[0]] + NewerThan(s[1..], t)
    else NewerThan(s[1..], t)
  }

  /** One step of the filter, for callers that walk a sequence themselves. */
  lemma NewerThanStep(s: seq<Operation>, t: Timestamp)
    requires |s| > 0
    ensures NewerThan(s, t) == (if Compare(s[0].timestamp, t) > 0 then [s[0]] else []) + NewerThan(s[1..], t)
  {
  }

  /** The loop of `listNewer` over the hosts `order` visits, in that order:
      each visited host's stored operations newer than the other vector's
      entry for it. Hosts the other vector has no entry for contribute
      nothing. */
  function ListNewerFrom(l: Log, other: TimestampVector, order: seq<HostId>): (r: seq<Operation>)
    requires forall i :: 0 <= i < |order| ==> order[i] in l.ops
    ensures forall op :: op in r <==>
      exists i :: 0 <= i < |order| && order[i] in other.entries &&
        op in l.ops[order[i]] && Compare(op.timestamp, other.entries[order[i]]) > 0
    decreases |order|
  {
    if |order| == 0 then []
    else
      var h := order[0];
      var rest := ListNewerFrom(l, other, order[1..]);
      assert forall op :: op in rest <==>
        exists i :: 1 <= i < |order| && order[i] in other.entries &&
          op in l.ops[order[i]] && Compare(op.timestamp, other.entries[order[i]]) > 0
      by {
        forall op | op in rest
          ensures exists i :: (1 <= i < |order| && order[i] in other.entries &&
            op in l.ops[order[i]] && Compare(op.timestamp, other.entries[order[i]]) > 0)
        {
          var j :| 0 <= j < |order[1..]| && order[1..][j] in other.entries &&
            op in l.ops[order[1..][j]] && Compare(op.timestamp, other.entries[order[1..][j]]) > 0;
          assert order[1..][j] == order[j + 1];
        }
        forall op, i | 1 <= i < |order| && order[i] in other.entries &&
            op in l.ops[order[i]] && Compare(op.timestamp, other.entries[order[i]]) > 0
          ensures op in rest
        {
          assert order[1..][i - 1] == order[i];
        }
      }
      (if h in other.entries then NewerThan(l.ops[h], other.entries[h]) else []) + rest
  }

  /** `listNewer`: the loop run over the log's own enumeration order, which
      visits every host of the log exactly once. An operation is listed
      exactly when some host stores it and the other vector has an entry
      for that host older than it. */
  function ListNewer(l: Log, other: TimestampVector, order: seq<HostId>): (r: seq<Operation>)
    requires Enumerates(order, l.ops.Keys)
    ensures forall op :: op in r <==>
      exists h :: h in l.ops && h in other.entries && op in l.ops[h] && Compare(op.timestamp, other.entries[h]) > 0
  {
    var r := ListNewerFrom(l, other, order);
    assert forall op :: op in r <==>
      exists h :: h in l.ops && h in other.entries && op in l.ops[h] && Compare(op.timestamp, other.entries[h]) > 0
    by {
      forall op, h | h in l.ops && h in other.entries && op in l.ops[h] && Compare(op.timestamp, other.entries[h]) > 0
        ensures op in r
      {
        assert Listed(order, h);
        var i :| 0 <= i < |order| && order[i] == h;
      }
    }
    r
  }

  /** Purging against an acknowledgement vector: for each host whose
      acknowledged timestamp is not null, keep only the operations newer
      than it. The source dereferences the acknowledgement entry of every
      host in the log, so each must be present. */
  function Purge(l: Log, ack: TimestampVector): (r: Log)
    requires l.ops.Keys <= ack.entries.Keys
    ensures r.ops.Keys == l.ops.Keys
    ensures forall h :: h in l.ops && IsNull(ack.entries[h]) ==> r.ops[h] == l.ops[h]
    ensures forall h :: h in l.ops && !IsNull(ack.entries[h]) ==> r.ops[h] == NewerThan(l.ops[h], ack.entries[h])
  {
    Log(map h | h in l.ops ::
      if IsNull(ack.entries[h]) then l.ops[h] else NewerThan(l.ops[h], ack.entries[h]))
  }

  /** `purgeLog`: purging against the acknowledgement vector of `ack`,
      folded in the matrix's enumeration order `order`. */
  function PurgeLog(l: Log, ack: TimestampMatrix, order: seq<HostId>): (r: Log)
    requires Enumerates(order, ack.rows.Keys) && |order| > 0
    requires l.ops.Keys <= MinTimestampVector(ack, order).entries.Keys
    ensures r.ops.Keys == l.ops.Keys
  {
    Purge(l, MinTimestampVector(ack, order))
  }

  /** The per-host scan of `purgeLog`: walks the sequence with an index,
      removing an operation in place when it is not newer than `lastAck`
      and stepping past it otherwise. */
  method PurgeHost(messages: seq<Operation>, lastAck: Timestamp) returns (kept: seq<Operation>)
    ensures kept == NewerThan(messages, lastAck)
  {
    kept := messages;
    var index := 0;
    assert kept[..index] == [] && kept[index..] == messages;
    while index < |kept|
      invariant 0 <= index <= |kept|
      invariant kept[..index] + NewerThan(kept[index..], lastAck) == NewerThan(messages, lastAck)
      decreases |kept| - index
    {
      if Compare(kept[index].timestamp, lastAck) <= 0 {
        DropStep(kept, index, lastAck);
        kept := kept[..index] + kept[index + 1..];
      } else {
        KeepStep(kept, index, lastAck);
        index := index + 1;
      }
    }
    assert kept[..index] == kept && kept[index..] == [];
  }

  /** Removing an operation that is not newer leaves the filtered outcome
      unchanged. */
  lemma DropStep(kept: seq<Operation>, index: nat, t: Timestamp)
    requires index < |kept| && Compare(kept[index].timestamp, t) <= 0
    ensures var next := kept[..index] + kept[index + 1..];
      next[..index] + NewerThan(next[index..], t) == kept[..index] + NewerThan(kept[index..], t)
  {
    var next := kept[..index] + kept[index + 1..];
    NewerThanStep(kept[index..], t);
    assert kept[index..][1..] == kept[index + 1..];
    assert next[..index] == kept[..index];
    assert next[index..] == kept[index + 1..];
  }

  /** Stepping past an operation that is newer leaves the filtered outcome
      unchanged. */
  lemma KeepStep(kept: seq<Operation>, index: nat, t: Timestamp)
    requires index < |kept| && Compare(kept[index].timestamp, t) > 0
    ensures kept[..index + 1] + NewerThan(kept[index + 1..], t) == kept[..index] + NewerThan(kept[index..], t)
  {
    NewerThanStep(kept[index..], t);
    assert kept[index..][1..] == kept[index + 1..];
    assert kept[..index + 1] == kept[..index] + [kept[index]];
  }

  /** `equals`: the two host-to-sequence maps agree pointwise. */
  function Equals(a: Log, b: Log): (r: bool)
    ensures r <==> a.ops.Keys == b.ops.Keys && forall h :: h in a.ops ==> a.ops[h] == b.ops[h]
  {
    a == b
  }

  // ---------------------------------------------------------------------
  // Admitting operations

  /** `add` keeps the log invariant: whatever it appends is newer than
      everything already stored for that host. */
  lemma AddPreservesValid(l: Log, op: Operation)
    requires Valid(l)
    ensures Valid(Add(l, op).log)
  {
    var r := Add(l, op);
    var h := op.timestamp.hostid;
    if r.added {
      var s := Stored(l, h);
      var t := r.log.ops[h];
      assert Increasing(s) && FromHost(s, h);
      forall i, j | 0 <= i < j < |t|
        ensures t[i].timestamp.seqnumber < t[j].timestamp.seqnumber
      {
        if j == |s| && i < |s| - 1 {
          assert s[i].timestamp.seqnumber < s[|s| - 1].timestamp.seqnumber;
        }
      }
      assert Increasing(t);
      assert FromHost(t, h);
      forall k | k in r.log.ops
        ensures Increasing(r.log.ops[k]) && FromHost(r.log.ops[k], k)
      {
        if k != h {
          assert r.log.ops[k] == l.ops[k];
        }
      }
    }
  }

  /** Receiving the same operation twice admits it at most once. */
  lemma AddTwiceIsNoOp(l: Log, op: Operation)
    ensures var once := Add(l, op); Add(once.log, op) == AddResult(once.log, false)
  {
    var once := Add(l, op);
    var h := op.timestamp.hostid;
    if once.added {
      var s := once.log.ops[h];
      assert s[|s| - 1] == op;
    }
  }

  /** In a valid log, an operation that is not newer than some operation
      already stored for its host is refused. */
  lemma AddRejectsStale(l: Log, op: Operation, i: int)
    requires Valid(l)
    requires op.timestamp.hostid in l.ops
    requires 0 <= i < |l.ops[op.timestamp.hostid]|
    requires op.timestamp.seqnumber <= l.ops[op.timestamp.hostid][i].timestamp.seqnumber
    ensures !Add(l, op).added
    ensures Add(l, op).log == l
  {
    var s := l.ops[op.timestamp.hostid];
    assert Increasing(s);
    if i < |s| - 1 {
      assert s[i].timestamp.seqnumber < s[|s| - 1].timestamp.seqnumber;
    }
  }

  // ---------------------------------------------------------------------
  // The filter behind listNewer and purgeLog

  /** When every operation of `s` is newer than `t`, nothing is filtered out. */
  lemma {:induction false} NewerThanAll(s: seq<Operation>, t: Timestamp)
    requires forall i :: 0 <= i < |s| ==> Compare(s[i].timestamp, t) > 0
    ensures NewerThan(s, t) == s
    decreases |s|
  {
    if |s| > 0 {
      assert forall i :: 0 <= i < |s[1..]| ==> s[1..][i] == s[i + 1];
      NewerThanAll(s[1..], t);
      assert [s[0]] + s[1..] == s;
    }
  }

  /** On an increasing sequence the filter keeps a suffix: the operations
      before position `k` are all at or below `t`, the rest are kept. */
  lemma {:induction false} NewerThanSuffix(s: seq<Operation>, t: Timestamp) returns (k: int)
    requires Increasing(s)
    ensures 0 <= k <= |s|
    ensures NewerThan(s, t) == s[k..]
    ensures forall i :: 0 <= i < k ==> s[i].timestamp.seqnumber <= t.seqnumber
    decreases |s|
  {
    if |s| == 0 {
      k := 0;
    } else if Compare(s[0].timestamp, t) > 0 {
      forall i | 0 <= i < |s|
        ensures Compare(s[i].timestamp, t) > 0
      {
        if i > 0 {
          assert s[0].timestamp.seqnumber < s[i].timestamp.seqnumber;
        }
      }
      NewerThanAll(s, t);
      k := 0;
    } else {
      assert Increasing(s[1..]) by {
        forall i, j | 0 <= i < j < |s[1..]|
          ensures s[1..][i].timestamp.seqnumber < s[1..][j].timestamp.seqnumber
        {
          assert s[1..][i] == s[i + 1] && s[1..][j] == s[j + 1];
        }
      }
      var k' := NewerThanSuffix(s[1..], t);
      k := k' + 1;
      assert s[1..][k'..] == s[k..];
      forall i | 0 <= i < k
        ensures s[i].timestamp.seqnumber <= t.seqnumber
      {
        if i > 0 {
          assert s[i] == s[1..][i - 1];
        }
      }
    }
  }

  /** Any suffix of an increasing sequence of one host's operations is
      again one. */
  lemma SuffixKeepsShape(s: seq<Operation>, h: HostId, k: int)
    requires Increasing(s) && FromHost(s, h)
    requires 0 <= k <= |s|
    ensures Increasing(s[k..]) && FromHost(s[k..], h)
  {
    assert forall i :: 0 <= i < |s[k..]| ==> s[k..][i] == s[k + i];
  }

  // ---------------------------------------------------------------------
  // What listNewer sends, host by host

  /** The operations of `s` issued by host `h`, in their order in `s`. */
  function OpsFrom(s: seq<Operation>, h: HostId): (r: seq<Operation>)
    ensures forall op :: op in r <==> op in s && op.timestamp.hostid == h
    decreases |s|
  {
    if |s| == 0 then []
    else (if s[0].timestamp.hostid == h then [s[0]] else []) + OpsFrom(s[1..], h)
  }

  lemma {:induction false} OpsFromConcat(a: seq<Operation>, b: seq<Operation>, h: HostId)
    ensures OpsFrom(a + b, h) == OpsFrom(a, h) + OpsFrom(b, h)
    decreases |a|
  {
    if |a| == 0 {
      assert a + b == b;
    } else {
      assert (a + b)[0] == a[0];
      assert (a + b)[1..] == a[1..] + b;
      OpsFromConcat(a[1..], b, h);
    }
  }

  lemma {:induction false} OpsFromOnly(s: seq<Operation>, h: HostId)
    requires forall op :: op in s ==> op.timestamp.hostid == h
    ensures OpsFrom(s, h) == s
    decreases |s|
  {
    if |s| > 0 {
      assert s[0] in s;
      assert forall op :: op in s[1..] ==> op in s;
      OpsFromOnly(s[1..], h);
      assert [s[0]] + s[1..] == s;
    }
  }

  lemma OpsFromNone(s: seq<Operation>, h: HostId)
    requires forall op :: op in s ==> op.timestamp.hostid != h
    ensures OpsFrom(s, h) == []
  {
  }

  /** The part of ListNewerFrom contributed by host `h`: nothing when `h` is not
      visited or the other vector has no entry for it, otherwise the stored
      operations of `h` newer than that entry, in log order. */
  lemma {:induction false} ListNewerHostPart(l: Log, other: TimestampVector, order: seq<HostId>, h: HostId)
    requires Valid(l)
    requires forall i :: 0 <= i < |order| ==> order[i] in l.ops
    requires forall i, j :: 0 <= i < j < |order| ==> order[i] != order[j]
    ensures OpsFrom(ListNewerFrom(l, other, order), h) ==
      if h in order && h in other.entries then NewerThan(l.ops[h], other.entries[h]) else []
    decreases |order|
  {
    if |order| > 0 {
      var h0 := order[0];
      var tail := order[1..];
      assert forall i :: 0 <= i < |tail| ==> tail[i] == order[i + 1];
      var part := if h0 in other.entries then NewerThan(l.ops[h0], other.entries[h0]) else [];
      var rest := ListNewerFrom(l, other, tail);
      assert ListNewerFrom(l, other, order) == part + rest;
      OpsFromConcat(part, rest, h);
      ListNewerHostPart(l, other, tail, h);
      assert FromHost(l.ops[h0], h0);
      assert forall op :: op in part ==> op.timestamp.hostid == h0;
      assert h in order <==> h == h0 || h in tail;
      if h == h0 {
        OpsFromOnly(part, h);
        assert h !in tail;
      } else {
        OpsFromNone(part, h);
      }
    }
  }

  /** `listNewer` over a full enumeration of the log's hosts sends, for each
      host, exactly the operations the other vector has not seen, in the
      order they were logged. */
  lemma ListNewerForHost(l: Log, other: TimestampVector, order: seq<HostId>, h: HostId)
    requires Valid(l) && Enumerates(order, l.ops.Keys)
    requires h in l.ops
    ensures OpsFrom(ListNewer(l, other, order), h) ==
      if h in other.entries then NewerThan(l.ops[h], other.entries[h]) else []
  {
    assert Listed(order, h);
    ListNewerHostPart(l, other, order, h);
  }

  /** A peer whose entry for `h` is null has seen nothing from `h`, so it
      is sent every stored operation of `h`. */
  lemma ListNewerAfterNullSendsAll(l: Log, other: TimestampVector, order: seq<HostId>, h: HostId)
    requires Valid(l) && Enumerates(order, l.ops.Keys)
    requires h in l.ops && h in other.entries && IsNull(other.entries[h])
    requires forall i :: 0 <= i < |l.ops[h]| ==> !IsNull(l.ops[h][i].timestamp)
    ensures OpsFrom(ListNewer(l, other, order), h) == l.ops[h]
  {
    ListNewerForHost(l, other, order, h);
    NewerThanAll(l.ops[h], other.entries[h]);
  }

  // ---------------------------------------------------------------------
  // Purging

  /** Purging a valid log drops, for each host, a prefix of operations that
      are all at or below the acknowledged timestamp, and keeps the rest. */
  lemma PurgeLeavesSuffix(l: Log, ack: TimestampVector, h: HostId) returns (k: int)
    requires Valid(l) && l.ops.Keys <= ack.entries.Keys
    requires h in l.ops
    ensures 0 <= k <= |l.ops[h]|
    ensures Purge(l, ack).ops[h] == l.ops[h][k..]
    ensures forall i :: 0 <= i < k ==> l.ops[h][i].timestamp.seqnumber <= ack.entries[h].seqnumber
  {
    if IsNull(ack.entries[h]) {
      k := 0;
      assert l.ops[h][0..] == l.ops[h];
    } else {
      k := NewerThanSuffix(l.ops[h], ack.entries[h]);
    }
  }

  /** Purging keeps the log invariant. */
  lemma PurgePreservesValid(l: Log, ack: TimestampVector)
    requires Valid(l) && l.ops.Keys <= ack.entries.Keys
    ensures Valid(Purge(l, ack))
  {
    var r := Purge(l, ack);
    forall h | h in r.ops
      ensures Increasing(r.ops[h]) && FromHost(r.ops[h], h)
    {
      var k := PurgeLeavesSuffix(l, ack, h);
      SuffixKeepsShape(l.ops[h], h, k);
    }
  }

  /** Purging twice against the same acknowledgements is purging once. */
  lemma PurgeIdempotent(l: Log, ack: TimestampVector)
    requires l.ops.Keys <= ack.entries.Keys
    ensures Purge(Purge(l, ack), ack) == Purge(l, ack)
  {
    var once := Purge(l, ack);
    var twice := Purge(once, ack);
    forall h | h in once.ops
      ensures twice.ops[h] == once.ops[h]
    {
      if !IsNull(ack.entries[h]) {
        var s := once.ops[h];
        assert forall op :: op in s ==> Compare(op.timestamp, ack.entries[h]) > 0;
        assert forall i :: 0 <= i < |s| ==> s[i] in s;
        NewerThanAll(s, ack.entries[h]);
      }
    }
    assert twice.ops == once.ops;
  }

  /** On a square acknowledgement matrix the outcome of `purgeLog` does not
      depend on the order in which the rows are folded. */
  lemma PurgeLogOrderIndependent(l: Log, ack: TimestampMatrix, o1: seq<HostId>, o2: seq<HostId>)
    requires Square(ack)
    requires Enumerates(o1, ack.rows.Keys) && |o1| > 0
    requires Enumerates(o2, ack.rows.Keys) && |o2| > 0
    requires l.ops.Keys <= ack.rows.Keys
    ensures MinTimestampVector(ack, o1).entries.Keys == ack.rows.Keys
    ensures MinTimestampVector(ack, o2).entries.Keys == ack.rows.Keys
    ensures PurgeLog(l, ack, o1) == PurgeLog(l, ack, o2)
  {
    MinTimestampVectorOrderIndependent(ack, o1, o2);
    SquareRow(ack, o1[0]);
  }

  /** The safety property of `purgeLog`: a (non-null) stored operation is
      removed exactly when every participant's row acknowledges it, that is,
      when no row still holds an older timestamp for its host. */
  lemma PurgeLogRemovesExactlyAcknowledged(l: Log, ack: TimestampMatrix, order: seq<HostId>, h: HostId, op: Operation)
    requires Square(ack)
    requires Enumerates(order, ack.rows.Keys) && |order| > 0
    requires l.ops.Keys <= ack.rows.Keys
    requires h in l.ops && op in l.ops[h] && !IsNull(op.timestamp)
    ensures MinTimestampVector(ack, order).entries.Keys == ack.rows.Keys
    ensures forall k :: k in ack.rows ==> h in ack.rows[k].entries
    ensures op !in PurgeLog(l, ack, order).ops[h] <==>
      forall k :: k in ack.rows ==> op.timestamp.seqnumber <= ack.rows[k].entries[h].seqnumber
  {
    var min := MinTimestampVector(ack, order);
    var i := MinEntryFromRow(ack, order, h);
    forall k | k in ack.rows
      ensures h in ack.rows[k].entries
      ensures min.entries[h].seqnumber <= ack.rows[k].entries[h].seqnumber
    {
      MinTimestampVectorIsRowMinimum(ack, order, k, h);
    }
    var r := PurgeLog(l, ack, order);
    if IsNull(min.entries[h]) {
      assert r.ops[h] == l.ops[h];
      assert op.timestamp.seqnumber > ack.rows[order[i]].entries[h].seqnumber;
    } else {
      assert r.ops[h] == NewerThan(l.ops[h], min.entries[h]);
      if forall k :: k in ack.rows ==> op.timestamp.seqnumber <= ack.rows[k].entries[h].seqnumber {
        assert op.timestamp.seqnumber <= ack.rows[order[i]].entries[h].seqnumber;
      }
    }
  }
}
