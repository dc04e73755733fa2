/**
  Worked examples on concrete values: two hosts "A" and "B", small
  sequence numbers. The payload is left open, since none of these
  operations looks at it.
 */
module Scenarios {
  import opened Timestamps
  import opened Vectors
  import opened Matrices
  import opened Logs

  function Op(h: HostId, n: int, p: Payload): Operation {
    Operation(Timestamp(h, n), p)
  }

  /** Rows {A: 3, B: 1} for A and {A: 1, B: 2} for B. */
  function Acks(): (m: TimestampMatrix)
    ensures Square(m)
  {
    var rowA := TimestampVector(map["A" := Timestamp("A", 3), "B" := Timestamp("B", 1)]);
    var rowB := TimestampVector(map["A" := Timestamp("A", 1), "B" := Timestamp("B", 2)]);
    var m := TimestampMatrix(map["A" := rowA, "B" := rowB]);
    assert Covers(m.rows["A"], m.rows.Keys) && Covers(m.rows["B"], m.rows.Keys);
    m
  }

  /** Admitting seq 1 then seq 2 from A succeeds in that order; offering
      seq 1 again afterwards is refused and changes nothing. */
  lemma AddInOrderThenDuplicate(p: Payload)
    ensures var first := Add(Empty({"A", "B"}), Op("A", 1, p));
      var second := Add(first.log, Op("A", 2, p));
      var again := Add(second.log, Op("A", 1, p));
      && first.added && second.added
      && second.log.ops["A"] == [Op("A", 1, p), Op("A", 2, p)]
      && !again.added && again.log == second.log
  {
    var first := Add(Empty({"A", "B"}), Op("A", 1, p));
    assert first.log.ops["A"] == [Op("A", 1, p)];
    var second := Add(first.log, Op("A", 2, p));
    assert second.log.ops["A"] == [Op("A", 1, p), Op("A", 2, p)];
  }

  /** A log {A: [1, 2], B: [1]} against the vector {A: 1, B: null}: the
      peer is sent A's seq 2 and B's seq 1, whichever host is visited first. */
  lemma ListNewerExample(p: Payload)
    ensures var l := Log(map["A" := [Op("A", 1, p), Op("A", 2, p)], "B" := [Op("B", 1, p)]]);
      var v := TimestampVector(map["A" := Timestamp("A", 1), "B" := NullTimestamp("B")]);
      && Enumerates(["A", "B"], l.ops.Keys) && Enumerates(["B", "A"], l.ops.Keys)
      && ListNewer(l, v, ["A", "B"]) == [Op("A", 2, p), Op("B", 1, p)]
      && ListNewer(l, v, ["B", "A"]) == [Op("B", 1, p), Op("A", 2, p)]
  {
    var l := Log(map["A" := [Op("A", 1, p), Op("A", 2, p)], "B" := [Op("B", 1, p)]]);
    var v := TimestampVector(map["A" := Timestamp("A", 1), "B" := NullTimestamp("B")]);
    var sa := [Op("A", 1, p), Op("A", 2, p)];
    assert sa[1..] == [Op("A", 2, p)];
    assert NewerThan(sa, v.entries["A"]) == [Op("A", 2, p)];
    assert NewerThan([Op("B", 1, p)], v.entries["B"]) == [Op("B", 1, p)];
    assert ["A", "B"][1..] == ["B"] && ["B", "A"][1..] == ["A"];
    assert ["B"][1..] == [] && ["A"][1..] == [];
    assert Listed(["A", "B"], "A") && Listed(["A", "B"], "B");
    assert Listed(["B", "A"], "A") && Listed(["B", "A"], "B");
  }

  /** The element-wise minimum of the example rows is {A: 1, B: 1}. */
  lemma MinTimestampVectorExample()
    ensures MinTimestampVector(Acks(), ["A", "B"]).entries ==
      map["A" := Timestamp("A", 1), "B" := Timestamp("B", 1)]
  {
    var m := Acks();
    var rows := RowsInOrder(m, ["A", "B"]);
    assert Listed(["A", "B"], "A") && Listed(["A", "B"], "B");
    assert rows[1..] == [m.rows["B"]];
    assert [m.rows["B"]][1..] == [];
  }

  /** With `mergeMin` as written, the same rows yield A's own row
      {A: 3, B: 1}: A's entry claims that B has acknowledged A's seq 3,
      which B's row contradicts. The outcome also depends on which row the
      enumeration visits first. */
  lemma MinTimestampVectorAsWrittenCounterexample()
    ensures MinTimestampVectorAsWritten(Acks(), ["A", "B"]).entries["A"] == Timestamp("A", 3)
    ensures Acks().rows["B"].entries["A"] == Timestamp("A", 1)
    ensures MinTimestampVectorAsWritten(Acks(), ["A", "B"]) != MinTimestampVectorAsWritten(Acks(), ["B", "A"])
  {
    var m := Acks();
    assert Listed(["A", "B"], "A") && Listed(["A", "B"], "B");
    assert Listed(["B", "A"], "A") && Listed(["B", "A"], "B");
  }

  /** Purging {A: [1, 2, 3]} when every participant has acknowledged A's
      seq 2 leaves [3]. */
  lemma PurgeLogExample(p: Payload)
    ensures var l := Log(map["A" := [Op("A", 1, p), Op("A", 2, p), Op("A", 3, p)]]);
      var m := TimestampMatrix(map["A" := TimestampVector(map["A" := Timestamp("A", 2)])]);
      && Enumerates(["A"], m.rows.Keys)
      && MinTimestampVector(m, ["A"]).entries.Keys == {"A"}
      && PurgeLog(l, m, ["A"]).ops["A"] == [Op("A", 3, p)]
  {
    var s := [Op("A", 1, p), Op("A", 2, p), Op("A", 3, p)];
    var m := TimestampMatrix(map["A" := TimestampVector(map["A" := Timestamp("A", 2)])]);
    assert Listed(["A"], "A");
    assert RowsInOrder(m, ["A"])[1..] == [];
    assert s[1..] == [Op("A", 2, p), Op("A", 3, p)];
    assert s[1..][1..] == [Op("A", 3, p)];
    assert NewerThan(s, Timestamp("A", 2)) == [Op("A", 3, p)];
  }
}
