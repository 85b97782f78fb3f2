/**
 * The third stage: stream the stop-time table row by row, writing through
 * every row whose trip is not removed and reporting every row that does not
 * parse.
 */
module StopTimeReducer {
  import opened Tables
  import opened Feed

  /** The stop times written to the new table, in table order. */
  function KeptStopTimes(rows: seq<Row<StopTime>>, removedTrips: set<string>): seq<StopTime>
  {
    Filter(Records(rows), (s: StopTime) => s.tripId !in removedTrips)
  }

  /** The stop times skipped because their trip is removed, in table order. */
  function DroppedStopTimes(rows: seq<Row<StopTime>>, removedTrips: set<string>): seq<StopTime>
  {
    Filter(Records(rows), (s: StopTime) => s.tripId in removedTrips)
  }

  /** What one more row of the stop-time table adds to the output and to the diagnostics. */
  lemma StopTimeStep(rows: seq<Row<StopTime>>, row: Row<StopTime>, removedTrips: set<string>)
    ensures KeptStopTimes(rows + [row], removedTrips) ==
            KeptStopTimes(rows, removedTrips) + (if row.Parsed? && row.record.tripId !in removedTrips then [row.record] else [])
    ensures MalformedCount(rows + [row]) == MalformedCount(rows) + (if row.Malformed? then 1 else 0)
  {
    SelectSnoc(rows, row, (s: StopTime) => s.tripId !in removedTrips);
    RecordsSnoc(rows, row);
  }

  /**
   * The streaming loop. A parsed row whose trip is removed is skipped, any
   * other parsed row is serialised at once, and a row that does not parse
   * raises one diagnostic (counted in `diagnostics`) and the loop goes on.
   */
  method FilterStopTimes(rows: seq<Row<StopTime>>, removedTrips: set<string>, writer: TableWriter<StopTime>)
    returns (diagnostics: nat)
    modifies writer
    ensures writer.written == old(writer.written) + KeptStopTimes(rows, removedTrips)
    ensures diagnostics == MalformedCount(rows)
  {
    diagnostics := 0;
    for i := 0 to |rows|
      invariant writer.written == old(writer.written) + KeptStopTimes(rows[..i], removedTrips)
      invariant diagnostics == MalformedCount(rows[..i])
    {
      StopTimeStep(rows[..i], rows[i], removedTrips);
      assert rows[..i + 1] == rows[..i] + [rows[i]];
      match rows[i]
      case Parsed(stopTime) =>
        if stopTime.tripId in removedTrips {
          continue;
        } else {
          writer.Serialize(stopTime);
        }
      case Malformed =>
        diagnostics := diagnostics + 1;
    }
    assert rows[..|rows|] == rows;
  }

  /** A stop time is written exactly when some row parses to it and its trip is not removed. */
  lemma KeptStopTimesIff(rows: seq<Row<StopTime>>, removedTrips: set<string>, s: StopTime)
    ensures s in KeptStopTimes(rows, removedTrips) <==> Parsed(s) in rows && s.tripId !in removedTrips
  {
    RecordsMembership(rows, s);
    FilterMembership(Records(rows), (s: StopTime) => s.tripId !in removedTrips, s);
  }

  /**
   * The row count law: every row read is written, skipped, or reported, and
   * each parsed row is either written or skipped, not both.
   */
  lemma StopTimeCountLaw(rows: seq<Row<StopTime>>, removedTrips: set<string>)
    ensures |KeptStopTimes(rows, removedTrips)| + |DroppedStopTimes(rows, removedTrips)| + MalformedCount(rows) == |rows|
    ensures forall s :: s in KeptStopTimes(rows, removedTrips) || s in DroppedStopTimes(rows, removedTrips) ==> Parsed(s) in rows
    ensures forall s :: Parsed(s) in rows ==> (s in KeptStopTimes(rows, removedTrips) <==> s !in DroppedStopTimes(rows, removedTrips))
  {
    FilterSplit(Records(rows), (s: StopTime) => s.tripId !in removedTrips, (s: StopTime) => s.tripId in removedTrips);
    RecordsCount(rows);
    forall s | s in KeptStopTimes(rows, removedTrips) || s in DroppedStopTimes(rows, removedTrips) || Parsed(s) in rows
      ensures s in KeptStopTimes(rows, removedTrips) || s in DroppedStopTimes(rows, removedTrips) ==> Parsed(s) in rows
      ensures Parsed(s) in rows ==> (s in KeptStopTimes(rows, removedTrips) <==> s !in DroppedStopTimes(rows, removedTrips))
    {
      RecordsMembership(rows, s);
      FilterMembership(Records(rows), (s: StopTime) => s.tripId !in removedTrips, s);
      FilterMembership(Records(rows), (s: StopTime) => s.tripId in removedTrips, s);
    }
  }

  /**
   * A malformed row changes nothing but the diagnostic count: the rows before
   * and after it are handled as if it were not there.
   */
  lemma MalformedRowOnlyReported(before: seq<Row<StopTime>>, after: seq<Row<StopTime>>, removedTrips: set<string>)
    ensures KeptStopTimes(before + [Malformed] + after, removedTrips) == KeptStopTimes(before + after, removedTrips)
    ensures MalformedCount(before + [Malformed] + after) == MalformedCount(before + after) + 1
  {
    DropMalformed(before, after);
  }

  /** Filtering the written stop times again with the same removed-trip set changes nothing. */
  lemma KeptStopTimesIdempotent(rows: seq<Row<StopTime>>, removedTrips: set<string>)
    ensures KeptStopTimes(AsRows(KeptStopTimes(rows, removedTrips)), removedTrips)
            == KeptStopTimes(rows, removedTrips)
  {
    FilterIdempotent(Records(rows), (s: StopTime) => s.tripId !in removedTrips);
  }

  /** When no parsed row belongs to a removed trip, every parsed stop time is written, in order. */
  lemma NoneRemovedKeepsAll(rows: seq<Row<StopTime>>, removedTrips: set<string>)
    requires forall s :: Parsed(s) in rows ==> s.tripId !in removedTrips
    ensures KeptStopTimes(rows, removedTrips) == Records(rows)
  {
    var records := Records(rows);
    forall i | 0 <= i < |records|
      ensures records[i].tripId !in removedTrips
    {
      RecordsMembership(rows, records[i]);
    }
    FilterAllKept(records, (s: StopTime) => s.tripId !in removedTrips);
  }

  /**
   * Rows of removed trip T1 are skipped, the malformed row is reported once,
   * and the rows after it are still handled.
   */
  lemma ScenarioMalformedStopTime(rows: seq<Row<StopTime>>)
    requires rows == [Parsed(StopTime("T1", [])), Malformed, Parsed(StopTime("T2", [])), Parsed(StopTime("T1", []))]
    ensures KeptStopTimes(rows, {"T1"}) == [StopTime("T2", [])]
    ensures MalformedCount(rows) == 1
  {
    var s1, s2 := StopTime("T1", []), StopTime("T2", []);
    var removed := {"T1"};
    assert s1.tripId in removed && s2.tripId !in removed;
    var p0: seq<Row<StopTime>> := [];
    var p1 := p0 + [Parsed(s1)];
    var p2 := p1 + [Malformed];
    var p3 := p2 + [Parsed(s2)];
    assert rows == p3 + [Parsed(s1)];
    StopTimeStep(p0, Parsed(s1), removed);
    StopTimeStep(p1, Malformed, removed);
    StopTimeStep(p2, Parsed(s2), removed);
    StopTimeStep(p3, Parsed(s1), removed);
  }
}
