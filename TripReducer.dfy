/**
 * The second stage: read the trip table, set aside every trip whose
 * `route_id` is in the set of removed route ids, remembering its `trip_id`,
 * and write the remaining trips to the new trip table.
 */
module TripReducer {
  import opened Tables
  import opened Feed

  /** The trips that stay, in table order. */
  function KeptTrips(rows: seq<Row<Trip>>, removedRoutes: set<string>): seq<Trip>
  {
    Filter(Records(rows), (t: Trip) => t.routeId !in removedRoutes)
  }

  /** The trips that go, in table order (the program keeps only their ids). */
  function DroppedTrips(rows: seq<Row<Trip>>, removedRoutes: set<string>): seq<Trip>
  {
    Filter(Records(rows), (t: Trip) => t.routeId in removedRoutes)
  }

  /** The ids of the trips that go. */
  function RemovedTripIds(rows: seq<Row<Trip>>, removedRoutes: set<string>): set<string>
  {
    set t | t in Records(rows) && t.routeId in removedRoutes :: t.tripId
  }

  /** No two parsed trips share a `trip_id`, as the GTFS format requires. */
  predicate UniqueTripIds(trips: seq<Trip>)
  {
    forall i, j :: 0 <= i < j < |trips| ==> trips[i].tripId != trips[j].tripId
  }

  /** What one more row of the trip table adds to each bucket. */
  lemma TripStep(rows: seq<Row<Trip>>, row: Row<Trip>, removedRoutes: set<string>)
    ensures KeptTrips(rows + [row], removedRoutes) ==
            KeptTrips(rows, removedRoutes) + (if row.Parsed? && row.record.routeId !in removedRoutes then [row.record] else [])
    ensures RemovedTripIds(rows + [row], removedRoutes) ==
            RemovedTripIds(rows, removedRoutes) + (if row.Parsed? && row.record.routeId in removedRoutes then {row.record.tripId} else {})
  {
    SelectSnoc(rows, row, (t: Trip) => t.routeId !in removedRoutes);
    RecordsSnoc(rows, row);
  }

  /**
   * The trip loop: each parsed trip whose route is removed has its id inserted
   * into the removal set, every other parsed trip is pushed onto the kept
   * list, and a row that does not parse is passed over without a word.
   */
  method ReduceTrips(rows: seq<Row<Trip>>, removedRoutes: set<string>)
    returns (kept: seq<Trip>, removed: set<string>)
    ensures kept == KeptTrips(rows, removedRoutes)
    ensures removed == RemovedTripIds(rows, removedRoutes)
  {
    kept, removed := [], {};
    for i := 0 to |rows|
      invariant kept == KeptTrips(rows[..i], removedRoutes)
      invariant removed == RemovedTripIds(rows[..i], removedRoutes)
    {
      TripStep(rows[..i], rows[i], removedRoutes);
      assert rows[..i + 1] == rows[..i] + [rows[i]];
      match rows[i]
      case Parsed(trip) =>
        if trip.routeId in removedRoutes {
          removed := removed + {trip.tripId};
        } else {
          kept := kept + [trip];
        }
      case Malformed =>
    }
    assert rows[..|rows|] == rows;
  }

  /** The write-back loop: every kept trip is serialised, in order, to the new trip table. */
  method WriteTrips(trips: seq<Trip>, writer: TableWriter<Trip>)
    modifies writer
    ensures writer.written == old(writer.written) + trips
  {
    for i := 0 to |trips|
      invariant writer.written == old(writer.written) + trips[..i]
    {
      writer.Serialize(trips[i]);
      assert trips[..i + 1] == trips[..i] + [trips[i]];
    }
    assert trips[..|trips|] == trips;
  }

  /**
   * A trip id is removed exactly when some row parses to a trip with that id
   * whose `route_id` is in the removed-route set. Only that set is consulted.
   */
  lemma RemovedTripIdsIff(rows: seq<Row<Trip>>, removedRoutes: set<string>, id: string)
    ensures id in RemovedTripIds(rows, removedRoutes) <==>
            exists t :: Parsed(t) in rows && t.tripId == id && t.routeId in removedRoutes
  {
    forall t: Trip {
      RecordsMembership(rows, t);
    }
  }

  /** A trip stays exactly when some row parses to it and its route is not removed. */
  lemma KeptTripsIff(rows: seq<Row<Trip>>, removedRoutes: set<string>, t: Trip)
    ensures t in KeptTrips(rows, removedRoutes) <==> Parsed(t) in rows && t.routeId !in removedRoutes
  {
    RecordsMembership(rows, t);
    FilterMembership(Records(rows), (t: Trip) => t.routeId !in removedRoutes, t);
  }

  /**
   * Every parsed trip is kept or dropped and not both; malformed rows are
   * neither.
   */
  lemma TripPartition(rows: seq<Row<Trip>>, removedRoutes: set<string>)
    ensures |KeptTrips(rows, removedRoutes)| + |DroppedTrips(rows, removedRoutes)| + MalformedCount(rows) == |rows|
    ensures forall t :: t in KeptTrips(rows, removedRoutes) || t in DroppedTrips(rows, removedRoutes) ==> Parsed(t) in rows
    ensures forall t :: Parsed(t) in rows ==> (t in KeptTrips(rows, removedRoutes) <==> t !in DroppedTrips(rows, removedRoutes))
  {
    FilterSplit(Records(rows), (t: Trip) => t.routeId !in removedRoutes, (t: Trip) => t.routeId in removedRoutes);
    RecordsCount(rows);
    forall t | t in KeptTrips(rows, removedRoutes) || t in DroppedTrips(rows, removedRoutes) || Parsed(t) in rows
      ensures t in KeptTrips(rows, removedRoutes) || t in DroppedTrips(rows, removedRoutes) ==> Parsed(t) in rows
      ensures Parsed(t) in rows ==> (t in KeptTrips(rows, removedRoutes) <==> t !in DroppedTrips(rows, removedRoutes))
    {
      RecordsMembership(rows, t);
      FilterMembership(Records(rows), (t: Trip) => t.routeId !in removedRoutes, t);
      FilterMembership(Records(rows), (t: Trip) => t.routeId in removedRoutes, t);
    }
  }

  /**
   * The id count law: when no two dropped trips share a `trip_id`, the kept
   * trips and the removed ids together account for every parsed trip. Unique
   * trip ids, as the GTFS format requires, are one way to meet that.
   */
  lemma {:induction false} TripCountLaw(rows: seq<Row<Trip>>, removedRoutes: set<string>)
    requires UniqueTripIds(DroppedTrips(rows, removedRoutes))
    ensures |KeptTrips(rows, removedRoutes)| + |RemovedTripIds(rows, removedRoutes)|
            == |Records(rows)|
  {
    if rows != [] {
      var init, row := rows[..|rows| - 1], rows[|rows| - 1];
      assert rows == init + [row];
      RecordsSnoc(init, row);
      TripStep(init, row, removedRoutes);
      SelectSnoc(init, row, (t: Trip) => t.routeId in removedRoutes);
      var dropped := DroppedTrips(init, removedRoutes);
      if row.Parsed? && row.record.routeId in removedRoutes {
        UniqueTripIdsSnoc(dropped, row.record);
        RemovedTripIdsIff(init, removedRoutes, row.record.tripId);
        forall u | Parsed(u) in init && u.routeId in removedRoutes
          ensures u.tripId != row.record.tripId
        {
          RecordsMembership(init, u);
          FilterMembership(Records(init), (t: Trip) => t.routeId in removedRoutes, u);
        }
      } else {
        assert DroppedTrips(rows, removedRoutes) == dropped;
      }
      TripCountLaw(init, removedRoutes);
    }
  }

  /**
   * Why the id count law asks what it asks: a trip id repeated among the kept
   * trips does no harm, but one repeated among the dropped trips is removed
   * once and so the ids fall one short of the rows.
   */
  lemma ScenarioRepeatedTripIds(rows: seq<Row<Trip>>)
    requires rows == [Parsed(Trip("T1", "R1", [])), Parsed(Trip("T1", "R1", [])),
                      Parsed(Trip("T2", "R2", [])), Parsed(Trip("T2", "R2", []))]
    ensures KeptTrips(rows, {"R1"}) == [Trip("T2", "R2", []), Trip("T2", "R2", [])]
    ensures RemovedTripIds(rows, {"R1"}) == {"T1"}
    ensures |KeptTrips(rows, {"R1"})| + |RemovedTripIds(rows, {"R1"})| == |Records(rows)| - 1
  {
    var t1, t2 := Trip("T1", "R1", []), Trip("T2", "R2", []);
    var removed := {"R1"};
    assert t1.routeId in removed && t2.routeId !in removed;
    var p0: seq<Row<Trip>> := [];
    var p1 := p0 + [Parsed(t1)];
    var p2 := p1 + [Parsed(t1)];
    var p3 := p2 + [Parsed(t2)];
    assert rows == p3 + [Parsed(t2)];
    TripStep(p0, Parsed(t1), removed);
    TripStep(p1, Parsed(t1), removed);
    TripStep(p2, Parsed(t2), removed);
    TripStep(p3, Parsed(t2), removed);
    RecordsCount(rows);
    assert MalformedCount(p1) == 0 && MalformedCount(p2) == 0 && MalformedCount(p3) == 0;
  }

  /** Unique trip ids in the whole table give unique ids among the dropped trips. */
  lemma UniqueTripIdsDropped(rows: seq<Row<Trip>>, removedRoutes: set<string>)
    requires UniqueTripIds(Records(rows))
    ensures UniqueTripIds(DroppedTrips(rows, removedRoutes))
  {
    UniqueTripIdsFilter(Records(rows), (t: Trip) => t.routeId in removedRoutes);
  }

  /** Selecting some trips keeps their ids unique. */
  lemma {:induction false} UniqueTripIdsFilter(trips: seq<Trip>, keep: Trip -> bool)
    requires UniqueTripIds(trips)
    ensures UniqueTripIds(Filter(trips, keep))
  {
    if trips != [] {
      var init, last := trips[..|trips| - 1], trips[|trips| - 1];
      assert trips == init + [last];
      UniqueTripIdsSnoc(init, last);
      UniqueTripIdsFilter(init, keep);
      if keep(last) {
        var f := Filter(init, keep);
        forall u | u in f
          ensures u.tripId != last.tripId
        {
          FilterMembership(init, keep, u);
        }
        UniqueTripIdsAppend(f, last);
      }
    }
  }

  /** A trip whose id is new to a table of unique ids can be appended to it. */
  lemma UniqueTripIdsAppend(before: seq<Trip>, t: Trip)
    requires UniqueTripIds(before)
    requires forall u :: u in before ==> u.tripId != t.tripId
    ensures UniqueTripIds(before + [t])
  {
  }

  /** In a table with unique trip ids, the last trip's id is new to the rows before it. */
  lemma UniqueTripIdsSnoc(before: seq<Trip>, t: Trip)
    requires UniqueTripIds(before + [t])
    ensures UniqueTripIds(before)
    ensures forall u :: u in before ==> u.tripId != t.tripId
  {
    var all := before + [t];
    forall i, j | 0 <= i < j < |before|
      ensures before[i].tripId != before[j].tripId
    {
      assert all[i] == before[i] && all[j] == before[j];
    }
    forall u | u in before
      ensures u.tripId != t.tripId
    {
      var k :| 0 <= k < |before| && before[k] == u;
      assert all[k] == u && all[|before|] == t;
    }
  }

  /** Filtering the kept trips again with the same removed-route set changes nothing. */
  lemma KeptTripsIdempotent(rows: seq<Row<Trip>>, removedRoutes: set<string>)
    ensures KeptTrips(AsRows(KeptTrips(rows, removedRoutes)), removedRoutes)
            == KeptTrips(rows, removedRoutes)
    ensures RemovedTripIds(AsRows(KeptTrips(rows, removedRoutes)), removedRoutes) == {}
  {
    var kept := KeptTrips(rows, removedRoutes);
    FilterIdempotent(Records(rows), (t: Trip) => t.routeId !in removedRoutes);
    forall t | t in kept
      ensures t.routeId !in removedRoutes
    {
      KeptTripsIff(rows, removedRoutes, t);
    }
  }
}
