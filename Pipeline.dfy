/**
 * The whole run: routes, then trips, then stop times, each stage using the
 * set of ids the stage before it removed. The agency table is not read here:
 * the program reads it but never uses what it read.
 */
module Pipeline {
  import opened Tables
  import opened Feed
  import opened RouteReducer
  import opened TripReducer
  import opened StopTimeReducer

  /** The trip ids the cascade removes. */
  function RemovedTripKeys(banned: seq<string>, routeRows: seq<Row<Route>>, tripRows: seq<Row<Trip>>): set<string>
  {
    RemovedTripIds(tripRows, RemovedRouteIds(routeRows, banned))
  }

  /** The new trip table. */
  function CleanedTrips(banned: seq<string>, routeRows: seq<Row<Route>>, tripRows: seq<Row<Trip>>): seq<Trip>
  {
    KeptTrips(tripRows, RemovedRouteIds(routeRows, banned))
  }

  /** The new stop-time table. */
  function CleanedStopTimes(
    banned: seq<string>, routeRows: seq<Row<Route>>, tripRows: seq<Row<Trip>>, stopTimeRows: seq<Row<StopTime>>
  ): seq<StopTime>
  {
    KeptStopTimes(stopTimeRows, RemovedTripKeys(banned, routeRows, tripRows))
  }

  /**
   * One run over a feed directory. The kept routes are computed and then
   * dropped: the route table is never rewritten. The trip table is rewritten
   * with the kept trips, then the stop-time table is streamed into its new
   * version; the results are the contents of the two new tables and the number
   * of diagnostics printed.
   */
  method CleanFeed(
    banned: seq<string>, routeRows: seq<Row<Route>>, tripRows: seq<Row<Trip>>, stopTimeRows: seq<Row<StopTime>>
  ) returns (trips: seq<Trip>, stopTimes: seq<StopTime>, diagnostics: nat)
    ensures trips == CleanedTrips(banned, routeRows, tripRows)
    ensures stopTimes == CleanedStopTimes(banned, routeRows, tripRows, stopTimeRows)
    ensures diagnostics == MalformedCount(stopTimeRows)
  {
    var routes, removedRoutes := ReduceRoutes(routeRows, banned);
    var keptTrips, removedTrips := ReduceTrips(tripRows, removedRoutes);

    var tripWriter := new TableWriter<Trip>();
    WriteTrips(keptTrips, tripWriter);
    trips := tripWriter.written;

    var stopTimeWriter := new TableWriter<StopTime>();
    diagnostics := FilterStopTimes(stopTimeRows, removedTrips, stopTimeWriter);
    stopTimes := stopTimeWriter.written;
  }

  /**
   * A parsed trip survives exactly when no parsed route with its `route_id`
   * has an agency key on the list. A trip whose route is absent from the route
   * table survives.
   */
  lemma CleanedTripsIff(banned: seq<string>, routeRows: seq<Row<Route>>, tripRows: seq<Row<Trip>>, t: Trip)
    ensures t in CleanedTrips(banned, routeRows, tripRows) <==>
            Parsed(t) in tripRows &&
            !exists r :: Parsed(r) in routeRows && r.routeId == t.routeId && AgencyKey(r) in banned
  {
    KeptTripsIff(tripRows, RemovedRouteIds(routeRows, banned), t);
    RemovedRouteIdsIff(routeRows, banned, t.routeId);
  }

  /**
   * Only the set of removed route ids is consulted: a trip whose `route_id`
   * names no parsed route is kept.
   */
  lemma DanglingTripKept(banned: seq<string>, routeRows: seq<Row<Route>>, tripRows: seq<Row<Trip>>, t: Trip)
    requires Parsed(t) in tripRows
    requires forall r :: Parsed(r) in routeRows ==> r.routeId != t.routeId
    ensures t in CleanedTrips(banned, routeRows, tripRows)
  {
    CleanedTripsIff(banned, routeRows, tripRows, t);
  }

  /**
   * The cascade in one statement: a parsed stop time survives exactly when no
   * parsed trip with its `trip_id` runs on a parsed route whose agency key is
   * on the list.
   */
  lemma CleanedStopTimesIff(
    banned: seq<string>, routeRows: seq<Row<Route>>, tripRows: seq<Row<Trip>>, stopTimeRows: seq<Row<StopTime>>,
    s: StopTime
  )
    ensures s in CleanedStopTimes(banned, routeRows, tripRows, stopTimeRows) <==>
            Parsed(s) in stopTimeRows &&
            !exists t, r :: Parsed(t) in tripRows && t.tripId == s.tripId &&
                            Parsed(r) in routeRows && r.routeId == t.routeId && AgencyKey(r) in banned
  {
    var removedRoutes := RemovedRouteIds(routeRows, banned);
    KeptStopTimesIff(stopTimeRows, RemovedTripKeys(banned, routeRows, tripRows), s);
    RemovedTripIdsIff(tripRows, removedRoutes, s.tripId);
    forall t: Trip {
      RemovedRouteIdsIff(routeRows, banned, t.routeId);
    }
  }

  /**
   * Running the cleaner a second time on its own output (the route table is
   * unchanged, the trip and stop-time tables are the new ones) removes
   * nothing more and reports nothing.
   */
  lemma CleanFeedIdempotent(
    banned: seq<string>, routeRows: seq<Row<Route>>, tripRows: seq<Row<Trip>>, stopTimeRows: seq<Row<StopTime>>
  )
    ensures var trips := CleanedTrips(banned, routeRows, tripRows);
            var stopTimes := CleanedStopTimes(banned, routeRows, tripRows, stopTimeRows);
            && CleanedTrips(banned, routeRows, AsRows(trips)) == trips
            && CleanedStopTimes(banned, routeRows, AsRows(trips), AsRows(stopTimes)) == stopTimes
            && MalformedCount(AsRows(stopTimes)) == 0
  {
    var removedRoutes := RemovedRouteIds(routeRows, banned);
    var trips := CleanedTrips(banned, routeRows, tripRows);
    var stopTimes := CleanedStopTimes(banned, routeRows, tripRows, stopTimeRows);
    KeptTripsIdempotent(tripRows, removedRoutes);
    assert RemovedTripKeys(banned, routeRows, AsRows(trips)) == {};
    forall s | Parsed(s) in AsRows(stopTimes)
      ensures s.tripId !in RemovedTripKeys(banned, routeRows, AsRows(trips))
    {
    }
    NoneRemovedKeepsAll(AsRows(stopTimes), RemovedTripKeys(banned, routeRows, AsRows(trips)));
  }

  /**
   * A feed whose agency ids equal the listed names: route R1 of agency "SBB"
   * goes, so does its trip T1 and, with it, every stop time of T1.
   */
  lemma ScenarioListedAgencyId(routeRows: seq<Row<Route>>, tripRows: seq<Row<Trip>>, stopTimeRows: seq<Row<StopTime>>)
    requires routeRows == [Parsed(Route("R1", Some("SBB"), [])), Parsed(Route("R2", Some("Y"), []))]
    requires tripRows == [Parsed(Trip("T1", "R1", [])), Parsed(Trip("T2", "R2", []))]
    requires stopTimeRows == [Parsed(StopTime("T1", [])), Malformed, Parsed(StopTime("T2", [])), Parsed(StopTime("T1", []))]
    ensures RemovedRouteIds(routeRows, BannedAgencies) == {"R1"}
    ensures RemovedTripKeys(BannedAgencies, routeRows, tripRows) == {"T1"}
    ensures CleanedTrips(BannedAgencies, routeRows, tripRows) == [Trip("T2", "R2", [])]
    ensures CleanedStopTimes(BannedAgencies, routeRows, tripRows, stopTimeRows) == [StopTime("T2", [])]
  {
    var r1, r2 := Route("R1", Some("SBB"), []), Route("R2", Some("Y"), []);
    var t1, t2 := Trip("T1", "R1", []), Trip("T2", "R2", []);
    assert "SBB" in BannedAgencies && "Y" !in BannedAgencies;
    assert routeRows == [] + [Parsed(r1)] + [Parsed(r2)];
    RouteStep([], Parsed(r1), BannedAgencies);
    RouteStep([Parsed(r1)], Parsed(r2), BannedAgencies);
    assert RemovedRouteIds(routeRows, BannedAgencies) == {"R1"};
    assert tripRows == [] + [Parsed(t1)] + [Parsed(t2)];
    TripStep([], Parsed(t1), {"R1"});
    TripStep([Parsed(t1)], Parsed(t2), {"R1"});
    assert RemovedTripKeys(BannedAgencies, routeRows, tripRows) == {"T1"};
    ScenarioMalformedStopTime(stopTimeRows);
  }

  /**
   * A route whose `agency_id` is "X" stays, and both trips with it, because
   * "X" is not an entry of the compiled-in list. What agency "X" is called
   * cannot change that: `CleanFeed` takes no agency table at all, so the
   * route's own `agency_id` is the only thing compared with the list.
   */
  lemma ScenarioAgencyNameNotConsulted(routeRows: seq<Row<Route>>, tripRows: seq<Row<Trip>>)
    requires routeRows == [Parsed(Route("R1", Some("X"), [])), Parsed(Route("R2", Some("Y"), []))]
    requires tripRows == [Parsed(Trip("T1", "R1", [])), Parsed(Trip("T2", "R2", []))]
    ensures RemovedRouteIds(routeRows, BannedAgencies) == {}
    ensures CleanedTrips(BannedAgencies, routeRows, tripRows) == [Trip("T1", "R1", []), Trip("T2", "R2", [])]
  {
    var r1, r2 := Route("R1", Some("X"), []), Route("R2", Some("Y"), []);
    var t1, t2 := Trip("T1", "R1", []), Trip("T2", "R2", []);
    assert "X" !in BannedAgencies && "Y" !in BannedAgencies;
    assert routeRows == [] + [Parsed(r1)] + [Parsed(r2)];
    RouteStep([], Parsed(r1), BannedAgencies);
    RouteStep([Parsed(r1)], Parsed(r2), BannedAgencies);
    assert tripRows == [] + [Parsed(t1)] + [Parsed(t2)];
    TripStep([], Parsed(t1), {});
    TripStep([Parsed(t1)], Parsed(t2), {});
  }
}
