/**
 * The first stage: read the route table and set aside every route whose
 * agency key is on the exclusion list, remembering its `route_id`.
 */
module RouteReducer {
  import opened Tables
  import opened Feed

  /** The string a route is matched on: its `agency_id`, or "" when the column is empty. */
  function AgencyKey(r: Route): string
  {
    match r.agencyId
    case Some(id) => id
    case None => ""
  }

  /** Exact string equality with some entry of the list: no trimming, no case folding. */
  predicate IsBanned(r: Route, banned: seq<string>)
  {
    AgencyKey(r) in banned
  }

  /** The routes that stay, in table order. */
  function KeptRoutes(rows: seq<Row<Route>>, banned: seq<string>): seq<Route>
  {
    Filter(Records(rows), (r: Route) => !IsBanned(r, banned))
  }

  /** The routes that go, in table order (the program keeps only their ids). */
  function BannedRoutes(rows: seq<Row<Route>>, banned: seq<string>): seq<Route>
  {
    Filter(Records(rows), (r: Route) => IsBanned(r, banned))
  }

  /** The ids of the routes that go. */
  function RemovedRouteIds(rows: seq<Row<Route>>, banned: seq<string>): set<string>
  {
    set r | r in Records(rows) && IsBanned(r, banned) :: r.routeId
  }

  /** What one more row of the route table adds to each bucket. */
  lemma RouteStep(rows: seq<Row<Route>>, row: Row<Route>, banned: seq<string>)
    ensures KeptRoutes(rows + [row], banned) ==
            KeptRoutes(rows, banned) + (if row.Parsed? && !IsBanned(row.record, banned) then [row.record] else [])
    ensures RemovedRouteIds(rows + [row], banned) ==
            RemovedRouteIds(rows, banned) + (if row.Parsed? && IsBanned(row.record, banned) then {row.record.routeId} else {})
  {
    SelectSnoc(rows, row, (r: Route) => !IsBanned(r, banned));
    RecordsSnoc(rows, row);
  }

  /**
   * The route loop: each parsed route either has its id inserted into the
   * removal set or is pushed onto the kept list; a row that does not parse is
   * passed over without a word.
   */
  method ReduceRoutes(rows: seq<Row<Route>>, banned: seq<string>)
    returns (kept: seq<Route>, removed: set<string>)
    ensures kept == KeptRoutes(rows, banned)
    ensures removed == RemovedRouteIds(rows, banned)
  {
    kept, removed := [], {};
    for i := 0 to |rows|
      invariant kept == KeptRoutes(rows[..i], banned)
      invariant removed == RemovedRouteIds(rows[..i], banned)
    {
      RouteStep(rows[..i], rows[i], banned);
      assert rows[..i + 1] == rows[..i] + [rows[i]];
      match rows[i]
      case Parsed(route) =>
        if AgencyKey(route) in banned {
          removed := removed + {route.routeId};
        } else {
          kept := kept + [route];
        }
      case Malformed =>
    }
    assert rows[..|rows|] == rows;
  }

  /**
   * A route id is removed exactly when some row parses to a route with that id
   * whose agency key equals an entry of the list.
   */
  lemma RemovedRouteIdsIff(rows: seq<Row<Route>>, banned: seq<string>, id: string)
    ensures id in RemovedRouteIds(rows, banned) <==>
            exists r :: Parsed(r) in rows && r.routeId == id && AgencyKey(r) in banned
  {
    forall r: Route {
      RecordsMembership(rows, r);
    }
  }

  /** A route stays exactly when some row parses to it and its agency key is not on the list. */
  lemma KeptRoutesIff(rows: seq<Row<Route>>, banned: seq<string>, r: Route)
    ensures r in KeptRoutes(rows, banned) <==> Parsed(r) in rows && AgencyKey(r) !in banned
  {
    RecordsMembership(rows, r);
    FilterMembership(Records(rows), (r: Route) => !IsBanned(r, banned), r);
  }

  /**
   * Every parsed route lands in exactly one bucket, kept or removed, malformed
   * rows land in neither, and the removal set holds exactly the ids of the
   * removed routes.
   */
  lemma RoutePartition(rows: seq<Row<Route>>, banned: seq<string>)
    ensures |KeptRoutes(rows, banned)| + |BannedRoutes(rows, banned)| + MalformedCount(rows) == |rows|
    ensures forall r :: r in KeptRoutes(rows, banned) || r in BannedRoutes(rows, banned) ==> Parsed(r) in rows
    ensures forall r :: Parsed(r) in rows ==> (r in KeptRoutes(rows, banned) <==> r !in BannedRoutes(rows, banned))
    ensures RemovedRouteIds(rows, banned) == set r | r in BannedRoutes(rows, banned) :: r.routeId
  {
    FilterSplit(Records(rows), (r: Route) => !IsBanned(r, banned), (r: Route) => IsBanned(r, banned));
    RecordsCount(rows);
    forall r | r in KeptRoutes(rows, banned) || r in BannedRoutes(rows, banned) || Parsed(r) in rows
      ensures r in KeptRoutes(rows, banned) || r in BannedRoutes(rows, banned) ==> Parsed(r) in rows
      ensures Parsed(r) in rows ==> (r in KeptRoutes(rows, banned) <==> r !in BannedRoutes(rows, banned))
    {
      RecordsMembership(rows, r);
      FilterMembership(Records(rows), (r: Route) => !IsBanned(r, banned), r);
      FilterMembership(Records(rows), (r: Route) => IsBanned(r, banned), r);
    }
    RemovedRouteIdsOfBanned(rows, banned);
  }

  lemma RemovedRouteIdsOfBanned(rows: seq<Row<Route>>, banned: seq<string>)
    ensures RemovedRouteIds(rows, banned) == set r | r in BannedRoutes(rows, banned) :: r.routeId
  {
    forall r | r in BannedRoutes(rows, banned) || r in Records(rows)
      ensures r in BannedRoutes(rows, banned) <==> r in Records(rows) && IsBanned(r, banned)
    {
      FilterMembership(Records(rows), (r: Route) => IsBanned(r, banned), r);
    }
  }

  /**
   * A route table none of whose rows parses removes nothing and keeps
   * nothing: the stages after it then see an empty removal set.
   */
  lemma {:induction false} AllMalformedRoutesRemoveNothing(rows: seq<Row<Route>>, banned: seq<string>)
    requires forall row :: row in rows ==> row == Malformed
    ensures KeptRoutes(rows, banned) == []
    ensures RemovedRouteIds(rows, banned) == {}
  {
    if rows != [] {
      var init, last := rows[..|rows| - 1], rows[|rows| - 1];
      assert rows == init + [last];
      assert last in rows;
      forall row | row in init
        ensures row in rows
      {
      }
      AllMalformedRoutesRemoveNothing(init, banned);
      RouteStep(init, last, banned);
    }
  }

  /**
   * An absent `agency_id` is looked up as "": such a route is removed exactly
   * when the list itself holds the empty string, and a present but empty
   * `agency_id` is treated the same way.
   */
  lemma AbsentAgencyMatchesEmptyEntry(r: Route, banned: seq<string>)
    requires r.agencyId == None || r.agencyId == Some("")
    ensures IsBanned(r, banned) <==> "" in banned
  {
  }

  /**
   * With the compiled-in list, a route without `agency_id` is always kept,
   * and its id is removed only if another route with the same id is banned.
   */
  lemma AbsentAgencyKeptWithBuiltInList(rows: seq<Row<Route>>, r: Route)
    requires Parsed(r) in rows && r.agencyId == None
    ensures r in KeptRoutes(rows, BannedAgencies)
    ensures r.routeId in RemovedRouteIds(rows, BannedAgencies) ==>
            exists b :: Parsed(b) in rows && b.routeId == r.routeId && b.agencyId != None
  {
    assert "" !in BannedAgencies;
    KeptRoutesIff(rows, BannedAgencies, r);
    RemovedRouteIdsIff(rows, BannedAgencies, r.routeId);
  }
}
