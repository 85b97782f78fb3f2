/**
 * The GTFS records the cleaner reads, cut down to the fields its decisions
 * look at. The other fields that each record shape declares (names, colours,
 * times, codes) are kept as an opaque list of values. Columns a record shape
 * does not declare are not part of the record at all.
 */
module Feed {

  datatype Option<T> = None | Some(value: T)

  /** A row of routes.txt: `route_id`, the optional `agency_id`, and the other declared fields. */
  datatype Route = Route(routeId: string, agencyId: Option<string>, others: seq<string>)

  /** A row of trips.txt: `trip_id`, `route_id`, and the other declared fields. */
  datatype Trip = Trip(tripId: string, routeId: string, others: seq<string>)

  /** A row of stop_times.txt: `trip_id` and the other declared fields. */
  datatype StopTime = StopTime(tripId: string, others: seq<string>)

  /**
   * The exclusion list compiled into the program. The entries read like
   * agency names, yet they are compared with each route's `agency_id`.
   */
  const BannedAgencies: seq<string> := [
    "SNCF",
    "SNCB",
    "FlixBus-de",
    "FlixTrain-de",
    "SBB",
    "U-Bahn München",
    "Österreichische Bundesbahnen"
  ]
}
