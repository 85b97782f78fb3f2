# GTFS agency remover, modelled in Dafny

The program cleans a directory of GTFS tables. It removes everything that
belongs to a fixed list of excluded agencies, and the removal cascades
through three tables:

1. **Routes.** A route is removed when its `agency_id` is on the list. An
   absent `agency_id` is looked up as `""`. The ids of removed routes are
   collected in a set.
2. **Trips.** A trip is removed when its `route_id` is in that set. The ids of
   removed trips are collected in a second set, and the kept trips are
   written back as the new trip table.
3. **Stop times.** The table is streamed row by row. A row is skipped when its
   `trip_id` is in the second set, and written through otherwise.

Rows that do not parse are skipped. In the route and trip tables this happens
without a word; in the stop-time table each one prints one diagnostic.

Files, one module each:

- `Tables.dfy`: the shared parts. A row is `Parsed(record)` or `Malformed`.
  `Records` gives the parsed records of a table and `MalformedCount` counts
  the bad rows. `Filter` keeps the elements that satisfy a predicate, in
  order. `TableWriter` is the destination of a cleaned table: the sequence of
  records serialised so far.
- `Feed.dfy`: the records, cut down to the fields the program decides on.
  The other fields that each record shape declares are an opaque `others`
  list. The file also holds the compiled-in exclusion list.
- `RouteReducer.dfy`, `TripReducer.dfy`, `StopTimeReducer.dfy`: one module per
  stage. Each stage's loop is a method proved against specification functions
  (`KeptRoutes`/`RemovedRouteIds`, `KeptTrips`/`RemovedTripIds`,
  `KeptStopTimes`). Those functions are defined as `Filter` over the parsed
  records or as set comprehensions. Lemmas state the "iff", partition, count
  and idempotence properties about them.
- `Pipeline.dfy`: the whole run (`CleanFeed`), the cascade stated end to end,
  idempotence of a second run, and two worked scenarios.

The exclusion list is a parameter of the route stage and of `CleanFeed`; the
later stages take the sets of removed ids instead. `Feed.BannedAgencies` holds
the program's own list, and the lemmas about that list use it.

Behaviour of the program that the model keeps as it is:

- Routes are matched on their own `agency_id`. The program never joins a
  route to the agency table, so the listed entries, which read like agency
  names, are compared with agency ids. A route R1 with `agency_id` "X" stays,
  whatever agency "X" is called (`Pipeline.ScenarioAgencyNameNotConsulted`).
  R1 is removed only when its `agency_id` literally equals a listed entry
  (`Pipeline.ScenarioListedAgencyId`).
- An absent `agency_id` is looked up as `""`. Such a route is removed exactly
  when `""` is on the list (`RouteReducer.AbsentAgencyMatchesEmptyEntry`).
  The compiled-in list has no `""`, so with that list such a route is always
  kept (`RouteReducer.AbsentAgencyKeptWithBuiltInList`).
- The removed trips are remembered by id only. "Kept trips plus removed ids
  equals parsed trips" therefore holds when no two dropped trips share a
  `trip_id` (`TripReducer.TripCountLaw`); unique trip ids, which GTFS
  requires but the program does not check, are enough
  (`TripReducer.UniqueTripIdsDropped`). Repeated ids among kept trips do no
  harm, repeated ids among dropped trips make the ids fall short
  (`TripReducer.ScenarioRepeatedTripIds`). Counted by rows, kept plus dropped
  plus malformed equals rows read with no such condition
  (`TripReducer.TripPartition`).
- A route table none of whose rows parses removes no route id, so the trip
  and stop-time stages run with an empty removal set
  (`RouteReducer.AllMalformedRoutesRemoveNothing`).

## Model

| member | source | states |
|---|---|---|
| `RouteReducer.ReduceRoutes` | src/main.rs:101-129 | The route loop returns the kept routes (parsed rows whose agency key is not listed, in order) and the set of ids of parsed routes whose agency key is listed |
| `RouteReducer.RouteStep` | src/main.rs:112-128 | One more row adds its route to the kept list, or its id to the removal set, or, when malformed, nothing |
| `RouteReducer.RemovedRouteIdsIff` | src/main.rs:117-124 | An id is in the removal set iff some row parses to a route with that id whose `agency_id`, or `""` when absent, exactly equals a listed entry |
| `RouteReducer.KeptRoutesIff` | src/main.rs:117-127 | A route is kept iff some row parses to it and its agency key is not listed |
| `RouteReducer.RoutePartition` | src/main.rs:112-128 | kept + removed + malformed = rows read; each parsed route is in exactly one of the kept and removed buckets, and only parsed routes are in either; the removal set is exactly the ids of the removed bucket |
| `RouteReducer.AbsentAgencyMatchesEmptyEntry` | src/main.rs:117-122 | A route with absent (or empty) `agency_id` is banned iff `""` is on the list |
| `RouteReducer.AllMalformedRoutesRemoveNothing` | src/main.rs:112-128 | When no row of the route table parses, no route is kept and the removal set is empty |
| `RouteReducer.AbsentAgencyKeptWithBuiltInList` | src/main.rs:89-122 | With the compiled-in list a route with no `agency_id` is kept, and its id is removed only when another, agency-bearing route shares it |
| `TripReducer.ReduceTrips` | src/main.rs:133-157 | The trip loop returns the kept trips (parsed rows whose `route_id` is not in the removed-route set, in order) and the set of ids of the other parsed trips |
| `TripReducer.TripStep` | src/main.rs:146-156 | One more row adds its trip to the kept list, or its id to the removal set, or, when malformed, nothing |
| `TripReducer.WriteTrips` | src/main.rs:166-168 | The write-back loop appends exactly the kept trips, in order, to the new trip table |
| `TripReducer.RemovedTripIdsIff` | src/main.rs:151-152 | A trip id is removed iff some row parses to a trip with that id whose `route_id` is a member of the removed-route set |
| `TripReducer.KeptTripsIff` | src/main.rs:146-157 | A trip is kept iff some row parses to it and its `route_id` is not in the removed-route set |
| `TripReducer.TripPartition` | src/main.rs:146-157 | kept + dropped + malformed = rows read; each parsed trip is in exactly one of kept and dropped, and only parsed trips are in either |
| `TripReducer.TripCountLaw` | src/main.rs:146-157 | When no two dropped trips share a `trip_id`, kept trips plus removed ids equals the number of parsed trips |
| `TripReducer.UniqueTripIdsDropped` | src/main.rs:146-157 | Unique trip ids across the table meet that condition |
| `TripReducer.ScenarioRepeatedTripIds` | src/main.rs:146-157 | Two copies each of a trip on a removed route and of a kept trip: both kept copies are written, the removed id is counted once, and the ids fall one short of the rows |
| `TripReducer.KeptTripsIdempotent` | src/main.rs:151-155 | Filtering the kept trips again with the same set returns them unchanged and removes no id |
| `StopTimeReducer.FilterStopTimes` | src/main.rs:188-201 | The streaming loop writes exactly the parsed rows whose `trip_id` is not removed, in order, and emits one diagnostic per malformed row |
| `StopTimeReducer.StopTimeStep` | src/main.rs:188-200 | One more row is written, skipped, or reported, as its parse result and trip decide |
| `StopTimeReducer.KeptStopTimesIff` | src/main.rs:188-197 | A stop time is written iff some row parses to it and its `trip_id` is not removed |
| `StopTimeReducer.StopTimeCountLaw` | src/main.rs:188-201 | written + skipped + reported = rows read; each parsed row is either written or skipped, not both, and nothing else is written or skipped |
| `StopTimeReducer.MalformedRowOnlyReported` | src/main.rs:198-200 | A malformed row anywhere adds one diagnostic and leaves the output of the rows before and after it unchanged |
| `StopTimeReducer.KeptStopTimesIdempotent` | src/main.rs:193-197 | Filtering the written stop times again with the same set returns them unchanged |
| `StopTimeReducer.NoneRemovedKeepsAll` | src/main.rs:193-197 | When no parsed row belongs to a removed trip, every parsed row is written, in order |
| `StopTimeReducer.ScenarioMalformedStopTime` | src/main.rs:188-200 | Rows of T1, a bad row, a row of T2 and a row of T1, with T1 removed: only the T2 row is written and one diagnostic is emitted |
| `Tables.RecordsCount` | src/main.rs:112-113 | Every row read either parses or is counted malformed |
| `Tables.TableWriter.constructor` | src/main.rs:163-164 | A writer on a newly created file holds no record |
| `Tables.TableWriter.Serialize` | src/main.rs:196 | Serialising a record appends it to the table being written |
| `Pipeline.CleanFeed` | src/main.rs:99-206 | One run yields, as the new trip and stop-time tables, exactly the cascade's kept trips and kept stop times, plus one diagnostic per malformed stop-time row; the kept routes are not returned |
| `Pipeline.CleanedTripsIff` | src/main.rs:112-157 | A trip survives iff it parses and no parsed route with its `route_id` has a listed agency key |
| `Pipeline.DanglingTripKept` | src/main.rs:151-152 | A parsed trip whose `route_id` names no parsed route is kept |
| `Pipeline.CleanedStopTimesIff` | src/main.rs:101-197 | A stop time survives iff it parses and no parsed trip with its `trip_id` runs on a parsed route with a listed agency key |
| `Pipeline.CleanFeedIdempotent` | src/main.rs:110-197 | A second run on the unchanged route table and the new trip and stop-time tables returns those tables unchanged and reports nothing |
| `Pipeline.ScenarioListedAgencyId` | src/main.rs:89-197 | Route R1 with `agency_id` "SBB" is removed, then its trip T1, then T1's stop times; T2 and its stop time survive |
| `Pipeline.ScenarioAgencyNameNotConsulted` | src/main.rs:73-124 | A route whose `agency_id` is "X" stays with the compiled-in list: agency names are never consulted, and so both trips survive |

## Left out

- Command-line handling and the usage message (src/main.rs:64-71) are left out, because they are I/O.
- Building file paths, opening files and the `expect`/`unwrap` panics on file errors are left out. They are file-level plumbing, and the model starts from already-read tables.
- CSV deserialisation and serialisation are not modelled. A row's parse is the abstract outcome `Parsed(record)` or `Malformed`. This covers wrong column counts, missing required fields and out-of-range `u8`/`u32` values alike. Header rows and the text form of written records are not modelled.
- The route record shape names its required `u8` field `route_route_type` (src/main.rs:23), not GTFS's `route_type`. A routes.txt with the standard header has no such column, so every one of its rows would deserialise as `Malformed`, and then nothing is removed. The model sees this only as a table of `Malformed` rows; `RouteReducer.AllMalformedRoutesRemoveNothing` states the consequence.
- Reading the agency table (src/main.rs:73-87) is left out. Nothing later uses what it reads.
- `writer.flush` and the `fs::rename` replacement of the original files are left out. A new table is modelled as the sequence of records written to it, so atomicity and crashes between stages are not covered.
- The text of `println!`/`eprintln!` is left out. The diagnostic for a bad stop-time row is modelled as a count.
- The declared fields other than the ids and `agency_id` play no part in any decision. They are carried as an opaque `others` list.
- The rewritten trip and stop-time tables keep only the columns their record shapes declare (src/main.rs:33-57), in declaration order. Undeclared columns, such as `shape_dist_traveled` and `timepoint` in stop_times.txt, are dropped, and numeric values are written back in canonical form. Column layout is part of the CSV layer and is not modelled.
- `BTreeSet` ordering is left out. Only membership is ever used, so the sets are Dafny `set<string>`.
- `Pipeline.CleanFeedIdempotent` assumes that reading back a written table yields the written records (`AsRows`). That holds because the CSV round trip is faithful, and the CSV layer is not modelled.
