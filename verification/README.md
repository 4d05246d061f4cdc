# Fleet tracking, modelled and proved in Dafny

A model of the fleet-tracking backend: GPS fixes arrive over MQTT and are stored as history plus one
current row per vehicle; admins keep routes, vehicles and users in a one-to-one assignment; drivers
read their own vehicle; a simulator walks buses along their routes and publishes fixes. The project
verifies with `dafny verify dfyconfig.toml`. Nothing here executes the original program.

| file | what it holds |
|---|---|
| `Schema.dfy` | rows, tables, the `Session` class whose tables the services update, constraints, the one-to-one relation, the current-location index |
| `FixedPoint.dfy` | Python `round` and NUMERIC rounding |
| `Topic.dfy`, `TopicLaws.dfy` | topic splitting, Python `int`, decimal printing, MQTT filter matching; exactly which texts and topics are read |
| `Ingestion.dfy` | payload contract, the handler in two phases (reads, commit), the index laws, delivery order |
| `FleetAdmin.dfy`, `AdminLaws.dfy`, `AdminContract.dfy` | the admin calls as methods and as one specification; what they keep, why their guards are exact; what each call does and answers |
| `Seeding.dfy`, `SeedLaws.dfy` | the seed script and what it does to a database in use |
| `Tracking.dfy` | status, history, the `/me` answers, paging through one database |
| `Paging.dfy` | paging through a history that grows meanwhile |
| `System.dfy` | runs: one subscriber transaction interleaved with admin calls, wipes and seedings |
| `DeliveryOrder.dfy` | the order of one vehicle's messages in such runs |
| `Provenance.dfy` | where stored points come from in such runs |
| `Walk.dfy`, `WalkRun.dfy` | the bus walker and whole runs of it |
| `Simulator.dfy` | assignments, ticks, publications, and the way from a publication to the driver's view |

Conventions. Instants are integers (UTC microseconds). NUMERIC(9,6) and NUMERIC(6,2) columns are held as
whole millionths and hundredths. Walking distances are real numbers, and the distance function between two
waypoints is a parameter that is only assumed non-negative. The ingestion handler is split where its
transaction is open: `ReadPhase` sees the vehicle and the current row, `CommitPhase` writes against whatever
the database has become, with foreign keys, primary keys and the row count of the update checked there.
There is one subscriber and it handles one message at a time. The index law rests on that:
`Ingestion.TwoWritersLoseUpdate` breaks it with two open transactions, and `Ingestion.StaleCommitExactly`
says exactly when a commit on an outdated read breaks it. Each admin call is one atomic step, so exclusivity
is a statement about serial runs. Id sequences never go back, so an id is never issued twice, not even after
a wipe.

Findings. Seeding a database in use can give one route to two users, because the inserts check nothing
(`SeedLaws.SeedCanShareRoute`); `SeedLaws.SeedOneToOneExactly` says exactly when it does not. A topic prefix
with a slash makes the subscriber refuse every message of its own simulator (`Topic.TopicRoundTrip`). On
equal timestamps the order of delivery decides the current row (`Ingestion.OrderCanMatter` by example,
`Ingestion.OrderFreeExactly` exactly). A fix of a vehicle deactivated between the handler's read and its
commit is still stored (`System.StoredThoughDeactivated`). A client that goes on paging by offset after a
page of fewer than `limit` points can skip what is stored in between (`Paging.ShortPageSkips`);
`Paging.PagingExactly` says exactly when its pages repeat and skip nothing. The design document promises
history newest first with a default limit of 200; the code serves it oldest first with a default of 500, and
the model follows the code.

## Model

| member | source | states |
|---|---|---|
| Walk.BusWalker.constructor | simulator/walk.py:36-42 | the loop builds the table of path lengths: zero, then each entry the one before plus the segment's length, never decreasing |
| Walk.BusWalker.Create | simulator/walk.py:36-38 | a walker exists exactly for two or more waypoints |
| Walk.BusWalker.Advance | simulator/walk.py:48-57 | the new distance and direction are those of one clamped, bouncing tick |
| Walk.StepIsSpeedTimesTime | simulator/walk.py:50 | the step in metres is speed times time in consistent units |
| Walk.MeasuredIsTable | simulator/walk.py:39-42 | any measured path of two or more waypoints is a usable table |
| Walk.MeasureIsUnique | simulator/walk.py:39-42 | waypoints and distance determine the table |
| Walk.BisectRight | simulator/walk.py:63 | the search returns the number of entries that are at most the distance |
| Walk.SegmentHolds | simulator/walk.py:63-64 | on the route the clamped index is the segment with cum[i] <= d < cum[i+1] |
| Walk.RatioProper | simulator/walk.py:65-67 | there the zero-length branch is not taken and the ratio is in [0, 1) |
| Walk.PositionProportional | simulator/walk.py:59-69 | each coordinate has changed in proportion to the distance covered in the one segment around d |
| Walk.PositionInBounds | simulator/walk.py:59-69 | a bus on a valid route is always within the coordinate bounds |
| Walk.PositionAtEntry | simulator/walk.py:59-69 | at a tabled distance the bus stands on the last waypoint having that distance |
| Walk.WaypointsVisited | simulator/walk.py:59-69 | the position at every tabled distance is its waypoint exactly when zero-length segments join equal points |
| Walk.NoTeleport | simulator/walk.py:59-69 | positions at two distances differ by at most k times the distance between them, across any number of segments, if each segment obeys that bound |
| Walk.BoundedExactly | simulator/walk.py:39-42 | some such bound k exists exactly when no zero-length segment jumps |
| Walk.NoTeleportExactly | simulator/walk.py:59-69 | on such a route the bound on the segments holds exactly when it holds between any two positions |
| WalkRun.TickLandsOnPath | simulator/walk.py:50-57 | from any start and for any step a tick ends between the termini |
| WalkRun.TickNoTeleport | simulator/walk.py:48-69 | one tick moves a coordinate by at most k times the step, also from a start beyond the end |
| WalkRun.RunConserves | simulator/walk.py:48-57 | over any run, from any start the simulator draws, distance moved plus overshoot discarded at the termini is the sum of the steps |
| WalkRun.FlipsBoundDistance | simulator/walk.py:48-57 | with f turns and steps of at most m, from any such start: (f-1)*total <= sum of steps < (f+1)*(total+m) |
| WalkRun.RunCovers | simulator/walk.py:48-57 | a run covers the sum of its steps less at most one step per turn, also from a start beyond the end |
| WalkRun.CrossingTicks | simulator/walk.py:48-57 | the ceiling of total over step is the number of steps to the far end |
| WalkRun.RoundTrip | simulator/walk.py:48-57 | after twice that many equal steps the bus is back at the origin, heading out |
| WalkRun.ClosedForm | simulator/walk.py:48-57 | the walk at constant step after k ticks, with j = k modulo 2n: min(total, j*s) on the way out, max(0, total-(j-n)*s) on the way back |
| FixedPoint.RoundsNearest | simulator/runner.py:97-99 | both roundings are within half a unit and keep whole-number bounds |
| FixedPoint.StoringIsExact | app/models/gps_point.py:22-24 | storing an already rounded value changes nothing |
| FixedPoint.HalfEvenExactly | simulator/runner.py:97-99 | Python's `round` gives the nearest whole number, and of two equally near ones the even one |
| FixedPoint.HalfAwayExactly | app/models/gps_point.py:22-24 | a NUMERIC column holds the nearest unit, and of two equally near ones the one further from zero |
| Topic.SplitAtSlash | app/mqtt/payload.py:47 | splitting undoes joining with a slash |
| Topic.ParseUndoesPrint | app/mqtt/payload.py:50-53 | integer parsing undoes decimal printing, up to the interpreter's digit cap |
| Topic.TopicRoundTrip | app/mqtt/payload.py:45-54 | the topic of a vehicle parses to its id exactly when the prefix has no slash (and the id is within the cap) |
| Topic.TopicsDistinct | simulator/runner.py:103-104 | two vehicles never share a topic |
| TopicLaws.ParseIntExactly | app/mqtt/payload.py:50-53 | a text is read as a number exactly when it spells it: space around, one sign or none, digits with single underscores between, at most 4300 of them |
| TopicLaws.ParseTopicExactly | app/mqtt/payload.py:45-54 | a topic is taken for a vehicle exactly when it is the slash-free prefix, a number of at least one and "gps", joined by slashes |
| Topic.AcceptedMatches | app/mqtt/payload.py:45-54 | whatever the prefix, a published topic that the parser accepts matches the subscription filter |
| Topic.AcceptedAreSubscribed | app/mqtt/client.py:38-39 | with a plain prefix the parser accepts exactly the topics that match the subscription filter and have a number of at least one in the middle |
| Ingestion.ReadFix | app/mqtt/handler.py:20-26 | the reads reject unknown and inactive vehicles and remember the current row |
| Ingestion.CommitFix | app/mqtt/handler.py:28-58 | append and latest-only upsert in one transaction, or no table changed |
| Ingestion.HandleGpsMessage | app/mqtt/handler.py:18-66 | both phases with nothing in between; true exactly for a known, active vehicle |
| Ingestion.ProcessMessage | app/mqtt/client.py:42-59 | topic, payload and their agreement decide what reaches the handler |
| Ingestion.Consume | app/mqtt/client.py:79-85 | messages are handled one after the other |
| Ingestion.LatestFix | app/mqtt/handler.py:69-77 | the query returns the vehicle's point that is latest by time and then id, if there is one |
| Ingestion.PayloadExactly | app/mqtt/payload.py:26-42 | the payload contract: a record, a zoned timestamp, an id of at least one, values within the literal bounds and carried over unchanged |
| Ingestion.DecodedExactly | app/mqtt/client.py:42-57 | a message is taken exactly when such a payload comes on the topic that names its own vehicle |
| Ingestion.QuantisedExactly | app/mqtt/handler.py:28-37 | each column holds the payload's number to the nearest unit |
| Ingestion.IngestExactly | app/mqtt/handler.py:18-66 | nothing at all for an unknown or inactive vehicle; otherwise one point more, a new current row where there was none or an older one, and nothing else |
| Ingestion.RefusedMessages | app/mqtt/client.py:42-57 | a bad payload, a topic of another vehicle, an unknown and an inactive vehicle leave everything as it was |
| Ingestion.CommitRefusals | app/mqtt/handler.py:28-58 | on any snapshot a commit is refused whole exactly when the vehicle is gone, the row to insert exists or the row to update is gone |
| Ingestion.FirstRowOnce | app/mqtt/handler.py:41-51 | two first fixes read at once cannot both insert the current row |
| Ingestion.UpsertKeepsIndex | app/mqtt/handler.py:39-56 | overwriting on strictly newer only keeps the current row the earliest-inserted of the newest fixes |
| Ingestion.CommitKeepsSound | app/mqtt/handler.py:28-58 | a commit on a snapshot that still holds is refused exactly when the vehicle is gone, and keeps every constraint and the index |
| Ingestion.TwoWritersLoseUpdate | app/mqtt/client.py:79-85 | two open transactions can break the index law: the single subscriber is needed |
| Ingestion.StaleCommitExactly | app/mqtt/handler.py:39-58 | on whatever row was read, a commit keeps the database sound exactly when it overwrites as the present row calls for, or repeats the present row |
| Ingestion.LatestFixAgreesWithIndex | app/mqtt/handler.py:69-77 | index and query agree on presence and time always, and on the whole fix when the newest fixes are the same; on a tie the index has the smallest id |
| Ingestion.CurrentDependsOnFixSet | app/mqtt/handler.py:39-56 | two databases with the same set of stored fixes agree on the current time, and on the row when the newest fix is unique |
| Ingestion.DeliveryStores | app/mqtt/handler.py:28-37 | history keeps every message, repetitions included |
| Ingestion.SameTimeInAnyOrder | app/mqtt/client.py:23 | any two deliveries of the same set of messages, in any order and with any repetitions, leave the same current time |
| Ingestion.OrderFreeExactly | app/mqtt/handler.py:39-56 | the current row is independent of the order exactly when all newest fresh messages store the same fix |
| Ingestion.OrderCanMatter | app/mqtt/handler.py:52 | two messages of one instant that leave different current rows in the two orders |
| DeliveryOrder.RunStoresDelivered | app/mqtt/handler.py:28-37 | in any run in which the vehicle stays active and its messages are taken, whatever else comes in between, exactly the messages delivered for it are stored for it |
| DeliveryOrder.SameTimeInRuns | app/mqtt/client.py:23 | any two such runs with the same messages for the vehicle leave the same current time |
| DeliveryOrder.OrderFreeInRunsExactly | app/mqtt/handler.py:39-56 | and the same current row, whatever the runs, exactly when all newest fresh messages store the same fix |
| FleetAdmin.AddRoute | app/services/fleet_admin_service.py:26-34 | refused for a taken name, else the row added |
| FleetAdmin.PatchRoute | app/services/fleet_admin_service.py:49-62 | partial update; a taken name and an explicit null name are refused whole |
| FleetAdmin.RemoveRoute | app/services/fleet_admin_service.py:65-74 | refused while a user holds the route |
| FleetAdmin.AddVehicle | app/services/fleet_admin_service.py:80-90 | refused for a taken code, else the row added |
| FleetAdmin.PatchVehicle | app/services/fleet_admin_service.py:135-150 | partial update; a taken code and explicit nulls are refused whole |
| FleetAdmin.RemoveVehicle | app/services/fleet_admin_service.py:153-171 | refused while held or with tracking data |
| FleetAdmin.AddUser | app/services/fleet_admin_service.py:177-187 | refused for a taken email, else an unassigned user added |
| FleetAdmin.PatchUser | app/services/fleet_admin_service.py:202-215 | partial update that leaves the assignment alone |
| FleetAdmin.RemoveUser | app/services/fleet_admin_service.py:218-220 | removes the row |
| FleetAdmin.Assign | app/services/fleet_admin_service.py:226-261 | sets or clears the pair, with the service's refusals in the service's order |
| FleetAdmin.Serve | app/api/v1/admin/users.py:40-48 | an invalid body is refused before the service is reached |
| AdminContract.EffectExactly | app/services/fleet_admin_service.py:26-261 | an accepted call changes the named row, column by column as asked, and nothing else; a refused call changes nothing |
| AdminContract.SchemaExactly | app/schemas/vehicle.py:9-21 | which bodies the request schemas let through, in literal lengths, characters and bounds |
| AdminContract.RepliesExactly | app/services/fleet_admin_service.py:26-261 | which answer each call gets: an invalid body, a missing user, route or vehicle in this order, a clash with another row, a null column, or done |
| AdminLaws.AdminKeepsSound | app/services/fleet_admin_service.py:26-261 | every admin call keeps references, uniqueness, walkable routes and the index |
| AdminLaws.AdminKeepsOneToOne | app/services/fleet_admin_service.py:226-261 | every admin call keeps the assignment one-to-one and pairs complete |
| AdminLaws.AdminRunKeeps | app/services/fleet_admin_service.py:226-261 | so does every serial run of admin calls |
| AdminLaws.GuardsExact | app/services/fleet_admin_service.py:26-261 | a call is accepted exactly when its body is valid, its target exists, it nulls no column and its bare write would leave a proper database |
| AdminLaws.RouteFreedExactly | app/services/fleet_admin_service.py:218-261 | a held route is free after an accepted call exactly when the call deletes its holder or gives the holder another route or none |
| AdminLaws.VehicleFreedExactly | app/services/fleet_admin_service.py:218-261 | the same for a held vehicle |
| AdminLaws.PairFreed | app/services/fleet_admin_service.py:218-261 | once both halves are freed, any user can have the pair at once |
| AdminLaws.ReassignmentUndone | app/services/fleet_admin_service.py:226-261 | giving a user its old pair back is accepted and restores the database |
| Tracking.StatusIsOfHistory | app/services/tracking_service.py:76-96 | the status and position read from the one current row are those of the whole history: offline exactly when nothing was recorded in the last sixty seconds, else by the winning fix |
| Tracking.StatusExactly | app/services/tracking_service.py:33-47 | offline without a fix from the last sixty seconds, else moving above five km/h, else idle |
| Tracking.ViewsAgree | app/services/fleet_admin_service.py:98-119 | fleet view and driver view show the same at the same time |
| Tracking.OfflineIsPermanent | app/services/tracking_service.py:33-47 | without a new row, offline stays offline as time goes on |
| Tracking.OrderedIsSorted | app/services/tracking_service.py:116-122 | the ordered query result has the same points in strictly increasing order |
| Tracking.RowsAreWindow | app/services/tracking_service.py:110-122 | the rows are exactly the vehicle's points in the window, each once, as many as counted |
| Tracking.DefaultWindow | app/services/tracking_service.py:103-108 | without bounds the window is the last 24 hours; with an end alone, the 24 hours before it |
| Tracking.HistoryExactly | app/services/tracking_service.py:99-124 | for every combination of bounds: the rows are the vehicle's points in the window asked for, in order; all are counted, and those from the offset on served up to the limit |
| Tracking.PagesComplete | app/services/tracking_service.py:99-124 | for a fixed window and any limit, as soon as pages times limit reaches the count the pages put together are the whole result, and every page counts it whole |
| Tracking.PagesStableExactly | app/services/tracking_service.py:116-122 | a point stored meanwhile leaves the pages served unchanged exactly when it is outside the window or not earlier than the last point served |
| Paging.PrefixKeptExactly | app/services/tracking_service.py:116-122 | any number of points stored meanwhile leaves the pages served unchanged exactly when none in the window is earlier than the last point served |
| Paging.PagingExactly | app/services/tracking_service.py:99-124 | pages taken one by one from a changing database, put together, are the first points of the last result, none repeated or skipped, exactly when every point stored in the window meanwhile found the page before it full and was not earlier than its last point |
| Paging.ShortPageSkips | app/services/tracking_service.py:119-122 | after a page of fewer than `limit` points the next offset skips a newer point |
| Tracking.AllOrNothing | app/services/tracking_service.py:50-124 | a user without assignment gets none of the four answers, one with an assignment its own rows in all of them |
| Tracking.AnswersExactly | app/services/tracking_service.py:50-100 | on any database, which of the four answers a user gets and whose rows they show |
| Tracking.SameViewSameAnswers | app/services/tracking_service.py:57-124 | the answers depend on the user's own row, route, vehicle, fixes and current row only |
| Tracking.NoSharedView | app/services/tracking_service.py:67-96 | no two users are shown the same vehicle or route |
| Seeding.Truncate | app/seed.py:86-95 | all five tables emptied, sequences not turned back |
| Seeding.SeedRouteRows | app/seed.py:107-115 | missing demo routes added, the dictionary finds every one by name, the count is the rows added |
| Seeding.SeedVehicleRows | app/seed.py:117-125 | the same for vehicles |
| Seeding.SeedUserRow | app/seed.py:127-136 | a user added only where the email is missing |
| Seeding.SeedDriverRows | app/seed.py:138-149 | missing demo drivers added with the route and vehicle found by name and code |
| Seeding.RunSeed | app/seed.py:98-159 | the whole script, wiping first if asked to; the counts returned are the rows added |
| Seeding.SeedKeeps | app/seed.py:98-159 | from any sound database: sound again, existing rows untouched, all demo rows present |
| Seeding.SeedIsIdempotent | app/seed.py:98-159 | a second seeding changes nothing |
| SeedLaws.SeedAddsExactly | app/seed.py:98-149 | all that seeding adds: the missing routes and vehicles as specified, vehicles active, a missing admin without a pair, missing drivers who are no admins and hold the pair named for them |
| SeedLaws.WipeEmpties | app/seed.py:86-95 | five empty tables, every id sequence where it was |
| SeedLaws.SeedOneToOneExactly | app/seed.py:138-149 | the assignment stays one-to-one exactly when no user holds the route or vehicle of a missing demo driver |
| SeedLaws.SeedCanShareRoute | app/seed.py:138-149 | four admin calls after which seeding gives one route to two users |
| SeedLaws.FreshSeedOneToOne | app/seed.py:102-105 | a fresh seed is sound and one-to-one |
| SeedLaws.FreshSeedCounts | app/seed.py:35-83 | a fresh seed makes four routes, four vehicles and five users |
| SeedLaws.FreshSeedPairs | app/seed.py:77-83 | each demo driver is there with its own route and vehicle |
| System.StepKeepsInvariant | app/mqtt/handler.py:18-66 | every step keeps the database sound and the open transaction's snapshot valid or its vehicle gone for good |
| System.ReachableIsSound | app/mqtt/handler.py:39-58 | in every reachable state, whatever interleaved: references resolve, keys are unique, and the current row is present exactly with history and is its winning fix |
| System.CommitRefusedExactly | app/mqtt/handler.py:28-58 | an ingestion whose vehicle vanished before commit leaves every table alone; any other is stored |
| System.StoredThoughDeactivated | app/mqtt/handler.py:20-58 | a fix whose vehicle is deactivated between read and commit is stored |
| System.LostInCrash | app/mqtt/handler.py:28-58 | a message whose transaction is lost before its commit leaves the system as if it had never come |
| Provenance.StoredWasPublished | app/mqtt/client.py:42-59 | in every reachable state each stored point was published on its own vehicle's topic, in a valid record, while the vehicle was active, and holds what was published |
| Provenance.UnheardStoresNothing | app/mqtt/handler.py:20-26 | a run without a message that reaches the vehicle on its own topic while it is active adds no point of it |
| System.LoopIsRun | app/mqtt/client.py:79-85 | the consuming loop is the run with nothing between reads and commits |
| System.RunStoresInBounds | app/mqtt/payload.py:31-34 | whatever real-valued payloads are published, every stored fix is within the contract's bounds |
| System.HistoryAppendOnly | app/mqtt/handler.py:28-37 | until a wipe, history only grows at its end |
| System.CurrentNeverRegresses | app/mqtt/handler.py:52-56 | until a wipe, a vehicle with history is not deleted and its current time never goes back |
| System.OfflineUntilHeard | app/services/tracking_service.py:33-47 | over a run without a wipe a driver shown offline stays offline exactly until a fix of the vehicle is stored that is at most sixty seconds old |
| System.ServedPrefixKeptExactly | app/services/tracking_service.py:116-122 | over a run without a wipe, what was served stays a prefix of the result exactly when nothing earlier is stored in its window |
| System.PagingExactlyInRun | app/services/tracking_service.py:99-124 | the same condition is exact for a client that asks for page after page at any moments of a run |
| System.RunKeepsOneToOne | app/services/fleet_admin_service.py:226-261 | every run keeps the assignment one-to-one, if each seeding in it meets the exact condition |
| System.AnswersUndisturbed | app/services/tracking_service.py:57-124 | other vehicles' fixes and admin calls on other users, routes and vehicles never change a user's four answers |
| Simulator.LoadAssignments | simulator/runner.py:34-48 | one row for every user with both halves, joined with its route and vehicle |
| Simulator.OneWalkerPerVehicle | simulator/runner.py:34-48 | in a proper database every assigned vehicle has exactly one row, with a walkable route |
| Simulator.SpeedInBand | simulator/runner.py:51-54 | a halt exactly when the draw is below 0.05, else the base plus the jitter drawn, within six km/h of the base and never above 48 |
| Simulator.SpeedExactly | simulator/runner.py:51-54 | whatever the base, the speed is zero or base plus jitter, and never negative |
| Simulator.BuildWalkers | simulator/runner.py:69-72 | all walkers can be built, each on its own route |
| Simulator.PublishOne | simulator/runner.py:92-107 | one bus ticks and publishes a fix that passes the contract check |
| Simulator.PublishRound | simulator/runner.py:91-107 | a round ticks every bus once and publishes for every one, in order |
| Simulator.PublishRounds | simulator/runner.py:82-107 | round after round every bus makes the run of the steps drawn for it, and each fix is the one for where that run has brought it |
| Simulator.PublishedIsStored | simulator/runner.py:95-102 | a published fix decodes, and the columns hold exactly what was published |
| Simulator.AlwaysInBounds | simulator/runner.py:93-94 | whatever the start and the steps, the bus is within the coordinate bounds |
| Simulator.PublishedIsAccepted | app/mqtt/client.py:42-59 | the subscriber takes in a published fix of an active vehicle |
| Simulator.DemoFleetIsHeard | app/seed.py:117-149 | after a fresh seed a fix published for any demo driver's vehicle is taken in |
| Simulator.PublishedIsKept | app/mqtt/client.py:42-59 | it is stored as published if the vehicle is still there at commit, whatever admins did in between |
| Simulator.PublishedIsSeen | app/services/tracking_service.py:76-96 | and if it is the newest and the vehicle has a driver at commit, the driver sees it, moving exactly when faster than five km/h |
| Simulator.SimulatorHonoursContract | simulator/runner.py:69-107 | for every walker loaded from a sound database, shared routes or vehicles included: it can be built, it is always within bounds, and every fix it ever publishes passes the contract, names its vehicle and is taken in |
| Simulator.SimulatedFixIsStored | simulator/runner.py:56-107 | from the empty database through any run, the loading, any further run, the publication, the delivery and anything between read and commit: the stored point is exactly what was published |

## Left out

- Walk.BusWalker.constructor: does not model the haversine formula; the distance is any non-negative function, so results hold for it in particular, and the bound k of the no-teleport results is a parameter (`Walk.BoundedExactly` says when there is one).
- WalkRun.Underway: does not cover a bus created beyond the end and heading back, which nothing in the repository creates; while it walks back unseen to the end it covers nothing, so `WalkRun.RunCovers` would not hold for it.
- Walk.PositionAt: does not model floating-point error; distances, ratios and coordinates are real numbers.
- Topic.ParseInt: does not model non-ASCII digits and spaces, which Python's `int` also accepts.
- Ingestion.CommitPhase: does not model ids skipped in other ways than by a refused commit; only their growth is used.
- Simulator.LoadAssignments: serves the rows by user id, where the query leaves the order open; the results about it hold for any order.
- Simulator.PublishRound: does not model the waiting between rounds, the connection and the stop event.
- FleetAdmin.Apply: does not model overlapping admin transactions; exclusivity has no unique constraint behind it, so its claims are about serial calls.
- Password hashes, tokens and the authentication endpoints; a caller is given by its user row.
- JSON decoding and pydantic coercion: a payload is either no object or a record of typed fields.
- Ingestion.ParsePayload: does not model NaN, which `json.loads` also yields; its numbers are real.
- Email syntax, password length, `created_at` and `updated_at`.
- The broker connection, TLS, reconnecting and shutdown.
- Routers, the error envelope, CORS, configuration and migrations, except for the order in which a body is validated before its service.
- The default page limit; `limit` is a parameter between 1 and 1000.
- BIGINT overflow of id sequences; results about printed ids assume the column's range.
