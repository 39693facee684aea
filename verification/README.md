# Verified models of the rail and bus data services

This project models the parts of the repository that keep state or claim something about whole
runs, and proves what they promise, in Dafny. `dafny verify dfyconfig.toml` checks everything.

| module | models |
|---|---|
| `Plane`, `Graph`, `Kruskal`, `ComponentBridges` | joining the components of the rail network by the closest station pair, then by service evidence |
| `NearestVertex` | snapping stations to track vertices by a ring search over a grid |
| `StationClusters` | clustering rail points within 200 m by a search over a grid |
| `BusFeed`, `Collector`, `BusCollector` | the bus collector's write path as a specification and as an object with the same steps |
| `PollOutcome` | what one committed poll leaves in each table, told by its predictions and trips |
| `ChangeLog`, `Collectors` | what one cache, or several, keep true of the archive over whole runs |
| `LiveTable`, `DelaySamples` | when the live table and the delay samples hold what a system without a cache would |
| `Histogram` | the route filter and the poll-weighted delay counts |
| `Reservation` | the shared rate limit and the alternation of the two realtime feeds |
| `StaticRows`, `StaticSelection`, `FeedVersions` | reading the rows of a static feed and selecting its bus part; importing, activating, pruning and restoring versions |
| `Billing`, `WebhookDelivery` | applying billing events, and what the webhook's routing adds |
| `Backfill` | the resumable delay-sample backfill |
| `TableDecoder` | the compressed table transport of the published performance figures |
| `SearchPattern`, `ShapeThinning` | search patterns for LIKE; thinning and grouping of shape points |
| `MovementLog` | the deduplicated rail movement log |

A transaction is one atomic step that commits or leaves no trace. Tables are maps or sequences;
functions named `Step` and `Run` give the runs, and lemmas about `Run` speak of every run. Methods
carry the loops and updates of the program and are proved against those functions; what the
functions compute is stated again by fields, literals and coordinates, in contracts and lemmas that
do not name them. Distances are squared reals. A state hash is taken to be injective, so the hashed
fields stand for the hash; the fingerprints of the rail movement log are opaque strings. Clock
readings, network results and whether a transaction commits are parameters.

Where the code does less than its names and documentation suggest, the models follow the code:

- The search named `nearest_vertex` can return a farther vertex
  (`NearestVertex.NotAlwaysNearest`). Which stations are snapped is still decided exactly as by a
  scan (`NearestVertex.SnapsExactly`); `NearestVertex.ExactWhen` says when the answer is the nearest.
- After pruning, a prediction that repeats its cached state stays absent from the live table
  (`LiveTable.PruningHidesARepeatedPrediction`). The table agrees with a system without a cache
  exactly when no such repeat happens (`LiveTable.AgreesExactlyWhenSafe`). Likewise a repeated
  prediction gets no delay sample after its trip has expired
  (`DelaySamples.ExpiryHidesARepeatedSample`, `DelaySamples.SamplesAgreeExactlyWhenSafe`).
- The archive replays every poll for one collector on a clock that advances; with two collectors
  it need not (`ChangeLog.TwoCollectorsMissAChange`), and
  `Collectors.ReplaysEveryPollExactlyWhen` says when it does: each state a cache suppresses must
  be the one last reported by any collector.
- The shared reservation reads the clock before and after waiting for the row lock, so a long
  wait lets grants come too close (`Reservation.LongWaitDefeatsSpacing`). Whatever attempt comes
  next at any moment of a run, grants stay 61 seconds apart, exactly when no grant of the run waits
  longer than its interval exceeds 60 seconds by (`Reservation.SpacedExactlyWhen`). A run with a
  longer wait may still happen to stay spaced, when no attempt comes early enough.
- With several daemons the recorded feeds need not alternate (`Reservation.TwoDaemonsRepeatAFeed`);
  they do exactly when, for each report, an even number of requests were recorded between its
  grant and the report (`Reservation.AlternateExactlyWhen`).
- A billing event without an external id for a customer no row knows yet is accepted and lost,
  and one for a user who does not exist yet is refused and comes again. The row keeps the newest
  event's state exactly when some delivery of that event comes when its user exists, and either
  names the user or finds that the row knows the customer
  (`WebhookDelivery.NewestIsKeptExactlyWhenRouted`). A downgrade can be lost when it overtakes the
  purchase (`WebhookDelivery.EarlyDowngradeIsLost`) and when the purchase was refused before it
  (`WebhookDelivery.RefusedPurchaseOutlivesDowngrade`).

## Model

| member | source | states |
|---|---|---|
| `Plane.CornerDistance` | build_actual_network.py:38-41 | round a right-angled corner the squared distances add up |
| `Plane.LevelDistance` | build_actual_network.py:38-41 | points level on one axis are at the square of their difference on the other |
| `Graph.ReachableFrom` | build_actual_network.py:302 | the search from a node finds exactly the nodes connected to it |
| `Graph.ConnectedComponents` | build_actual_network.py:302 | the listed components are exactly the components, each once |
| `Graph.BridgeMerges` | build_actual_network.py:351 | an edge between two components lowers the number of components by one |
| `Kruskal.Exchange` | build_actual_network.py:301-334 | in any rival list some pair can be traded for a cheapest crossing pair: it is no cheaper, and no connection is lost |
| `Kruskal.GreedyMinimal` | build_actual_network.py:301-351 | a greedy run costs no more than any list of eligible pairs that connects the same |
| `Kruskal.GreedyMinimalAtAnyPrice` | build_actual_network.py:301-351 | the same holds for every nondecreasing non-negative price of the cost, so also for lengths and counts |
| `Kruskal.GreedyNonDecreasing` | build_actual_network.py:312-334 | successive bridges never get shorter |
| `Kruskal.ExhaustedConnects` | build_actual_network.py:333-334 | after the loop two stations are connected exactly when they are through the old edges and all eligible pairs |
| `ComponentBridges.ByCodeHoldsLast` | build_actual_network.py:295 | every station code has the position of its last station |
| `ComponentBridges.KeyIsSorted` | build_actual_network.py:315 | an edge key does not depend on the order of the codes and has the smaller one first |
| `ComponentBridges.LexLessMeans` | build_actual_network.py:315 | codes are ordered by the first character in which they differ |
| `ComponentBridges.ClosestBridge` | build_actual_network.py:306-331 | the nested scan over component pairs finds a cheapest eligible crossing pair, or none exists |
| `ComponentBridges.BridgeByGeometry` | build_actual_network.py:301-351 | the first loop is a greedy run to exhaustion, overwrites no edge and ends |
| `ComponentBridges.CollectServiceCandidates` | build_actual_network.py:358-371 | the candidates are exactly the crossing pairs of known stations with at least 20 trips that have no edge, most trips first |
| `ComponentBridges.BridgeByService` | build_actual_network.py:353-396 | the second loop is a greedy run over service pairs to exhaustion, and overwrites no edge |
| `ComponentBridges.AddComponentBridges` | build_actual_network.py:292-398 | both loops in sequence, in coordinates and trip counts: each bridge is a closest pair of mapped stations at most 120 km apart across components, each service a busiest pair with at least 20 trips; what is added, that old edges stay, and which pairs end up connected |
| `ComponentBridges.BridgesAreShortest` | build_actual_network.py:301-351 | the geometry bridges have minimal total length among all eligible lists with the same connectivity |
| `ComponentBridges.ServicesAreBusiest` | build_actual_network.py:371-396 | for every threshold, no list of service pairs with the same connectivity contains fewer quieter pairs |
| `ComponentBridges.EachAdditionMerges` | build_actual_network.py:351-396 | every added edge lowers the component count by exactly one |
| `NearestVertex.CellSpans` | build_actual_network.py:242-251 | the cell of a point is the square of two kilometres that holds it |
| `NearestVertex.BuildVertexSpatialIndex` | build_actual_network.py:242-247 | each vertex is listed in its own floor cell and nowhere else |
| `NearestVertex.FindNearestVertex` | build_actual_network.py:250-278 | the answer is the best of all vertices in the rings up to the one where the search stops, and it is accepted exactly when a scan would accept |
| `NearestVertex.ExaminesEightRings` | build_actual_network.py:255-276 | the search looks at the rings up to the one where it stops, at eight at most, and at all vertices if those are empty |
| `NearestVertex.FarRing` | build_actual_network.py:255-272 | a vertex more than k rings away is more than k cells away |
| `NearestVertex.StopBounds` | build_actual_network.py:269-270 | when the search stops at ring r the answer is at most r + 1 cells away and unseen vertices are more than r cells away |
| `NearestVertex.SnapsExactly` | build_actual_network.py:250-288 | an accepted answer within 4000 m exists exactly when some vertex lies within 4000 m |
| `NearestVertex.ExactWhen` | build_actual_network.py:250-278 | the answer is the nearest vertex if and only if each unexamined vertex of the doubtful rings (one more ring after an early stop) is matched by an examined one that is no farther |
| `NearestVertex.NotAlwaysNearest` | build_actual_network.py:269-270 | a concrete point whose answer is not its nearest vertex |
| `NearestVertex.MapStationsToVertices` | build_actual_network.py:281-289 | in coordinates: a code is mapped exactly when some vertex lies within 4000 m of a station of it, and to the search's answer for the last such station |
| `StationClusters.CellSpans` | build_rail_network_graph.py:36-48 | cells are a kilometre wide, and those around zero reach out to both sides |
| `StationClusters.CreateSpatialIndex` | build_rail_network_graph.py:36-48 | each point is listed in its own truncated cell and nowhere else |
| `StationClusters.NearIsAdjacent` | build_rail_network_graph.py:84-106 | points within 200 m lie in the same or adjacent truncated cells, also across zero |
| `StationClusters.GrowCluster` | build_rail_network_graph.py:83-111 | the queue ends with exactly the component of the seed, each member once |
| `StationClusters.FindStationClusters` | build_rail_network_graph.py:56-120 | the last coordinates of each point count; the clusters are the components of the hops of at most 200 m, in coordinates, every point in exactly one; each cluster goes by its first point |
| `StationClusters.SharedClusterMeansChain` | build_rail_network_graph.py:56-120 | two points share a cluster if and only if a chain of hops of at most 200 m joins them |
| `BusFeed.KeysTellStopsApart` | bus_daemon.py:355-367 | two predictions share a key exactly when they are of one feed, trip and stop sequence and, without a sequence, of one stop |
| `PollOutcome.CommitIsOutcome` | bus_daemon.py:2103-2338 | on a consistent collector whose clock has advanced, a committed poll writes exactly its news: each prediction that no later one of its stop repeats has a live row and an observation in its own state unless that state was known, and is the newest observation of its stop; trips are fresh and present as their entries say; nothing else changes |
| `PollOutcome.SamplesAreOutcome` | bus_daemon.py:2190-2216 | each written prediction with a delay and a route leaves its sample: the departure's delay before the arrival's, its own route before the scheduled trip's; no other sample changes |
| `BusCollector.LegacyIsOutcome` | bus_daemon.py:2141-2157 | each written prediction has the legacy row of its state, which keeps when it was first fetched; no other row changes |
| `BusCollector.BusDaemon.InsertTripUpdates` | bus_daemon.py:2103-2338 | on commit a poll leaves the live, freshness, archive, presence, delay-sample and legacy rows told above, adds its counts to the histogram and publishes its hashes; on failure it leaves the tables and the loaded cache |
| `BusCollector.BusDaemon.KeepActiveFeed` | bus_daemon.py:1921-1925 | after a static refresh a hash stays if and only if its key belongs to the served feed, with its value, and the cache still mirrors the archive |
| `BusCollector.BusDaemon.PruneWorkingTables` | bus_daemon.py:2526-2576 | live rows of trips not seen for half an hour go, and the oldest archived trips of more than 168 hours with their delay samples, at most 5000 at a time; nothing while the legacy table exists |
| `BusCollector.RecordedCountsAddUp` | bus_daemon.py:2295-2333 | whatever the order of a poll's predictions, the counts recorded for a filtered feed add up over its routes and stops |
| `ChangeLog.RunMirrors` | bus_daemon.py:2103-2338 | in every run a cached hash is the newest archived state of its key |
| `ChangeLog.LogReplaysEveryPoll` | bus_daemon.py:2103-2338 | for every committed poll of every run, the latest observation at or before it carries the polled state of each key |
| `ChangeLog.ReplaysExactlyWhen` | bus_daemon.py:2136-2140 | whatever the cache holds, a poll is replayable exactly when its suppressed keys already were archived newest in that state |
| `ChangeLog.TwoCollectorsMissAChange` | bus_daemon.py:2110-2140 | with two collectors a return to an earlier state goes unrecorded |
| `Collectors.ReplaysEveryPollExactlyWhen` | bus_daemon.py:2103-2338 | over every run of any number of collectors, the archive replays every committed poll if and only if each state a cache ever suppressed is the one reported for its key by the last earlier committed poll of any collector |
| `LiveTable.AgreesExactlyWhenSafe` | bus_daemon.py:2110-2189 | over whole runs the live table agrees with upserting everything if and only if every suppressed prediction still has its row |
| `LiveTable.FreshPollsAgree` | bus_daemon.py:2110-2189 | it agrees in every run whose committed polls find all cached trips fresh |
| `LiveTable.PruningHidesARepeatedPrediction` | bus_daemon.py:2526-2544 | a run in which pruning leaves a repeated prediction without a live row |
| `DelaySamples.SamplesAgreeExactlyWhenSafe` | bus_daemon.py:2190-2272 | over every run the delay samples tell the same routes and delays as if every prediction were written, if and only if no suppressed prediction has lost its sample |
| `DelaySamples.ExpiryHidesARepeatedSample` | bus_daemon.py:2545-2568 | a run in which the expiry of a trip leaves a repeated prediction without a delay sample |
| `Histogram.FilterBusRealtimeFeed` | bus_daemon.py:816-866 | the kept trips and updates, in order: the static feed's route, or the feed's for a known route and a dynamic trip; an update gets the route of the last accepted trip of its key |
| `Histogram.AcceptedIsLast` | bus_daemon.py:800-831 | the route accepted for a key is that of its last trip on a bus route |
| `Histogram.FilteredAreRouted` | bus_daemon.py:800-843 | every update that passes the filter has a route known to the static feed |
| `Histogram.BusPollDelayHistogram` | bus_daemon.py:869-895 | each cell counts the eligible predictions of its scope and delay |
| `Histogram.CellsAreCounted` | bus_daemon.py:869-895 | a cell counts exactly the predictions of running trips and served stops that have its delay and fall in its scope |
| `Histogram.CountsIgnoreOrder` | bus_daemon.py:2295-2297 | the counts of a poll depend on its predictions, not on their order |
| `Histogram.ScopesAddUp` | bus_daemon.py:880-895 | over all scopes of a kind, the counts of a delay add up to the eligible predictions that have such a scope |
| `Histogram.FilteredCountsAddUp` | bus_daemon.py:816-895 | after filtering, per delay the routes add up to the network and the stops to the predictions that name a stop |
| `Histogram.BucketIsTheHour` | bus_daemon.py:2307-2312 | a poll is counted in the hour it falls in |
| `Histogram.HistogramTables.Record` | bus_daemon.py:2295-2333 | a poll is added to its hour once, and an empty one leaves no trace |
| `Histogram.HistogramTables.RecordAll` | bus_daemon.py:2295-2333 | whatever is replayed, the stored histogram is the sum over the distinct polls |
| `Reservation.FetchTables.Reserve` | bus_daemon.py:2036-2087 | a reservation is granted exactly when there is no row, or an enabled one that is due; it stores the later of the configured interval and a minute, plus a second, after the stamp |
| `Reservation.LatestIsNewest` | bus_daemon.py:2076-2083 | the record found is the greatest by time, then identifier, among those of the two realtime endpoints |
| `Reservation.NextFeedIsTheOther` | bus_daemon.py:2074-2087 | the trip updates come next exactly when the latest recorded request of the two was for the vehicles |
| `Reservation.FetchTables.PollRealtime` | bus_daemon.py:2440-2519 | a poll without an active feed reserves nothing and reports its failure under the name of the whole endpoint; any other reserves, and reports its request unless the process dies first |
| `Reservation.GrantsAreSpaced` | bus_daemon.py:2048-2073 | in every interleaving of any daemons, intervals, crashes and switches, a grant is decided no earlier than the one before was stamped plus its configured interval and a second, and plus 61 seconds |
| `Reservation.NextGrantIsSpacedExactlyWhen` | bus_daemon.py:2048-2073 | a grant keeps every later one 61 seconds away if and only if its lock wait is at most what its interval exceeds 60 seconds by |
| `Reservation.SpacedExactlyWhen` | bus_daemon.py:2048-2073 | for any number of daemons: whatever attempt comes next at any moment of a run, grants stay 61 seconds apart, if and only if each grant of the run waited no longer than that |
| `Reservation.PromptGrantsAreSpaced` | bus_daemon.py:2048-2073 | when no statement waits for the row lock, grants are at least 61 seconds apart |
| `Reservation.RequestsInWindow` | bus_daemon.py:2048-2073 | when no grant waited longer than that, a window of T seconds holds at most T/61 rounded down, plus one, grants |
| `Reservation.LongWaitDefeatsSpacing` | bus_daemon.py:2051-2066 | a statement that waits a minute for the row lock lets two grants fall within a second |
| `Reservation.RecordedFeedsAlternate` | bus_daemon.py:2074-2087 | with one daemon the recorded feeds strictly alternate, whatever records are lost |
| `Reservation.AlternateExactlyWhen` | bus_daemon.py:2074-2087 | for any number of daemons with records in clock order, the recorded feeds alternate if and only if, for each report, an even number of requests were recorded between its grant and the report |
| `Reservation.TwoDaemonsRepeatAFeed` | bus_daemon.py:2036-2087 | two daemons can record the same feed twice in a row |
| `StaticRows.CollectedRows` | bus_daemon.py:981-1153 | a file is accepted exactly when each of its rows is, and yields exactly the selected rows |
| `StaticRows.CollectedInOrder` | bus_daemon.py:981-1153 | the selected rows keep the order of the file |
| `StaticSelection.CloseUnderParents` | bus_daemon.py:1145-1160 | the worklist ends even on cycles with the least set closed under parents, and fails exactly when no closed set exists |
| `StaticSelection.SelectStaticFeed` | bus_daemon.py:981-1173 | the first error in reading order, or the selection with the least closed set of stops |
| `StaticSelection.SelectionResolves` | bus_daemon.py:981-1269 | every reference of a selection resolves inside it, and the second pass yields exactly the counted rows |
| `StaticSelection.TripsAreOfRows` | bus_daemon.py:981-1088 | agencies, routes and trips of a selection are those of the rows, in order and field by field |
| `StaticSelection.StopsAreOfRows` | bus_daemon.py:1090-1173 | stop times and shape points are counted row by row, each stop has the parent its last row names, and the stops are the least closed set above those in use |
| `StaticSelection.IterBusStopTimes` | bus_daemon.py:1176-1202 | in order, one stop time for each row of a selected trip, with the trip, sequence, stop, arrival and departure of that row, or the fault of the first bad row |
| `StaticSelection.IterBusShapePoints` | bus_daemon.py:1205-1269 | in order, one point for each row of a wanted shape, field by field, the fault of the first bad row, or nothing when no shape is wanted |
| `FeedVersions.SelectedIsStorable` | bus_daemon.py:1625-1894 | a selected archive can be stored exactly when no primary key repeats; its references always resolve |
| `FeedVersions.FeedStore.ActivateAndPrune` | bus_daemon.py:1588-1623 | one version becomes active and all others lose their flags, stop times and shape points |
| `FeedVersions.FeedStore.ActivateExistingVersion` | bus_daemon.py:1542-1586 | when the first transaction activates, declines or fails |
| `FeedVersions.FeedStore.ImportTransaction` | bus_daemon.py:1639-1875 | the second transaction activates, restores what is missing, imports, or rolls back |
| `FeedVersions.FeedStore.ImportStaticFeed` | bus_daemon.py:1625-1894 | afterwards exactly this feed is served, its stop times and points those of the archive's rows field by field, and known versions keep their content; or the tables are as they were |
| `FeedVersions.ImportSucceedsExactlyWhen` | bus_daemon.py:1639-1875 | the second transaction succeeds exactly when it commits and the rows can be stored or are all there, and it reports an import exactly when some were missing |
| `FeedVersions.RunServesLastRefresh` | bus_daemon.py:1542-1894 | in every interleaving from an empty database: one version per content, all imported, at most one active, only it with rows, and it is the one the last successful refresh brought |
| `FeedVersions.RunIsStorable` | bus_daemon.py:1542-1894 | in every run route and trip identifiers, stop times of a trip and points of a shape are distinct, and references resolve |
| `FeedVersions.ActivateExistingKeeps` | bus_daemon.py:1542-1586 | re-activation succeeds for the version being served, and then changes nothing |
| `FeedVersions.RestoreUndoesPrune` | bus_daemon.py:1672-1741 | pruning a version by refreshing to another known one and then restoring it is the identity |
| `Billing.BillingTables.ApplyPolarState` | api/src/db/users.rs:102-161 | when an event is applied, a duplicate, stale, for no user or in conflict; an applied one stores its customer, subscription, time and role, except the role of an administrator; all else stays |
| `Billing.BillingTables.Webhook` | api/src/billing/handlers.rs:428-460 | the user whose row knows the customer, else the external id, gets what the customer's products give; without a user nothing changes; customers stay unique |
| `Billing.NewestDecides` | api/src/db/users.rs:126-143 | the first of the newest handled events decides the row, unless none is newer than the row was |
| `Billing.RowFollowsHandled` | api/src/db/users.rs:102-161 | in every run a row is its old state followed by the handled events of its user |
| `Billing.NewUsersAreFree` | api/src/db/users.rs:102-161 | a user for whom no event was handled is free and without a customer |
| `Billing.Converges` | api/src/db/users.rs:102-161 | once all its events are handled, in any order and with repeats, the row holds the newest one's customer, subscription and role |
| `Billing.OrderMattersExactlyWhen` | api/src/db/users.rs:126-143 | every order gives the same row if and only if the newest events carry the same state |
| `Billing.RunsAgree` | api/src/db/users.rs:102-161 | two runs that handle the same events leave the same row |
| `Billing.HandledExactly` | api/src/db/users.rs:108-124 | a delivered event is recorded exactly when it was handled for its user |
| `Billing.RunKeeps` | api/src/db/users.rs:126-143 | an admin role never changes or appears, users and recorded events stay, and every change of a row raises its time |
| `Billing.EntitlementIsBest` | api/src/billing/handlers.rs:346-367 | pro beats coffee beats free, and exactly the first subscription to the best product is stored |
| `WebhookDelivery.NewestIsKeptExactlyWhenRouted` | api/src/billing/handlers.rs:428-474 | over runs of deliveries, repeated at will, and registrations: the row ends with the customer, time and entitlement of the customer's newest event if and only if some delivery of it comes when its user exists, and either names the user or comes after the row knows the customer |
| `WebhookDelivery.EarlyDowngradeIsLost` | api/src/billing/handlers.rs:435-446 | a concrete order of two events in which the final downgrade is lost and the row keeps the purchase |
| `WebhookDelivery.RefusedPurchaseOutlivesDowngrade` | api/src/billing/handlers.rs:435-474 | a purchase that is refused until its user has registered outlives the downgrade accepted in between |
| `Backfill.BackfillJob.Samples` | backfill_bus_storage.py:267-321 | any batch size and any number of batches replay the rows up to the stored position; a different as-of time is refused |
| `Backfill.SampleBatch` | backfill_bus_storage.py:42-70 | one selecting and upserting statement leaves what upserting its rows one by one leaves |
| `Backfill.LatestIsGreatest` | backfill_bus_storage.py:45-60 | the selected row of a key is the greatest by time, then identifier |
| `Backfill.ReplayedIsSelected` | backfill_bus_storage.py:42-70 | per key, replaying a range equals merging its one selected row |
| `Backfill.RunReplays` | backfill_bus_storage.py:267-321 | in every run of starts, batches of any size and appended rows, table and position stay in step and every batch makes progress |
| `Backfill.FinishedEqualsOneQuery` | backfill_bus_storage.py:267-321 | however it was cut and resumed, a backfill of an empty table that has reached its target equals one query over the whole table at the start: per key the latest row of a trip seen in the last 168 hours that has a route and a delay, the departure's before the arrival's |
| `Backfill.EnoughBatchesFinish` | backfill_bus_storage.py:297-318 | as many batches as there are identifiers always reach the target |
| `Backfill.RepeatIsHarmlessExactlyWhen` | backfill_bus_storage.py:414-416 | why the lock is needed: repeating an earlier batch after later ones leaves the table as it is if and only if no row of equal time had overtaken it |
| `TableDecoder.DecodesExactly` | import_bus_performance.py:141-160 | a row decodes to a value list if and only if it legally writes that list down |
| `TableDecoder.ValuesAreCounted` | import_bus_performance.py:148-159 | an accepted row supplies exactly as many values as it has unmasked fields |
| `TableDecoder.BitIsDigit` | import_bus_performance.py:143-147 | bit i of a mask is its binary digit of weight two to the i |
| `TableDecoder.ResolvesToWhatItStandsFor` | import_bus_performance.py:161-167 | nulls, texts and values of a field without a dictionary stand for themselves, any other value must be the number of a dictionary entry and stands for that entry |
| `TableDecoder.EveryChoiceRoundTrips` | import_bus_performance.py:141-160 | whichever equal fields are marked repeated and whichever nulls null, the row decodes to itself |
| `TableDecoder.DecodeInvertsEncoding` | import_bus_performance.py:99-168 | a page decodes to a table if and only if it is complete, has the expected columns and legally encodes that table, through dictionaries and column selection |
| `TableDecoder.DecodeRows` | import_bus_performance.py:99-168 | the loops compute that decoding, or report the first error |
| `SearchPattern.TrimIsExact` | api/src/schema/bus.rs:48 | trimming removes white space only, and all of it at both ends |
| `SearchPattern.ThriceEscapes` | api/src/schema/bus.rs:58-61 | the three sequential replacements equal one character-wise escaping |
| `SearchPattern.PatternMeansContains` | api/src/schema/bus.rs:44-63 | blank, too long, or a well-formed pattern that matches exactly the texts containing the trimmed search |
| `ShapeThinning.ThinningCovers` | api/src/schema/bus.rs:553-568 | at most N points, both ends, and gaps of at most the rounded-up quotient |
| `ShapeThinning.StepIsLeast` | api/src/schema/bus.rs:722-737 | no selection of at most N points that keeps both ends has smaller gaps |
| `ShapeThinning.GroupBusRouteShapes` | api/src/schema/bus.rs:81-109 | the groups flatten back to the rows, none is empty, neighbours differ, and each is headed by its first row |
| `ShapeThinning.GroupingIsUnique` | api/src/schema/bus.rs:81-109 | there is only one such grouping |
| `MovementLog.MovementTask.FetchTrainMovements` | daemon.py:953-1054 | a fetch runs its steps and publishes its cache with the commit: each stop's log grows by the changes of the reply, whose last fingerprint is cached; what it returns |
| `MovementLog.MovementTask.CleanUpStaleHashes` | daemon.py:1060-1081 | a fingerprint stays if and only if its train is active, with its value, and the cache still is that of the last committed rows |
| `MovementLog.LogKeepsEveryChange` | daemon.py:976-1048 | in every run, with clean-ups between any steps, the log has the same changes as the committed fetches saw, and a cached fingerprint is that of the last committed row |
| `MovementLog.InsertsAreTheChanges` | daemon.py:1022-1049 | while a stop is remembered, its inserted rows are exactly the seen fingerprints with repeats removed: none equals its predecessor, nor the first one the cached fingerprint |

## Left out

- HTTP, retries, ZIP, CSV, XML and JSON reading, time parsing and asyncio scheduling: parsed rows, results and clock readings are inputs.
- Floating point, square roots, rounding of stored distances and map projection; the stored confidence and snap values of edges.
- The hash functions themselves; the movement fingerprint joins its arguments without separators, so equal fingerprints need not mean equal movements.
- networkx's component search is modelled by `Graph.ConnectedComponents`, a search of its own.
- Building, cleaning and reporting of the rail graphs, fallback edges, polyline distances and the two simpler network builders.
- Vehicle positions and the other pollers of the rail daemon. Writing to a legacy table that has been retired counts as a transaction that does not commit.
- A transaction whose commit succeeds but whose acknowledgement is lost.
- The order of the selected feed's rows, and their columns that are only copied.
- Integer overflow and other database errors during an import are covered by the parameter that says whether a transaction commits.
- The backfill's source rows are not updated while it runs, and the archive, trip, live and refresh phases are not modelled.
- Signature checks, status codes and cache invalidation of the webhook; linking of accounts. A webhook's customer lookup and its transaction are one step.
- The merging of the decoded families and the SQL that publishes them.
- LIKE matching is modelled with a fold of single characters, not with locale rules that change a text's length.
- Upper-casing of schedule relationships covers ASCII letters only.
- The order in which equally busy service pairs are added, and which of equally close pairs is bridged: any choice meets the contracts.
- Routes' ranking, limits, identifiers and caches around the shape queries.
- FeedVersions.FeedStore.ImportTransaction: the count checks are proved never to fail instead of being branches, because both passes read the same archive.
