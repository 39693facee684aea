/**
 What one committed poll leaves behind, told by its predictions and trips: the row, the
 observation and the sample of each stop, and the freshness and presence of each trip.
 */
module PollOutcome {
  import opened Wrappers
  import opened BusFeed
  import opened Collector
  import opened ChangeLog
  import opened DelaySamples

  // ---- The predictions that count ----

  /** The same stop of the same trip. */
  predicate SameStop(a: StopState, b: StopState) {
    a.tripKey == b.tripKey && a.stopSequence == b.stopSequence && (a.stopSequence.None? ==> a.stopId == b.stopId)
  }

  /** No later prediction is for the same stop. */
  predicate IsFinal(updates: seq<StopUpdate>, i: int) {
    0 <= i < |updates| && forall j | i < j < |updates| :: !SameStop(updates[j].state, updates[i].state)
  }

  /**
   The state is already known: the process remembers it or, when it is new or the feed is, a live
   row of a trip seen within half an hour has it.
   */
  ghost predicate IsKnown(db: Database, mem: Memory, poll: Poll, s: StopState) {
    if mem.feed == Some(poll.feed) then exists k :: k in mem.hashes && k.feed == poll.feed && mem.hashes[k] == s
    else
      && FeedTrip(poll.feed, s.tripKey) in db.freshness
      && db.freshness[FeedTrip(poll.feed, s.tripKey)].lastSeenAt > poll.now - 1800
      && exists k :: k in db.live && k.feed == poll.feed && db.live[k].state == s
  }

  /** The prediction is written: no later one is for its stop, and its state is news. */
  ghost predicate IsWritten(db: Database, mem: Memory, poll: Poll, i: int) {
    IsFinal(poll.updates, i) && !IsKnown(db, mem, poll, poll.updates[i].state)
  }

  lemma {:induction false} CurrentIsFinal(feed: nat, updates: seq<StopUpdate>, k: Key) returns (i: int)
    requires k in Current(feed, updates)
    ensures IsFinal(updates, i) && KeyOf(feed, updates[i].state) == k && Current(feed, updates)[k] == updates[i]
    decreases |updates|
  {
    i := |updates| - 1;
    if KeyOf(feed, updates[i].state) == k {
    } else {
      var past, last := updates[..i], updates[i];
      i := CurrentIsFinal(feed, past, k);
      KeysTellStopsApart(feed, last.state, feed, past[i].state);
      assert forall j | 0 <= j < |past| :: past[j] == updates[j];
    }
  }

  lemma {:induction false} FinalIsCurrent(feed: nat, updates: seq<StopUpdate>, i: int)
    requires IsFinal(updates, i)
    ensures var k := KeyOf(feed, updates[i].state);
            k in Current(feed, updates) && Current(feed, updates)[k] == updates[i]
    decreases |updates|
  {
    var n := |updates| - 1;
    if i >= n {
    } else {
      assert forall j | 0 <= j < n :: updates[..n][j] == updates[j];
      FinalIsCurrent(feed, updates[..n], i);
      KeysTellStopsApart(feed, updates[n].state, feed, updates[i].state);
    }
  }

  /** Where the cache and the live table mirror the archive, keys are those of the states. */
  lemma MirrorsKeys(db: Database, mem: Memory)
    requires Mirrors(db, mem)
    ensures forall k | k in mem.hashes :: KeyOf(k.feed, mem.hashes[k]) == k
    ensures forall k | k in db.live :: KeyOf(k.feed, db.live[k].state) == k
  {
    forall k, s | NewestIs(db.archive, k, s)
      ensures KeyOf(k.feed, s) == k
    {
      var o :| o in db.archive && About(o, k) && o.state == s &&
               forall p | p in db.archive && About(p, k) :: p == o || p.fetchedAt < o.fetchedAt;
    }
  }

  lemma KnownIsUnchanged(db: Database, mem: Memory, poll: Poll, u: StopUpdate)
    requires Mirrors(db, mem)
    ensures IsUnchanged(AfterLoad(db, mem, poll.feed, poll.now).hashes, KeyOf(poll.feed, u.state), u) <==>
            IsKnown(db, mem, poll, u.state)
  {
    MirrorsKeys(db, mem);
    KeysTellStopsApart(poll.feed, u.state, poll.feed, u.state);
  }

  ghost function Rows(db: Database, mem: Memory, poll: Poll): map<Key, StopUpdate> {
    Changed(AfterLoad(db, mem, poll.feed, poll.now).hashes, Current(poll.feed, poll.updates))
  }

  /** The changed rows are the written predictions. */
  lemma RowIsWritten(db: Database, mem: Memory, poll: Poll, k: Key) returns (i: int)
    requires Mirrors(db, mem) && k in Rows(db, mem, poll)
    ensures IsWritten(db, mem, poll, i) && KeyOf(poll.feed, poll.updates[i].state) == k
    ensures Rows(db, mem, poll)[k] == poll.updates[i]
  {
    i := CurrentIsFinal(poll.feed, poll.updates, k);
    KnownIsUnchanged(db, mem, poll, poll.updates[i]);
  }

  lemma WrittenIsRow(db: Database, mem: Memory, poll: Poll, i: int)
    requires Mirrors(db, mem) && IsWritten(db, mem, poll, i)
    ensures var k := KeyOf(poll.feed, poll.updates[i].state);
            k in Rows(db, mem, poll) && Rows(db, mem, poll)[k] == poll.updates[i]
  {
    FinalIsCurrent(poll.feed, poll.updates, i);
    KnownIsUnchanged(db, mem, poll, poll.updates[i]);
  }

  // ---- Live rows ----

  /** The row that a written prediction leaves; a repeated state keeps the time it was first fetched. */
  predicate IsRowOf(before: map<Key, LiveRow>, k: Key, row: LiveRow, u: StopUpdate, t: int) {
    && row.state == u.state && row.lastSeenAt == t
    && if k in before && before[k].state == u.state
       then row.fetchedAt == before[k].fetchedAt && row.source == if u.source.Some? then u.source else before[k].source
       else row.fetchedAt == t && row.source == u.source
  }

  /** Each written prediction has its row, and no other row has changed. */
  ghost predicate LiveOutcome(db: Database, mem: Memory, poll: Poll, after: map<Key, LiveRow>) {
    && db.live.Keys <= after.Keys
    && (forall i | IsWritten(db, mem, poll, i) ::
          exists k :: k in after && k.feed == poll.feed &&
            IsRowOf(db.live, k, after[k], poll.updates[i], poll.fetchedAt))
    && (forall k | k in after && !(k in db.live && after[k] == db.live[k]) ::
          exists i :: IsWritten(db, mem, poll, i) && k.feed == poll.feed && after[k].state == poll.updates[i].state)
  }

  lemma LiveIsOutcome(db: Database, mem: Memory, poll: Poll)
    requires Mirrors(db, mem)
    ensures LiveOutcome(db, mem, poll, UpsertLive(db.live, Rows(db, mem, poll), poll.fetchedAt))
  {
    var rows := Rows(db, mem, poll);
    var after := UpsertLive(db.live, rows, poll.fetchedAt);
    forall i | IsWritten(db, mem, poll, i)
      ensures exists k :: k in after && k.feed == poll.feed &&
                          IsRowOf(db.live, k, after[k], poll.updates[i], poll.fetchedAt)
    {
      WrittenIsRow(db, mem, poll, i);
      assert KeyOf(poll.feed, poll.updates[i].state) in after;
    }
    forall k | k in after && !(k in db.live && after[k] == db.live[k])
      ensures exists i :: IsWritten(db, mem, poll, i) && k.feed == poll.feed && after[k].state == poll.updates[i].state
    {
      var i := RowIsWritten(db, mem, poll, k);
    }
  }

  // ---- The archive ----

  predicate IsLastTrip(trips: seq<Trip>, tripKey: string, j: int) {
    0 <= j < |trips| && trips[j].tripKey == tripKey && forall l | j < l < |trips| :: trips[l].tripKey != tripKey
  }

  predicate HasTrip(trips: seq<Trip>, tripKey: string) {
    exists j | 0 <= j < |trips| :: trips[j].tripKey == tripKey
  }

  lemma {:induction false} RelationshipIsLast(trips: seq<Trip>, tripKey: string)
    ensures !HasTrip(trips, tripKey) ==> RelationshipOf(trips, tripKey) == "SCHEDULED"
    ensures forall j | IsLastTrip(trips, tripKey, j) :: RelationshipOf(trips, tripKey) == trips[j].relationship
    decreases |trips|
  {
    if trips == [] || trips[|trips| - 1].tripKey == tripKey {
    } else {
      var past := trips[..|trips| - 1];
      RelationshipIsLast(past, tripKey);
      assert forall j | IsLastTrip(trips, tripKey, j) :: IsLastTrip(past, tripKey, j);
    }
  }

  /** The observation of a written prediction, with the relationship the poll gives its trip. */
  ghost predicate IsRecordOf(row: ObservationRow, u: StopUpdate, trips: seq<Trip>) {
    && row.source == u.source
    && (!HasTrip(trips, u.state.tripKey) ==> row.tripRelationship == "SCHEDULED")
    && forall j | IsLastTrip(trips, u.state.tripKey, j) :: row.tripRelationship == trips[j].relationship
  }

  /** Old observations stay as they are; what is new are the written predictions. */
  ghost predicate ArchiveOutcome(db: Database, mem: Memory, poll: Poll, after: Archive) {
    && (forall o | o in db.archive :: o in after && after[o] == db.archive[o])
    && (forall i | IsWritten(db, mem, poll, i) ::
          var o := Observed(poll.fetchedAt, poll.feed, poll.updates[i].state);
          o in after && (o !in db.archive ==> IsRecordOf(after[o], poll.updates[i], poll.trips)))
    && (forall o | o in after && o !in db.archive ::
          exists i :: IsWritten(db, mem, poll, i) && o == Observed(poll.fetchedAt, poll.feed, poll.updates[i].state))
  }

  lemma ArchiveIsOutcome(db: Database, mem: Memory, poll: Poll)
    requires Mirrors(db, mem) && WellKeyed(poll.feed, Rows(db, mem, poll))
    ensures ArchiveOutcome(db, mem, poll,
                           AppendObservations(db.archive, poll.feed, Rows(db, mem, poll), poll.trips, poll.fetchedAt))
  {
    var after := AppendObservations(db.archive, poll.feed, Rows(db, mem, poll), poll.trips, poll.fetchedAt);
    forall i | IsWritten(db, mem, poll, i)
      ensures var o := Observed(poll.fetchedAt, poll.feed, poll.updates[i].state);
              o in after && (o !in db.archive ==> IsRecordOf(after[o], poll.updates[i], poll.trips))
    {
      WrittenIsRow(db, mem, poll, i);
      RelationshipIsLast(poll.trips, poll.updates[i].state.tripKey);
      assert IsObservation(poll.feed, Rows(db, mem, poll), poll.fetchedAt,
                           Observed(poll.fetchedAt, poll.feed, poll.updates[i].state));
    }
    forall o | o in after && o !in db.archive
      ensures exists i ::
                IsWritten(db, mem, poll, i) && o == Observed(poll.fetchedAt, poll.feed, poll.updates[i].state)
    {
      var i := RowIsWritten(db, mem, poll, KeyOf(o.feed, o.state));
    }
  }

  /** Of all observations of the stop, the newest has this state. */
  ghost predicate IsNewestOfStop(archive: Archive, feed: nat, s: StopState) {
    exists o :: o in archive && o.feed == feed && o.state == s &&
                forall p | p in archive && p.feed == feed && SameStop(p.state, s) :: p == o || p.fetchedAt < o.fetchedAt
  }

  lemma NewestOfStop(archive: Archive, feed: nat, s: StopState)
    ensures NewestIs(archive, KeyOf(feed, s), s) <==> IsNewestOfStop(archive, feed, s)
  {
    forall o: Observed
      ensures About(o, KeyOf(feed, s)) <==> o.feed == feed && SameStop(o.state, s)
    {
      KeysTellStopsApart(o.feed, o.state, feed, s);
    }
  }

  // ---- Trips ----

  /** The source timestamp: the last one given, or else the stored one. */
  ghost predicate IsSourceOf(stored: Option<int>, trips: seq<Trip>, tripKey: string, source: Option<int>) {
    || (exists j :: 0 <= j < |trips| && trips[j].tripKey == tripKey && trips[j].source == source && source.Some? &&
                    forall l | j < l < |trips| && trips[l].tripKey == tripKey :: trips[l].source.None?)
    || (source == stored && forall l | 0 <= l < |trips| && trips[l].tripKey == tripKey :: trips[l].source.None?)
  }

  function Stored(before: map<FeedTrip, FreshRow>, key: FeedTrip): Option<int> {
    if key in before then before[key].source else None
  }

  lemma SourceStep(stored: Option<int>, trips: seq<Trip>, tripKey: string, source: Option<int>)
    requires trips != [] && IsSourceOf(stored, trips[..|trips| - 1], tripKey, source)
    ensures var last := trips[|trips| - 1];
            IsSourceOf(stored, trips, tripKey,
                       if last.tripKey == tripKey then Coalesce(last.source, source) else source)
  {
    var n := |trips| - 1;
    assert forall j | 0 <= j < n :: trips[..n][j] == trips[j];
  }

  /** A reported trip has just been seen, as its last entry says; no other row has changed. */
  ghost predicate IsFreshened(before: map<FeedTrip, FreshRow>, feed: nat, trips: seq<Trip>, t: int,
                              after: map<FeedTrip, FreshRow>, key: FeedTrip) {
    if key.feed == feed && HasTrip(trips, key.trip)
    then
      && key in after && after[key].lastSeenAt == t
      && IsSourceOf(Stored(before, key), trips, key.trip, after[key].source)
      && forall j | IsLastTrip(trips, key.trip, j) :: after[key].relationship == trips[j].relationship
    else (key in after <==> key in before) && (key in after ==> after[key] == before[key])
  }

  ghost predicate FreshnessOutcome(before: map<FeedTrip, FreshRow>, feed: nat, trips: seq<Trip>, t: int,
                                   after: map<FeedTrip, FreshRow>) {
    forall key :: IsFreshened(before, feed, trips, t, after, key)
  }

  lemma {:induction false} FreshnessIsOutcome(before: map<FeedTrip, FreshRow>, feed: nat, trips: seq<Trip>, t: int)
    ensures FreshnessOutcome(before, feed, trips, t, UpsertFreshness(before, feed, trips, t))
    decreases |trips|
  {
    if trips == [] {
    } else {
      FreshnessIsOutcome(before, feed, trips[..|trips| - 1], t);
      forall key
        ensures IsFreshened(before, feed, trips, t, UpsertFreshness(before, feed, trips, t), key)
      {
        FreshnessStep(before, feed, trips, t, UpsertFreshness(before, feed, trips[..|trips| - 1], t), key);
      }
    }
  }

  /** One more trip only changes its own row. */
  lemma FreshnessStep(before: map<FeedTrip, FreshRow>, feed: nat, trips: seq<Trip>, t: int,
                      rows: map<FeedTrip, FreshRow>, key: FeedTrip)
    requires trips != [] && IsFreshened(before, feed, trips[..|trips| - 1], t, rows, key)
    ensures var last := trips[|trips| - 1];
            var own := FeedTrip(feed, last.tripKey);
            IsFreshened(before, feed, trips, t,
                        rows[own := FreshRow(t, Coalesce(last.source, Stored(rows, own)), last.relationship)], key)
  {
    var n := |trips| - 1;
    var past := trips[..n];
    assert forall j | 0 <= j < n :: past[j] == trips[j];
    assert HasTrip(trips, key.trip) <==> HasTrip(past, key.trip) || trips[n].tripKey == key.trip;
    if key.feed == feed {
      SourceStep(Stored(before, key), trips, key.trip, Stored(rows, key));
    }
    if trips[n].tripKey != key.trip {
      assert forall j | IsLastTrip(trips, key.trip, j) :: IsLastTrip(past, key.trip, j);
    }
  }

  predicate IsFirstTrip(trips: seq<Trip>, tripKey: string, j: int) {
    0 <= j < |trips| && trips[j].tripKey == tripKey && forall l | 0 <= l < j :: trips[l].tripKey != tripKey
  }

  /** An old presence stays; a reported trip is present, as its first entry says. */
  ghost predicate IsPresent(before: map<Presence, FreshRow>, feed: nat, trips: seq<Trip>, t: int,
                            after: map<Presence, FreshRow>, p: Presence) {
    if p in before then p in after && after[p] == before[p]
    else
      && (p in after <==> p.lastSeenAt == t && p.trip.feed == feed && HasTrip(trips, p.trip.trip))
      && (p in after ==> forall j | IsFirstTrip(trips, p.trip.trip, j) ::
            after[p] == FreshRow(t, trips[j].source, trips[j].relationship))
  }

  ghost predicate PresenceOutcome(before: map<Presence, FreshRow>, feed: nat, trips: seq<Trip>, t: int,
                                  after: map<Presence, FreshRow>) {
    forall p :: IsPresent(before, feed, trips, t, after, p)
  }

  lemma {:induction false} PresenceIsOutcome(before: map<Presence, FreshRow>, feed: nat, trips: seq<Trip>, t: int)
    ensures PresenceOutcome(before, feed, trips, t, AppendPresence(before, feed, trips, t))
    decreases |trips|
  {
    if trips == [] {
    } else {
      PresenceIsOutcome(before, feed, trips[..|trips| - 1], t);
      forall p
        ensures IsPresent(before, feed, trips, t, AppendPresence(before, feed, trips, t), p)
      {
        PresenceStep(before, feed, trips, t, AppendPresence(before, feed, trips[..|trips| - 1], t), p);
      }
    }
  }

  /** One more trip only adds its own presence, unless that is there. */
  lemma PresenceStep(before: map<Presence, FreshRow>, feed: nat, trips: seq<Trip>, t: int,
                     rows: map<Presence, FreshRow>, p: Presence)
    requires trips != [] && IsPresent(before, feed, trips[..|trips| - 1], t, rows, p)
    ensures var last := trips[|trips| - 1];
            var own := Presence(t, FeedTrip(feed, last.tripKey));
            var row := FreshRow(t, last.source, last.relationship);
            IsPresent(before, feed, trips, t, if own in rows then rows else rows[own := row], p)
  {
    var n := |trips| - 1;
    var past := trips[..n];
    assert forall j | 0 <= j < n :: past[j] == trips[j];
    assert HasTrip(trips, p.trip.trip) <==> HasTrip(past, p.trip.trip) || trips[n].tripKey == p.trip.trip;
    forall j | IsFirstTrip(trips, p.trip.trip, j)
      ensures IsFirstTrip(past, p.trip.trip, j) || (j == n && !HasTrip(past, p.trip.trip))
    {}
  }

  // ---- Samples ----

  /** The departure's delay, or else the arrival's. */
  predicate IsDelayed(s: StopState, delay: int) {
    if s.departureDelay.Some? then s.departureDelay.value == delay else s.arrivalDelay == Some(delay)
  }

  /** The prediction's own route, or else its scheduled trip's. */
  predicate IsOnRoute(routes: Routes, feed: nat, s: StopState, route: string) {
    if s.routeId.Some? then s.routeId.value == route
    else
      && s.tripId.Some? && TripId(feed, s.tripId.value) in routes
      && routes[TripId(feed, s.tripId.value)] == route
  }

  predicate IsSampleOf(routes: Routes, feed: nat, s: StopState, t: int, sample: Sample) {
    IsOnRoute(routes, feed, s, sample.route) && IsDelayed(s, sample.delay) && sample.lastSeenAt == t
  }

  ghost predicate LeavesSample(routes: Routes, feed: nat, s: StopState, t: int, after: Samples) {
    forall route, delay | IsOnRoute(routes, feed, s, route) && IsDelayed(s, delay) ::
      KeyOf(feed, s) in after && after[KeyOf(feed, s)] == Sample(route, delay, t)
  }

  /** A written prediction with a delay and a route leaves its sample; no other sample has changed. */
  ghost predicate SamplesOutcome(db: Database, mem: Memory, poll: Poll, routes: Routes, before: Samples,
                                 after: Samples) {
    && before.Keys <= after.Keys
    && (forall i | IsWritten(db, mem, poll, i) ::
          LeavesSample(routes, poll.feed, poll.updates[i].state, poll.fetchedAt, after))
    && (forall k | k in after && !(k in before && after[k] == before[k]) ::
          exists i :: IsWritten(db, mem, poll, i) && k == KeyOf(poll.feed, poll.updates[i].state) &&
                      IsSampleOf(routes, poll.feed, poll.updates[i].state, poll.fetchedAt, after[k]))
  }

  lemma SampleIsRight(routes: Routes, k: Key, s: StopState, t: int)
    requires HasSample(routes, k, s)
    ensures IsSampleOf(routes, k.feed, s, t, SampleOf(routes, k, s, t))
  {}

  lemma SampleIsLeft(samples: Samples, routes: Routes, rows: map<Key, StopUpdate>, feed: nat, s: StopState, t: int)
    requires KeyOf(feed, s) in rows && rows[KeyOf(feed, s)].state == s
    ensures LeavesSample(routes, feed, s, t, UpsertSamples(samples, routes, rows, t))
  {}

  lemma SamplesAreOutcome(db: Database, mem: Memory, poll: Poll, routes: Routes, before: Samples)
    requires IsSteady(db, mem, poll)
    ensures SamplesOutcome(db, mem, poll, routes, before,
                           UpsertSamples(before, routes, Rows(db, mem, poll), poll.fetchedAt))
  {
    var rows, t := Rows(db, mem, poll), poll.fetchedAt;
    var after := UpsertSamples(before, routes, rows, t);
    forall i | IsWritten(db, mem, poll, i)
      ensures LeavesSample(routes, poll.feed, poll.updates[i].state, t, after)
    {
      WrittenIsRow(db, mem, poll, i);
      SampleIsLeft(before, routes, rows, poll.feed, poll.updates[i].state, t);
    }
    forall k | k in after && !(k in before && after[k] == before[k])
      ensures exists i :: IsWritten(db, mem, poll, i) && k == KeyOf(poll.feed, poll.updates[i].state) &&
                          IsSampleOf(routes, poll.feed, poll.updates[i].state, t, after[k])
    {
      var i := RowIsWritten(db, mem, poll, k);
      SampleIsRight(routes, k, rows[k].state, t);
    }
  }

  // ---- The whole poll ----

  /** The process remembers the final predictions of the poll and nothing else. */
  ghost predicate MemoryOutcome(poll: Poll, after: Memory) {
    && after.feed == Some(poll.feed)
    && forall k, s :: IsFinalState(poll.feed, poll.updates, k, s) <==> k in after.hashes && after.hashes[k] == s
  }

  ghost predicate IsFinalState(feed: nat, updates: seq<StopUpdate>, k: Key, s: StopState) {
    exists i :: IsFinal(updates, i) && updates[i].state == s && k == KeyOf(feed, s)
  }

  /** The cache and the live table mirror the archive, and the clock has advanced since the last poll. */
  ghost predicate IsSteady(db: Database, mem: Memory, poll: Poll) {
    Mirrors(db, mem) && Older(db.archive, poll.fetchedAt)
  }

  ghost predicate IsOutcome(db: Database, mem: Memory, poll: Poll, after: Database, mem': Memory) {
    && LiveOutcome(db, mem, poll, after.live)
    && ArchiveOutcome(db, mem, poll, after.archive)
    && (forall i | IsFinal(poll.updates, i) :: IsNewestOfStop(after.archive, poll.feed, poll.updates[i].state))
    && FreshnessOutcome(db.freshness, poll.feed, poll.trips, poll.fetchedAt, after.freshness)
    && PresenceOutcome(db.presence, poll.feed, poll.trips, poll.fetchedAt, after.presence)
    && after.legacyTable == db.legacyTable && MemoryOutcome(poll, mem')
  }

  lemma HashesAreFinal(feed: nat, updates: seq<StopUpdate>, k: Key, s: StopState)
    ensures IsFinalState(feed, updates, k, s) <==>
            k in Current(feed, updates) && Current(feed, updates)[k].state == s
  {
    if k in Current(feed, updates) && Current(feed, updates)[k].state == s {
      var i := CurrentIsFinal(feed, updates, k);
    }
    if i :| IsFinal(updates, i) && updates[i].state == s && k == KeyOf(feed, s) {
      FinalIsCurrent(feed, updates, i);
    }
  }

  lemma MemoryIsOutcome(poll: Poll)
    ensures MemoryOutcome(poll, Memory(Hashes(Current(poll.feed, poll.updates)), Some(poll.feed)))
  {
    forall k, s {
      HashesAreFinal(poll.feed, poll.updates, k, s);
    }
  }

  /**
   On a consistent collector whose clock has advanced, a committed poll writes exactly its news, and
   each of its final predictions is the newest observation of its stop.
   */
  lemma CommitIsOutcome(db: Database, mem: Memory, poll: Poll)
    requires IsSteady(db, mem, poll) && Commits(poll)
    ensures var (after, mem') := InsertTripUpdates(db, mem, poll); IsOutcome(db, mem, poll, after, mem')
  {
    CurrentWellKeyed(poll.feed, poll.updates);
    LiveIsOutcome(db, mem, poll);
    ArchiveIsOutcome(db, mem, poll);
    FreshnessIsOutcome(db.freshness, poll.feed, poll.trips, poll.fetchedAt);
    PresenceIsOutcome(db.presence, poll.feed, poll.trips, poll.fetchedAt);
    MemoryIsOutcome(poll);
    FinalIsNewest(db, mem, poll);
  }

  lemma FinalIsNewest(db: Database, mem: Memory, poll: Poll)
    requires IsSteady(db, mem, poll) && Commits(poll)
    ensures forall i | IsFinal(poll.updates, i) ::
              IsNewestOfStop(InsertTripUpdates(db, mem, poll).0.archive, poll.feed, poll.updates[i].state)
  {
    CommitMirrors(db, mem, poll);
    forall i | IsFinal(poll.updates, i)
      ensures IsNewestOfStop(InsertTripUpdates(db, mem, poll).0.archive, poll.feed, poll.updates[i].state)
    {
      var s := poll.updates[i].state;
      FinalIsCurrent(poll.feed, poll.updates, i);
      NewestOfStop(InsertTripUpdates(db, mem, poll).0.archive, poll.feed, s);
    }
  }
}
