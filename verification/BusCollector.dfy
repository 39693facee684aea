/** The collector as an object: its tables and its cache, updated step by step. */
module BusCollector {
  import opened Wrappers
  import opened BusFeed
  import opened Collector
  import ChangeLog
  import opened DelaySamples
  import opened PollOutcome
  import Histogram

  // ---- The loops of one poll ----

  method LoadStates(db: Database, feed: nat, now: int) returns (hashes: map<Key, StopState>)
    ensures hashes == Loaded(db, feed, now)
  {
    hashes := map[];
    var scanned: set<Key> := {};
    while scanned != db.live.Keys
      invariant scanned <= db.live.Keys
      invariant hashes.Keys == set k | k in scanned && k.feed == feed && FreshAt(db.freshness, TripOf(k), now)
      invariant forall k | k in hashes :: hashes[k] == db.live[k].state
      decreases db.live.Keys - scanned
    {
      var k :| k in db.live.Keys && k !in scanned;
      if k.feed == feed && TripOf(k) in db.freshness && db.freshness[TripOf(k)].lastSeenAt > now - LIVE_SECONDS {
        hashes := hashes[k := db.live[k].state];
      }
      scanned := scanned + {k};
    }
  }

  method CollectCurrent(feed: nat, updates: seq<StopUpdate>) returns (current: map<Key, StopUpdate>)
    ensures current == Current(feed, updates)
  {
    current := map[];
    for i := 0 to |updates|
      invariant current == Current(feed, updates[..i])
    {
      assert updates[..i + 1][..i] == updates[..i];
      current := current[KeyOf(feed, updates[i].state) := updates[i]];
    }
    assert updates[..|updates|] == updates;
  }

  method UpsertLiveRows(live: map<Key, LiveRow>, rows: map<Key, StopUpdate>, t: int) returns (after: map<Key, LiveRow>)
    ensures after == UpsertLive(live, rows, t)
  {
    after := live;
    var written: set<Key> := {};
    while written != rows.Keys
      invariant written <= rows.Keys
      invariant after.Keys == live.Keys + written
      invariant forall k | k in after :: after[k] == if k in written then UpsertRow(live, k, rows[k], t) else live[k]
      decreases rows.Keys - written
    {
      var k :| k in rows.Keys && k !in written;
      after := after[k := UpsertRow(after, k, rows[k], t)];
      written := written + {k};
    }
  }

  method UpsertFreshnessRows(freshness: map<FeedTrip, FreshRow>, feed: nat, trips: seq<Trip>, t: int)
    returns (after: map<FeedTrip, FreshRow>)
    ensures after == UpsertFreshness(freshness, feed, trips, t)
  {
    after := freshness;
    for i := 0 to |trips|
      invariant after == UpsertFreshness(freshness, feed, trips[..i], t)
    {
      assert trips[..i + 1][..i] == trips[..i];
      var key := FeedTrip(feed, trips[i].tripKey);
      after := after[key := FreshRow(t, Coalesce(trips[i].source, if key in after then after[key].source else None),
                                     trips[i].relationship)];
    }
    assert trips[..|trips|] == trips;
  }

  method AppendPresenceRows(presence: map<Presence, FreshRow>, feed: nat, trips: seq<Trip>, t: int)
    returns (after: map<Presence, FreshRow>)
    ensures after == AppendPresence(presence, feed, trips, t)
  {
    after := presence;
    for i := 0 to |trips|
      invariant after == AppendPresence(presence, feed, trips[..i], t)
    {
      assert trips[..i + 1][..i] == trips[..i];
      var key := Presence(t, FeedTrip(feed, trips[i].tripKey));
      if key !in after {
        after := after[key := FreshRow(t, trips[i].source, trips[i].relationship)];
      }
    }
    assert trips[..|trips|] == trips;
  }

  method AppendObservationRows(archive: map<Observed, ObservationRow>, feed: nat, rows: map<Key, StopUpdate>,
                               trips: seq<Trip>, t: int)
    returns (after: map<Observed, ObservationRow>)
    requires WellKeyed(feed, rows)
    ensures after == AppendObservations(archive, feed, rows, trips, t)
  {
    after := archive;
    var written: set<Key> := {};
    while written != rows.Keys
      invariant written <= rows.Keys
      invariant forall o :: o in after <==>
                  o in archive || (IsObservation(feed, rows, t, o) && KeyOf(feed, o.state) in written)
      invariant forall o | o in archive :: after[o] == archive[o]
      invariant forall o | o in after && o !in archive ::
                  after[o] == ObservationRow(rows[KeyOf(feed, o.state)].source, RelationshipOf(trips, o.state.tripKey))
      decreases rows.Keys - written
    {
      var k :| k in rows.Keys && k !in written;
      var o := Observed(t, feed, rows[k].state);
      if o !in after {
        after := after[o := ObservationRow(rows[k].source, RelationshipOf(trips, rows[k].state.tripKey))];
      }
      written := written + {k};
    }
  }

  method CollectHashes(current: map<Key, StopUpdate>) returns (hashes: map<Key, StopState>)
    ensures hashes == Hashes(current)
  {
    hashes := map[];
    var scanned: set<Key> := {};
    while scanned != current.Keys
      invariant scanned <= current.Keys && hashes.Keys == scanned
      invariant forall k | k in hashes :: hashes[k] == current[k].state
      decreases current.Keys - scanned
    {
      var k :| k in current.Keys && k !in scanned;
      hashes := hashes[k := current[k].state];
      scanned := scanned + {k};
    }
  }

  /** The trip was last seen more than a week ago, and the archive knows it. */
  predicate IsWeekOld(db: Database, now: int, trip: FeedTrip) {
    && trip in db.freshness && db.freshness[trip].lastSeenAt < now - 168 * 60 * 60
    && Presence(db.freshness[trip].lastSeenAt, trip) in db.presence
  }

  /** Live rows of trips not seen for half an hour go, as do up to 5000 of the trips that are a week old. */
  ghost predicate PruneOutcome(before: Database, now: int, expired: set<FeedTrip>, after: Database) {
    && (forall k :: k in after.live <==>
          && k in before.live && FeedTrip(k.feed, k.trip) in before.freshness
          && before.freshness[FeedTrip(k.feed, k.trip)].lastSeenAt >= now - 30 * 60)
    && (forall k | k in after.live :: after.live[k] == before.live[k])
    && (forall trip | trip in expired :: IsWeekOld(before, now, trip))
    && |expired| <= 5000 && (|expired| < 5000 ==> forall trip | IsWeekOld(before, now, trip) :: trip in expired)
    && (forall a, b | a in expired && IsWeekOld(before, now, b) && b !in expired ::
          before.freshness[a].lastSeenAt <= before.freshness[b].lastSeenAt)
    && (forall trip :: trip in after.freshness <==> trip in before.freshness && trip !in expired)
    && (forall trip | trip in after.freshness :: after.freshness[trip] == before.freshness[trip])
    && after.archive == before.archive && after.presence == before.presence
  }

  /** The samples of the expired trips go, and no others. */
  ghost predicate ExpiryOutcome(before: Samples, expired: set<FeedTrip>, after: Samples) {
    && (forall k :: k in after <==> k in before && FeedTrip(k.feed, k.trip) !in expired)
    && (forall k | k in after :: after[k] == before[k])
  }

  lemma ExpiryIsOutcome(samples: Samples, expired: set<FeedTrip>)
    ensures ExpiryOutcome(samples, expired, WithoutTrips(samples, expired))
  {}

  lemma PruneIsOutcome(db: Database, now: int, expired: set<FeedTrip>)
    requires ExpiryBatch(db, now, expired) && !db.legacyTable
    ensures PruneOutcome(db, now, expired, Pruned(db, now, expired))
  {
    assert forall trip :: IsWeekOld(db, now, trip) <==> trip in Expirable(db, now);
  }

  /** The oldest expired trips, one after the other, up to the batch limit. */
  method SelectExpired(db: Database, now: int) returns (expired: set<FeedTrip>)
    ensures ExpiryBatch(db, now, expired)
  {
    expired := {};
    var left := Expirable(db, now);
    ghost var all := left;
    while left != {} && |expired| < EXPIRY_BATCH
      invariant expired !! left && expired + left == all == Expirable(db, now)
      invariant |expired| <= EXPIRY_BATCH
      invariant forall a, b | a in expired && b in left :: db.freshness[a].lastSeenAt <= db.freshness[b].lastSeenAt
      decreases left
    {
      var oldest := Oldest(db.freshness, left);
      expired := expired + {oldest};
      left := left - {oldest};
    }
    if left == {} {
      assert expired == all;
    }
    assert Expirable(db, now) - expired == left;
  }

  method Oldest(freshness: map<FeedTrip, FreshRow>, trips: set<FeedTrip>) returns (oldest: FeedTrip)
    requires trips != {} && trips <= freshness.Keys
    ensures oldest in trips && forall t | t in trips :: freshness[oldest].lastSeenAt <= freshness[t].lastSeenAt
  {
    oldest :| oldest in trips;
    var scanned := {oldest};
    while scanned != trips
      invariant oldest in scanned && scanned <= trips
      invariant forall t | t in scanned :: freshness[oldest].lastSeenAt <= freshness[t].lastSeenAt
      decreases trips - scanned
    {
      var t :| t in trips && t !in scanned;
      if freshness[t].lastSeenAt < freshness[oldest].lastSeenAt {
        oldest := t;
      }
      scanned := scanned + {t};
    }
  }

  // ---- The other tables of the transaction ----

  method UpsertSampleRows(samples: Samples, routes: Routes, rows: map<Key, StopUpdate>, t: int) returns (after: Samples)
    ensures after == UpsertSamples(samples, routes, rows, t)
  {
    after := samples;
    var written: set<Key> := {};
    while written != rows.Keys
      invariant written <= rows.Keys
      invariant forall k :: k in after <==> k in samples || (k in written && HasSample(routes, k, rows[k].state))
      invariant forall k | k in after ::
                  after[k] == if k in written && HasSample(routes, k, rows[k].state)
                    then SampleOf(routes, k, rows[k].state, t) else samples[k]
      decreases rows.Keys - written
    {
      var k :| k in rows.Keys && k !in written;
      var s := rows[k].state;
      if DelayOf(s).Some? {
        var route := RouteOf(routes, k.feed, s);
        if route.Some? {
          after := after[k := Sample(route.value, DelayOf(s).value, t)];
        }
      }
      written := written + {k};
    }
  }

  /** The legacy table keeps one row for each state ever changed to. */
  datatype LegacyKey = LegacyKey(feed: nat, state: StopState)

  datatype LegacyRow = LegacyRow(source: Option<int>, fetchedAt: int, lastSeenAt: int)

  type LegacyRows = map<LegacyKey, LegacyRow>

  function LegacyUpsert(rows: LegacyRows, feed: nat, u: StopUpdate, t: int): LegacyRow {
    var key := LegacyKey(feed, u.state);
    if key in rows then LegacyRow(Coalesce(u.source, rows[key].source), rows[key].fetchedAt, t)
      else LegacyRow(u.source, t, t)
  }

  /** u is among the changed rows. */
  predicate IsChanged(rows: map<Key, StopUpdate>, feed: nat, s: StopState) {
    KeyOf(feed, s) in rows && rows[KeyOf(feed, s)].state == s
  }

  /** Changed states are inserted or seen again; no legacy row is removed or loses when it was first fetched. */
  ghost predicate IsLegacyUpsert(before: LegacyRows, after: LegacyRows, feed: nat, rows: map<Key, StopUpdate>, t: int) {
    && (forall key :: key in after <==> key in before || (key.feed == feed && IsChanged(rows, feed, key.state)))
    && forall key | key in after ::
         after[key] == if key.feed == feed && IsChanged(rows, feed, key.state)
                       then LegacyUpsert(before, feed, rows[KeyOf(feed, key.state)], t) else before[key]
  }

  ghost predicate IsLegacyStep(db: Database, mem: Memory, poll: Poll, isWritten: bool, before: LegacyRows,
                               after: LegacyRows) {
    if Commits(poll) && isWritten then IsLegacyUpsert(before, after, poll.feed, Rows(db, mem, poll), poll.fetchedAt)
    else after == before
  }

  /** Each written prediction has the row of its state, which keeps when it was first fetched; no other row changes. */
  ghost predicate LegacyOutcome(db: Database, mem: Memory, poll: Poll, before: LegacyRows, after: LegacyRows) {
    && (forall i | IsWritten(db, mem, poll, i) ::
          var u, key := poll.updates[i], LegacyKey(poll.feed, poll.updates[i].state);
          && key in after && after[key].lastSeenAt == poll.fetchedAt
          && after[key].fetchedAt == (if key in before then before[key].fetchedAt else poll.fetchedAt)
          && after[key].source == if key in before && u.source.None? then before[key].source else u.source)
    && before.Keys <= after.Keys
    && forall key | key in after && !(key in before && after[key] == before[key]) ::
         exists i :: IsWritten(db, mem, poll, i) && key == LegacyKey(poll.feed, poll.updates[i].state)
  }

  lemma LegacyIsOutcome(db: Database, mem: Memory, poll: Poll, before: LegacyRows, after: LegacyRows)
    requires IsSteady(db, mem, poll)
    requires IsLegacyUpsert(before, after, poll.feed, Rows(db, mem, poll), poll.fetchedAt)
    ensures LegacyOutcome(db, mem, poll, before, after)
  {
    forall i | IsWritten(db, mem, poll, i)
      ensures var s, rows := poll.updates[i].state, Rows(db, mem, poll);
              IsChanged(rows, poll.feed, s) && rows[KeyOf(poll.feed, s)] == poll.updates[i]
    {
      WrittenIsRow(db, mem, poll, i);
    }
    forall key | key in after && !(key in before && after[key] == before[key])
      ensures exists i :: IsWritten(db, mem, poll, i) && key == LegacyKey(poll.feed, poll.updates[i].state)
    {
      var i := RowIsWritten(db, mem, poll, KeyOf(key.feed, key.state));
    }
  }

  method UpsertLegacyRows(before: LegacyRows, feed: nat, rows: map<Key, StopUpdate>, t: int) returns (after: LegacyRows)
    requires WellKeyed(feed, rows)
    ensures IsLegacyUpsert(before, after, feed, rows, t)
  {
    after := before;
    var left := rows.Keys;
    while left != {}
      invariant left <= rows.Keys
      invariant IsLegacyUpsert(before, after, feed, rows - left, t)
      decreases left
    {
      var k :| k in left;
      var u := rows[k];
      assert KeyOf(feed, u.state) == k && LegacyUpsert(after, feed, u, t) == LegacyUpsert(before, feed, u, t);
      after := after[LegacyKey(feed, u.state) := LegacyUpsert(after, feed, u, t)];
      left := left - {k};
    }
    assert rows - left == rows;
  }

  /** The values of some keys of the poll's dictionary, in any order. */
  ghost function ValuesOf(current: map<Key, StopUpdate>, keys: set<Key>): multiset<StopUpdate>
    requires keys <= current.Keys
    decreases keys
  {
    if keys == {} then multiset{}
    else
      var k :| k in keys;
      multiset{current[k]} + ValuesOf(current, keys - {k})
  }

  lemma {:induction false} ValuesPick(current: map<Key, StopUpdate>, keys: set<Key>, k: Key)
    requires k in keys && keys <= current.Keys
    ensures ValuesOf(current, keys) == multiset{current[k]} + ValuesOf(current, keys - {k})
    decreases keys
  {
    var first :| first in keys && ValuesOf(current, keys) ==
      multiset{current[first]} + ValuesOf(current, keys - {first});
    if first == k {
    } else {
      ValuesPick(current, keys - {first}, k);
      ValuesPick(current, keys - {k}, first);
      assert keys - {first} - {k} == keys - {k} - {first};
    }
  }

  method ListValues(current: map<Key, StopUpdate>) returns (values: seq<StopUpdate>)
    ensures multiset(values) == ValuesOf(current, current.Keys)
  {
    values := [];
    var left := current.Keys;
    while left != {}
      invariant left <= current.Keys
      invariant multiset(values) + ValuesOf(current, left) == ValuesOf(current, current.Keys)
      decreases left
    {
      var k :| k in left;
      ValuesPick(current, left, k);
      values := values + [current[k]];
      left := left - {k};
    }
  }

  /** The stored histogram after a committed poll, which counts the current predictions in whatever order. */
  ghost predicate IsRecorded(before: Histogram.Store, after: Histogram.Store, poll: Poll) {
    var current := Current(poll.feed, poll.updates);
    forall values: seq<StopUpdate> | multiset(values) == ValuesOf(current, current.Keys) ::
      after == Histogram.Recorded(before, Histogram.PollId(poll.fetchedAt, poll.feed),
                                  Histogram.PollCounts(values, poll.trips))
  }

  method RecordHistogram(before: Histogram.Store, poll: Poll, current: map<Key, StopUpdate>)
    returns (after: Histogram.Store)
    requires current == Current(poll.feed, poll.updates)
    ensures IsRecorded(before, after, poll)
  {
    var listed := ListValues(current);
    var counts := Histogram.BusPollDelayHistogram(listed, poll.trips);
    after := Histogram.Recorded(before, Histogram.PollId(poll.fetchedAt, poll.feed), counts);
    forall values: seq<StopUpdate> | multiset(values) == ValuesOf(current, current.Keys)
      ensures Histogram.PollCounts(values, poll.trips) == counts
    {
      Histogram.CountsIgnoreOrder(values, listed, poll.trips);
    }
  }

  lemma {:induction false} CurrentIsReported(feed: nat, updates: seq<StopUpdate>, k: Key)
    requires k in Current(feed, updates)
    ensures Current(feed, updates)[k] in updates
    decreases |updates|
  {
    var past, last := updates[..|updates| - 1], updates[|updates| - 1];
    assert updates == past + [last];
    if k == KeyOf(feed, last.state) {
    } else {
      CurrentIsReported(feed, past, k);
    }
  }

  lemma {:induction false} ValueHasKey(current: map<Key, StopUpdate>, keys: set<Key>, u: StopUpdate) returns (k: Key)
    requires keys <= current.Keys && u in ValuesOf(current, keys)
    ensures k in keys && current[k] == u
    decreases keys
  {
    k :| k in keys && ValuesOf(current, keys) == multiset{current[k]} + ValuesOf(current, keys - {k});
    if current[k] == u {
    } else {
      k := ValueHasKey(current, keys - {k}, u);
    }
  }

  /**
   What a poll of a filtered feed records adds up: the routes to the network, the stops to the
   predictions that name one.
   */
  lemma RecordedCountsAddUp(feed: nat, updates: seq<StopUpdate>, trips: seq<Trip>, ids: Histogram.BusIds,
                            values: seq<StopUpdate>, stops: set<Histogram.Scope>, d: int)
    requires var current := Current(feed, Histogram.RoutedUpdates(updates, trips, ids));
             multiset(values) == ValuesOf(current, current.Keys)
    requires forall s | s in stops :: s.Stop?
    requires forall u | u in values && u.state.stopId.Some? :: Histogram.Stop(u.state.stopId.value) in stops
    ensures var busTrips := Histogram.RoutedTrips(trips, ids);
            var counts := Histogram.PollCounts(values, busTrips);
            && counts[Histogram.Cell(Histogram.Network, d)] == Histogram.Total(counts, Histogram.KnownRoutes(ids), d)
            && Histogram.Total(counts, stops, d) == Histogram.Counted(values, busTrips, d, Histogram.OnStop)
  {
    var routed := Histogram.RoutedUpdates(updates, trips, ids);
    forall u | u in values
      ensures u in routed
    {
      assert u in multiset(values);
      var k := ValueHasKey(Current(feed, routed), Current(feed, routed).Keys, u);
      CurrentIsReported(feed, routed, k);
    }
    Histogram.FilteredCountsAddUp(updates, trips, ids, values, stops, d);
  }

  // ---- The collector ----

  class BusDaemon {
    var db: Database
    var samples: Samples
    var legacy: LegacyRows
    var histogram: Histogram.Store
    var previousUpdateHashes: map<Key, StopState>
    var previousUpdateFeed: Option<nat>
    const routes: Routes
    const writeLegacyStopUpdates: bool

    ghost function Mem(): Memory
      reads this
    {
      Memory(previousUpdateHashes, previousUpdateFeed)
    }

    constructor (db: Database, samples: Samples, legacy: LegacyRows, histogram: Histogram.Store, routes: Routes,
                 writeLegacyStopUpdates: bool)
      ensures this.db == db && (db, Mem()) == Step(db, Memory(map[], None), Restarted)
      ensures this.samples == samples && this.legacy == legacy && this.histogram == histogram
      ensures this.routes == routes && this.writeLegacyStopUpdates == writeLegacyStopUpdates
    {
      this.db, this.samples, this.legacy, this.histogram := db, samples, legacy, histogram;
      this.routes, this.writeLegacyStopUpdates := routes, writeLegacyStopUpdates;
      previousUpdateHashes := map[];
      previousUpdateFeed := None;
    }

    /** A new process or a new feed starts from the saved states. */
    method LoadHashes(feed: nat, now: int)
      modifies this`previousUpdateHashes, this`previousUpdateFeed
      ensures Mem() == AfterLoad(db, old(Mem()), feed, now)
    {
      if previousUpdateFeed != Some(feed) {
        previousUpdateHashes := LoadStates(db, feed, now);
        previousUpdateFeed := Some(feed);
      }
    }

    method WriteTables(poll: Poll, rows: map<Key, StopUpdate>)
      requires WellKeyed(poll.feed, rows)
      modifies this`db
      ensures db == Written(old(db), poll, rows)
    {
      var live := UpsertLiveRows(db.live, rows, poll.fetchedAt);
      var freshness := UpsertFreshnessRows(db.freshness, poll.feed, poll.trips, poll.fetchedAt);
      var archive := AppendObservationRows(db.archive, poll.feed, rows, poll.trips, poll.fetchedAt);
      var presence := AppendPresenceRows(db.presence, poll.feed, poll.trips, poll.fetchedAt);
      db := Database(live, freshness, archive, presence, db.legacyTable);
    }

    method WriteOtherTables(poll: Poll, rows: map<Key, StopUpdate>, current: map<Key, StopUpdate>)
      requires WellKeyed(poll.feed, rows) && current == Current(poll.feed, poll.updates)
      modifies this`samples, this`legacy, this`histogram
      ensures samples == UpsertSamples(old(samples), routes, rows, poll.fetchedAt)
      ensures if writeLegacyStopUpdates then IsLegacyUpsert(old(legacy), legacy, poll.feed, rows, poll.fetchedAt)
              else legacy == old(legacy)
      ensures IsRecorded(old(histogram), histogram, poll)
    {
      if writeLegacyStopUpdates {
        legacy := UpsertLegacyRows(legacy, poll.feed, rows, poll.fetchedAt);
      }
      samples := UpsertSampleRows(samples, routes, rows, poll.fetchedAt);
      histogram := RecordHistogram(histogram, poll, current);
    }

    /** None stands for a transaction that failed and was rolled back. */
    method InsertTripUpdates(poll: Poll) returns (changed: Option<nat>)
      modifies this
      ensures (db, Mem()) == Step(old(db), old(Mem()), Polled(poll))
      ensures samples == SampleStep(old(samples), routes, old(db), old(Mem()), Polled(poll))
      ensures IsLegacyStep(old(db), old(Mem()), poll, writeLegacyStopUpdates, old(legacy), legacy)
      ensures if Commits(poll) then IsRecorded(old(histogram), histogram, poll) else histogram == old(histogram)
      ensures changed == if Commits(poll) then Some(|Rows(old(db), old(Mem()), poll)|) else None
      ensures changed.Some? <==> poll.commits || (poll.updates == [] && poll.trips == [])
      ensures changed.None? ==> db == old(db) && samples == old(samples) && legacy == old(legacy)
      ensures changed.Some? && IsSteady(old(db), old(Mem()), poll) ==>
                && IsOutcome(old(db), old(Mem()), poll, db, Mem())
                && SamplesOutcome(old(db), old(Mem()), poll, routes, old(samples), samples)
                && (writeLegacyStopUpdates ==> LegacyOutcome(old(db), old(Mem()), poll, old(legacy), legacy))
    {
      changed := WritePoll(poll);
      if changed.Some? && IsSteady(old(db), old(Mem()), poll) {
        CommitIsOutcome(old(db), old(Mem()), poll);
        SamplesAreOutcome(old(db), old(Mem()), poll, routes, old(samples));
        if writeLegacyStopUpdates {
          LegacyIsOutcome(old(db), old(Mem()), poll, old(legacy), legacy);
        }
      }
    }

    method WritePoll(poll: Poll) returns (changed: Option<nat>)
      modifies this
      ensures (db, Mem()) == Step(old(db), old(Mem()), Polled(poll))
      ensures samples == SampleStep(old(samples), routes, old(db), old(Mem()), Polled(poll))
      ensures IsLegacyStep(old(db), old(Mem()), poll, writeLegacyStopUpdates, old(legacy), legacy)
      ensures if Commits(poll) then IsRecorded(old(histogram), histogram, poll) else histogram == old(histogram)
      ensures changed == if Commits(poll) then Some(|Rows(old(db), old(Mem()), poll)|) else None
    {
      LoadHashes(poll.feed, poll.now);
      var current := CollectCurrent(poll.feed, poll.updates);
      CurrentWellKeyed(poll.feed, poll.updates);
      var rows := Changed(previousUpdateHashes, current);
      if !Commits(poll) {
        return None;
      }
      WriteTables(poll, rows);
      WriteOtherTables(poll, rows, current);
      previousUpdateHashes := CollectHashes(current);
      changed := Some(|rows|);
    }

    /** After a static refresh only the hashes of the active feed are kept. */
    method KeepActiveFeed(feed: nat)
      modifies this`previousUpdateHashes
      ensures (db, Mem()) == Step(old(db), old(Mem()), FeedRefreshed(feed))
      ensures forall k :: k in previousUpdateHashes <==> k in old(previousUpdateHashes) && k.feed == feed
      ensures forall k | k in previousUpdateHashes :: previousUpdateHashes[k] == old(previousUpdateHashes)[k]
      ensures old(ChangeLog.Mirrors(db, Mem())) ==> ChangeLog.Mirrors(db, Mem())
    {
      var kept: map<Key, StopState> := map[];
      var scanned: set<Key> := {};
      while scanned != previousUpdateHashes.Keys
        invariant scanned <= previousUpdateHashes.Keys
        invariant forall k :: k in kept <==> k in scanned && k.feed == feed
        invariant forall k | k in kept :: kept[k] == previousUpdateHashes[k]
        decreases previousUpdateHashes.Keys - scanned
      {
        var k :| k in previousUpdateHashes.Keys && k !in scanned;
        if k.feed == feed {
          kept := kept[k := previousUpdateHashes[k]];
        }
        scanned := scanned + {k};
      }
      assert kept == KeepFeed(previousUpdateHashes, feed);
      previousUpdateHashes := kept;
    }

    method PruneWorkingTables(now: int) returns (expired: set<FeedTrip>)
      modifies this
      ensures (db, Mem()) == Step(old(db), old(Mem()), Swept(now, expired))
      ensures samples == SampleStep(old(samples), routes, old(db), old(Mem()), Swept(now, expired))
      ensures legacy == old(legacy) && histogram == old(histogram)
      ensures if old(db).legacyTable then db == old(db) && samples == old(samples)
              else PruneOutcome(old(db), now, expired, db) && ExpiryOutcome(old(samples), expired, samples)
    {
      expired := {};
      if db.legacyTable {
        return;
      }
      expired := SelectExpired(db, now);
      DeleteExpired(now, expired);
      PruneIsOutcome(old(db), now, expired);
      ExpiryIsOutcome(old(samples), expired);
    }

    method DeleteExpired(now: int, expired: set<FeedTrip>)
      requires !db.legacyTable
      modifies this`db, this`samples
      ensures db == Pruned(old(db), now, expired)
      ensures samples == WithoutTrips(old(samples), expired)
    {
      samples := samples - set k | k in samples && TripOf(k) in expired;
      db := db.(live := PruneLive(db.live, db.freshness, now), freshness := db.freshness - expired);
    }
  }
}
