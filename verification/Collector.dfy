/**
 The bus collector's write path: a cache of state hashes decides which predictions reach
 the live table and the append-only archive.
 */
module Collector {
  import opened Wrappers
  import opened BusFeed

  const LIVE_SECONDS := 30 * 60
  const SAMPLE_SECONDS := 168 * 3600
  const EXPIRY_BATCH: nat := 5000

  datatype LiveRow = LiveRow(state: StopState, source: Option<int>, fetchedAt: int, lastSeenAt: int)

  datatype FreshRow = FreshRow(lastSeenAt: int, source: Option<int>, relationship: string)

  /** The identity of an archived observation. */
  datatype Observed = Observed(fetchedAt: int, feed: nat, state: StopState)

  datatype ObservationRow = ObservationRow(source: Option<int>, tripRelationship: string)

  datatype Presence = Presence(lastSeenAt: int, trip: FeedTrip)

  datatype Database = Database(
    live: map<Key, LiveRow>,
    freshness: map<FeedTrip, FreshRow>,
    archive: map<Observed, ObservationRow>,
    presence: map<Presence, FreshRow>,
    legacyTable: bool)

  /** What the daemon process remembers between polls. */
  datatype Memory = Memory(hashes: map<Key, StopState>, feed: Option<nat>)

  datatype Poll = Poll(feed: nat, updates: seq<StopUpdate>, trips: seq<Trip>, fetchedAt: int, now: int, commits: bool)

  // ---- One poll ----

  ghost predicate FreshAt(freshness: map<FeedTrip, FreshRow>, trip: FeedTrip, now: int) {
    trip in freshness && freshness[trip].lastSeenAt > now - LIVE_SECONDS
  }

  /** A new process, or a new feed, reloads the hashes of the live rows whose trips are fresh. */
  ghost function Loaded(db: Database, feed: nat, now: int): (hashes: map<Key, StopState>)
    ensures hashes.Keys == set k | k in db.live && k.feed == feed && FreshAt(db.freshness, TripOf(k), now)
    ensures forall k | k in hashes :: hashes[k] == db.live[k].state
  {
    StatesOf(db.live, set k | k in db.live && k.feed == feed && FreshAt(db.freshness, TripOf(k), now))
  }

  ghost function StatesOf(live: map<Key, LiveRow>, keys: set<Key>): (hashes: map<Key, StopState>)
    requires keys <= live.Keys
    ensures hashes.Keys == keys && forall k | k in keys :: hashes[k] == live[k].state
    decreases keys
  {
    if keys == {} then map[]
    else
      var k :| k in keys;
      StatesOf(live, keys - {k})[k := live[k].state]
  }

  ghost function AfterLoad(db: Database, mem: Memory, feed: nat, now: int): Memory {
    if mem.feed == Some(feed) then mem else Memory(Loaded(db, feed, now), Some(feed))
  }

  /** The poll's predictions by key; the last one of a key wins. */
  function Current(feed: nat, updates: seq<StopUpdate>): map<Key, StopUpdate> {
    if updates == [] then map[]
    else
      var last := updates[|updates| - 1];
      Current(feed, updates[..|updates| - 1])[KeyOf(feed, last.state) := last]
  }

  predicate IsUnchanged(hashes: map<Key, StopState>, k: Key, update: StopUpdate) {
    k in hashes && hashes[k] == update.state
  }

  function Changed(hashes: map<Key, StopState>, current: map<Key, StopUpdate>): map<Key, StopUpdate> {
    current - set k | k in current && IsUnchanged(hashes, k, current[k])
  }

  function Coalesce(a: Option<int>, b: Option<int>): Option<int> {
    if a.Some? then a else b
  }

  function UpsertRow(live: map<Key, LiveRow>, k: Key, update: StopUpdate, t: int): LiveRow {
    if k in live && live[k].state == update.state
    then LiveRow(update.state, Coalesce(update.source, live[k].source), live[k].fetchedAt, t)
    else LiveRow(update.state, update.source, t, t)
  }

  ghost function UpsertLive(live: map<Key, LiveRow>, rows: map<Key, StopUpdate>, t: int): (after: map<Key, LiveRow>)
    ensures after.Keys == live.Keys + rows.Keys
    ensures forall k | k in after :: after[k] == if k in rows then UpsertRow(live, k, rows[k], t) else live[k]
    decreases rows.Keys
  {
    if rows == map[] then live
    else
      var k :| k in rows;
      UpsertLive(live, rows - {k}, t)[k := UpsertRow(live, k, rows[k], t)]
  }

  function UpsertFreshness(freshness: map<FeedTrip, FreshRow>, feed: nat, trips: seq<Trip>, t: int)
    : map<FeedTrip, FreshRow>
  {
    if trips == [] then freshness
    else
      var before := UpsertFreshness(freshness, feed, trips[..|trips| - 1], t);
      var trip := trips[|trips| - 1];
      var key := FeedTrip(feed, trip.tripKey);
      before[key := FreshRow(t, Coalesce(trip.source, if key in before then before[key].source else None),
                             trip.relationship)]
  }

  /** Archived presences are never overwritten. */
  function AppendPresence(presence: map<Presence, FreshRow>, feed: nat, trips: seq<Trip>, t: int)
    : map<Presence, FreshRow>
  {
    if trips == [] then presence
    else
      var before := AppendPresence(presence, feed, trips[..|trips| - 1], t);
      var trip := trips[|trips| - 1];
      var key := Presence(t, FeedTrip(feed, trip.tripKey));
      if key in before then before else before[key := FreshRow(t, trip.source, trip.relationship)]
  }

  function RelationshipOf(trips: seq<Trip>, tripKey: string): string {
    if trips == [] then "SCHEDULED"
    else if trips[|trips| - 1].tripKey == tripKey then trips[|trips| - 1].relationship
    else RelationshipOf(trips[..|trips| - 1], tripKey)
  }

  /** An archived row is never overwritten. */
  ghost function AppendObservations(archive: map<Observed, ObservationRow>, feed: nat, rows: map<Key, StopUpdate>,
                                    trips: seq<Trip>, t: int)
    : (after: map<Observed, ObservationRow>)
    requires WellKeyed(feed, rows)
    ensures forall o :: o in after <==> o in archive || IsObservation(feed, rows, t, o)
    ensures forall o | o in archive :: after[o] == archive[o]
    ensures forall o | o !in archive && IsObservation(feed, rows, t, o) ::
            o in after && after[o] == ObservationRow(rows[KeyOf(feed, o.state)].source,
                                                     RelationshipOf(trips, o.state.tripKey))
    decreases rows.Keys
  {
    if rows == map[] then archive
    else
      var k :| k in rows;
      var before := AppendObservations(archive, feed, rows - {k}, trips, t);
      var o := Observed(t, feed, rows[k].state);
      if o in before then before
      else before[o := ObservationRow(rows[k].source, RelationshipOf(trips, rows[k].state.tripKey))]
  }

  /** o is how a poll at time t archives one of its rows. */
  ghost predicate IsObservation(feed: nat, rows: map<Key, StopUpdate>, t: int, o: Observed) {
    o.fetchedAt == t && o.feed == feed && KeyOf(feed, o.state) in rows && rows[KeyOf(feed, o.state)].state == o.state
  }

  ghost predicate WellKeyed(feed: nat, rows: map<Key, StopUpdate>) {
    forall k | k in rows :: k == KeyOf(feed, rows[k].state)
  }

  lemma {:induction false} CurrentWellKeyed(feed: nat, updates: seq<StopUpdate>)
    ensures WellKeyed(feed, Current(feed, updates))
    decreases |updates|
  {
    if updates == [] {
    } else {
      CurrentWellKeyed(feed, updates[..|updates| - 1]);
    }
  }

  /** What one transaction writes. */
  ghost function Written(db: Database, poll: Poll, changed: map<Key, StopUpdate>): Database
    requires WellKeyed(poll.feed, changed)
  {
    db.(live := UpsertLive(db.live, changed, poll.fetchedAt),
        freshness := UpsertFreshness(db.freshness, poll.feed, poll.trips, poll.fetchedAt),
        archive := AppendObservations(db.archive, poll.feed, changed, poll.trips, poll.fetchedAt),
        presence := AppendPresence(db.presence, poll.feed, poll.trips, poll.fetchedAt))
  }

  ghost function Hashes(current: map<Key, StopUpdate>): (hashes: map<Key, StopState>)
    ensures hashes.Keys == current.Keys && forall k | k in current :: hashes[k] == current[k].state
    decreases current.Keys
  {
    if current == map[] then map[]
    else
      var k :| k in current;
      Hashes(current - {k})[k := current[k].state]
  }

  /** A poll with nothing to write runs no transaction, so it cannot fail. */
  predicate Commits(poll: Poll) {
    poll.commits || (poll.updates == [] && poll.trips == [])
  }

  ghost function InsertTripUpdates(db: Database, mem: Memory, poll: Poll): (Database, Memory) {
    var loaded := AfterLoad(db, mem, poll.feed, poll.now);
    var current := Current(poll.feed, poll.updates);
    var changed := Changed(loaded.hashes, current);
    CurrentWellKeyed(poll.feed, poll.updates);
    if Commits(poll) then (Written(db, poll, changed), Memory(Hashes(current), Some(poll.feed)))
    else (db, loaded)
  }

  // ---- Pruning ----

  function PruneLive(live: map<Key, LiveRow>, freshness: map<FeedTrip, FreshRow>, now: int): map<Key, LiveRow> {
    live - set k | k in live && !(TripOf(k) in freshness && freshness[TripOf(k)].lastSeenAt >= now - LIVE_SECONDS)
  }

  /** The trips whose freshness row has expired and whose presence is archived. */
  function Expirable(db: Database, now: int): set<FeedTrip> {
    set trip | trip in db.freshness && db.freshness[trip].lastSeenAt < now - SAMPLE_SECONDS &&
               Presence(db.freshness[trip].lastSeenAt, trip) in db.presence
  }

  /** At most EXPIRY_BATCH of them, the oldest. */
  ghost predicate ExpiryBatch(db: Database, now: int, expired: set<FeedTrip>) {
    && expired <= Expirable(db, now) && |expired| <= EXPIRY_BATCH
    && (expired == Expirable(db, now) || |expired| == EXPIRY_BATCH)
    && forall a, b | a in expired && b in Expirable(db, now) - expired ::
         db.freshness[a].lastSeenAt <= db.freshness[b].lastSeenAt
  }

  function Pruned(db: Database, now: int, expired: set<FeedTrip>): Database {
    if db.legacyTable then db
    else db.(live := PruneLive(db.live, db.freshness, now), freshness := db.freshness - expired)
  }

  // ---- Runs ----

  datatype Event =
    | Polled(poll: Poll)
    | Restarted
    | FeedRefreshed(feed: nat)
    | Swept(now: int, expired: set<FeedTrip>)

  function KeepFeed(hashes: map<Key, StopState>, feed: nat): map<Key, StopState> {
    hashes - set k | k in hashes && k.feed != feed
  }

  ghost function Step(db: Database, mem: Memory, e: Event): (Database, Memory) {
    match e
    case Polled(poll) => InsertTripUpdates(db, mem, poll)
    case Restarted => (db, Memory(map[], None))
    case FeedRefreshed(feed) => (db, mem.(hashes := KeepFeed(mem.hashes, feed)))
    case Swept(now, expired) => (Pruned(db, now, expired), mem)
  }

  function EmptyDatabase(legacyTable: bool): Database {
    Database(map[], map[], map[], map[], legacyTable)
  }

  ghost function Run(legacyTable: bool, es: seq<Event>): (Database, Memory) {
    if es == [] then (EmptyDatabase(legacyTable), Memory(map[], None))
    else
      var (db, mem) := Run(legacyTable, es[..|es| - 1]);
      Step(db, mem, es[|es| - 1])
  }
}
