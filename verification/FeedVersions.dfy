/**
 Versions of the static feed: importing, activating, pruning and restoring them. A version is
 identified by its content; only the active one keeps its stop times and shape points.
 */
module FeedVersions {
  import opened Wrappers
  import opened StaticRows
  import opened StaticSelection

  /** What an archive contributes; its hash identifies it. */
  datatype Feed = Feed(hash: string, selection: Selection, stopTimes: seq<StopTime>, points: seq<ShapePoint>)

  datatype Version = Version(feed: Feed, importedAt: Option<int>, active: bool, shapesImported: bool)

  datatype Tables = Tables(
    versions: map<nat, Version>,
    reference: map<nat, Selection>,
    stopTimes: map<nat, seq<StopTime>>,
    points: map<nat, seq<ShapePoint>>,
    nextId: nat)

  function Rows<T>(table: map<nat, seq<T>>, id: nat): seq<T> {
    if id in table then table[id] else []
  }

  const EMPTY := Tables(map[], map[], map[], map[], 1)

  // ---- What the database refuses ----

  predicate DistinctRoutes(routes: seq<Route>) {
    forall i, j | 0 <= i < j < |routes| :: routes[i].id != routes[j].id
  }

  predicate DistinctTrips(trips: seq<Trip>) {
    forall i, j | 0 <= i < j < |trips| :: trips[i].id != trips[j].id
  }

  predicate DistinctStopTimes(rows: seq<StopTime>) {
    forall i, j | 0 <= i < j < |rows| :: !(rows[i].trip == rows[j].trip && rows[i].sequence == rows[j].sequence)
  }

  predicate DistinctPoints(rows: seq<ShapePoint>) {
    forall i, j | 0 <= i < j < |rows| :: !(rows[i].shape == rows[j].shape && rows[i].sequence == rows[j].sequence)
  }

  ghost predicate IsFeedOf(archive: Archive, f: Feed) {
    && Scanned(archive).Success? && IsSelection(Scanned(archive).value, f.selection)
    && f.stopTimes == Scanned(archive).value.stopTimes && f.points == Scanned(archive).value.points
  }

  /** The rows have distinct primary keys and their references resolve. */
  ghost predicate IsStorable(f: Feed) {
    && DistinctRoutes(f.selection.routes) && DistinctTrips(f.selection.trips)
    && DistinctStopTimes(f.stopTimes) && DistinctPoints(f.points)
    && f.stopTimes != [] && Resolves(f.selection, f.stopTimes, f.points)
  }

  /** An archive that can be selected has stop times and resolves; only repeated keys make it unstorable. */
  lemma SelectedIsStorable(archive: Archive, f: Feed)
    requires IsFeedOf(archive, f)
    ensures IsStorable(f) <==>
            && DistinctRoutes(f.selection.routes) && DistinctTrips(f.selection.trips)
            && DistinctStopTimes(f.stopTimes) && DistinctPoints(f.points)
  {
    ScanSteps(archive);
    SelectionResolves(archive, f.selection);
  }

  /** The feed has the stop times and points of the archive's rows, field by field. */
  lemma FeedIsOfRows(archive: Archive, f: Feed)
    requires IsFeedOf(archive, f)
    ensures AreStopTimesOf(archive.stopTimes, f.selection.tripIds, f.stopTimes)
    ensures AreShapePointsOf(archive.shapes, f.selection.shapeIds, f.points)
  {
    ScanSteps(archive);
    StopTimesAreRead(archive.stopTimes, f.selection.tripIds);
    ShapePointsAreRead(archive.shapes, f.selection.shapeIds);
  }

  // ---- The transactions ----

  ghost predicate Holds(versions: map<nat, Version>, hash: string, id: nat) {
    id in versions && versions[id].feed.hash == hash
  }

  /** The hash is taken to be injective: a stored version with this feed's hash holds this feed. */
  ghost predicate IsFaithful(db: Tables, f: Feed) {
    forall id | Holds(db.versions, f.hash, id) :: db.versions[id].feed == f
  }

  /** The version of a content; the content column is unique. */
  ghost function Find(versions: map<nat, Version>, hash: string): (found: Option<nat>)
    ensures found.Some? ==> Holds(versions, hash, found.value)
    ensures found.None? ==> forall id :: !Holds(versions, hash, id)
  {
    if id :| Holds(versions, hash, id) then Some(id) else None
  }

  ghost predicate IsActivation(before: map<nat, Version>, id: nat, after: map<nat, Version>) {
    && after.Keys == before.Keys
    && forall v | v in after :: after[v] == before[v].(active := v == id,
                                                       shapesImported := v == id && before[v].shapesImported)
  }

  function Keep<T>(table: map<nat, seq<T>>, id: nat): map<nat, seq<T>> {
    table - (table.Keys - {id})
  }

  /** Activate one version and remove the bulky rows of all others. */
  ghost predicate IsActivated(before: Tables, id: nat, after: Tables) {
    && IsActivation(before.versions, id, after.versions)
    && after == before.(versions := after.versions, stopTimes := Keep(before.stopTimes, id),
                        points := Keep(before.points, id))
  }

  /** Both bulky row sets are there, so the version needs no import. */
  predicate IsReady(db: Tables, id: nat) {
    id in db.versions && Rows(db.stopTimes, id) != [] && db.versions[id].shapesImported
  }

  function WithStopTimes(db: Tables, id: nat, f: Feed): Tables {
    if Rows(db.stopTimes, id) != [] then db else db.(stopTimes := db.stopTimes[id := f.stopTimes])
  }

  function WithPoints(db: Tables, id: nat, f: Feed): Tables {
    if id !in db.versions || db.versions[id].shapesImported then db
    else db.(points := db.points[id := f.points],
             versions := db.versions[id := db.versions[id].(shapesImported := true)])
  }

  function Inserted(db: Tables, f: Feed, now: int): Tables {
    var id := db.nextId;
    Tables(db.versions[id := Version(f, Some(now), false, true)],
           db.reference[id := f.selection],
           db.stopTimes[id := f.stopTimes],
           db.points[id := f.points],
           id + 1)
  }

  datatype Outcome = Refreshed(id: nat, imported: bool) | NotReady | Failed

  /** The first transaction of a refresh: activate a version whose rows are all there. */
  ghost predicate IsActivateExisting(db: Tables, f: Feed, commits: bool, after: Tables, outcome: Outcome) {
    match Find(db.versions, f.hash)
    case None => after == db && outcome == if commits then NotReady else Failed
    case Some(id) =>
      if db.versions[id].importedAt.None? || !commits then after == db && outcome == Failed
      else if !IsReady(db, id) then after == db && outcome == NotReady
      else IsActivated(db, id, after) && outcome == Refreshed(id, false)
  }

  /** The second one, which checks again: activate, restore what is missing, or import. */
  ghost predicate IsImport(db: Tables, f: Feed, now: int, commits: bool, after: Tables, outcome: Outcome) {
    match Find(db.versions, f.hash)
    case None =>
      if commits && IsStorable(f)
      then IsActivated(Inserted(db, f, now), db.nextId, after) && outcome == Refreshed(db.nextId, true)
      else after == db.(nextId := db.nextId + 1) && outcome == Failed
    case Some(id) =>
      if db.versions[id].importedAt.None? || !commits then after == db && outcome == Failed
      else if !IsReady(db, id) && !IsStorable(f) then after == db && outcome == Failed
      else
        && IsActivated(WithPoints(WithStopTimes(db, id, f), id, f), id, after)
        && outcome == Refreshed(id, !IsReady(db, id))
  }

  // ---- What every transaction keeps ----

  /** Each version was imported and has the reference rows of its feed. */
  ghost predicate AreImported(db: Tables) {
    && db.reference.Keys == db.versions.Keys
    && forall v | v in db.versions ::
         && v < db.nextId && db.versions[v].importedAt.Some?
         && db.reference[v] == db.versions[v].feed.selection && db.versions[v].feed.stopTimes != []
  }

  /** No two versions share their content. */
  ghost predicate AreDistinct(db: Tables) {
    forall v, w | v in db.versions && w in db.versions && v != w :: db.versions[v].feed.hash != db.versions[w].feed.hash
  }

  ghost predicate AtMostOneActive(db: Tables) {
    forall v, w | v in db.versions && w in db.versions && db.versions[v].active && db.versions[w].active :: v == w
  }

  /** Only an active version has rows: its stop times, and its points once they are imported. */
  ghost predicate ActiveHoldsRows(db: Tables) {
    && db.stopTimes.Keys <= db.versions.Keys && db.points.Keys <= db.versions.Keys
    && forall v | v in db.versions :: HoldsRows(db, v)
  }

  predicate HoldsRows(db: Tables, v: nat)
    requires v in db.versions
  {
    var version := db.versions[v];
    if version.active
    then
      && v in db.stopTimes && db.stopTimes[v] == version.feed.stopTimes
      && if version.shapesImported then v in db.points && db.points[v] == version.feed.points else v !in db.points
    else v !in db.stopTimes && v !in db.points && !version.shapesImported
  }

  ghost predicate IsConsistent(db: Tables) {
    AreImported(db) && AreDistinct(db) && AtMostOneActive(db) && ActiveHoldsRows(db)
  }

  /** What a refresh establishes: exactly this feed is active, with all of its rows. */
  ghost predicate IsServed(db: Tables, f: Feed, id: nat) {
    && id in db.versions && db.versions[id].feed == f && db.versions[id].active && db.versions[id].shapesImported
    && (forall v | v in db.versions && v != id :: !db.versions[v].active)
    && ActiveHoldsRows(db)
  }

  lemma ActivateServes(db: Tables, id: nat, after: Tables)
    requires id in db.versions && IsActivated(db, id, after) && db.versions[id].shapesImported
    requires id in db.stopTimes && db.stopTimes[id] == db.versions[id].feed.stopTimes
    requires id in db.points && db.points[id] == db.versions[id].feed.points
    ensures IsServed(after, db.versions[id].feed, id) && AtMostOneActive(after)
  {
    forall v | v in after.versions
      ensures HoldsRows(after, v)
    {}
  }

  /** Same versions up to their flags. */
  ghost predicate SameVersions(a: Tables, b: Tables) {
    && a.versions.Keys == b.versions.Keys && a.reference == b.reference && a.nextId == b.nextId
    && forall v | v in a.versions ::
         a.versions[v].feed == b.versions[v].feed && a.versions[v].importedAt == b.versions[v].importedAt
  }

  lemma SameVersionsKeep(db: Tables, after: Tables)
    requires AreImported(db) && AreDistinct(db) && SameVersions(db, after)
    ensures AreImported(after) && AreDistinct(after)
  {}

  /** A consistent version holds all of its rows or none; restoring completes them. */
  lemma RestoreCompletes(db: Tables, id: nat, f: Feed)
    requires ActiveHoldsRows(db) && id in db.versions && db.versions[id].feed == f && f.stopTimes != []
    ensures var restored := WithPoints(WithStopTimes(db, id, f), id, f);
            && id in restored.stopTimes && restored.stopTimes[id] == f.stopTimes
            && id in restored.points && restored.points[id] == f.points
            && restored.versions == db.versions[id := db.versions[id].(shapesImported := true)]
            && SameVersions(db, restored)
  {
    assert HoldsRows(db, id);
  }

  lemma RestoreKeepsFeeds(db: Tables, id: nat, f: Feed, after: Tables)
    requires id in db.versions
    requires IsActivated(WithPoints(WithStopTimes(db, id, f), id, f), id, after)
    ensures SameVersions(db, after)
  {
    var restored := WithPoints(WithStopTimes(db, id, f), id, f);
    assert SameVersions(db, restored) && SameVersions(restored, after);
  }

  lemma ImportOfKnown(db: Tables, f: Feed, id: nat, after: Tables)
    requires IsConsistent(db) && IsFaithful(db, f) && Holds(db.versions, f.hash, id)
    requires IsActivated(WithPoints(WithStopTimes(db, id, f), id, f), id, after)
    ensures IsConsistent(after) && IsServed(after, f, id) && SameVersions(db, after)
  {
    RestoreCompletes(db, id, f);
    ActivateServes(WithPoints(WithStopTimes(db, id, f), id, f), id, after);
    RestoreKeepsFeeds(db, id, f, after);
    SameVersionsKeep(db, after);
  }

  lemma InsertKeeps(db: Tables, f: Feed, now: int)
    requires AreImported(db) && AreDistinct(db) && f.stopTimes != []
    requires forall v :: !Holds(db.versions, f.hash, v)
    ensures AreImported(Inserted(db, f, now)) && AreDistinct(Inserted(db, f, now))
  {
    forall v | v in db.versions
      ensures db.versions[v].feed.hash != f.hash
    {
      assert !Holds(db.versions, f.hash, v);
    }
  }

  lemma ImportOfNew(db: Tables, f: Feed, now: int, after: Tables)
    requires IsConsistent(db) && f.stopTimes != []
    requires forall v :: !Holds(db.versions, f.hash, v)
    requires IsActivated(Inserted(db, f, now), db.nextId, after)
    ensures IsConsistent(after) && IsServed(after, f, db.nextId)
  {
    InsertKeeps(db, f, now);
    ActivateServes(Inserted(db, f, now), db.nextId, after);
    assert SameVersions(Inserted(db, f, now), after);
    SameVersionsKeep(Inserted(db, f, now), after);
  }

  /** A successful import serves its feed; a failed one leaves the tables as they were. */
  lemma ImportKeeps(db: Tables, f: Feed, now: int, commits: bool, after: Tables, outcome: Outcome)
    requires IsConsistent(db) && IsFaithful(db, f)
    requires IsImport(db, f, now, commits, after, outcome)
    ensures IsConsistent(after)
    ensures outcome.Refreshed? ==> IsServed(after, f, outcome.id)
    ensures !outcome.Refreshed? ==> after == db.(nextId := after.nextId)
  {
    match Find(db.versions, f.hash)
    case None =>
      if outcome.Refreshed? {
        ImportOfNew(db, f, now, after);
      }
    case Some(id) =>
      if outcome.Refreshed? {
        ImportOfKnown(db, f, id, after);
      }
  }

  /** Known versions keep their content and import time. */
  ghost predicate KeepsKnown(db: Tables, after: Tables) {
    forall v | v in db.versions ::
      && v in after.versions && after.versions[v].feed == db.versions[v].feed
      && after.versions[v].importedAt == db.versions[v].importedAt
      && v in db.reference && v in after.reference && after.reference[v] == db.reference[v]
  }

  /** A refresh adds at most the version it serves, and only for an unknown content. */
  ghost predicate IsNewOnly(db: Tables, f: Feed, now: int, after: Tables, outcome: Outcome) {
    forall v | v in after.versions && v !in db.versions ::
      && outcome == Refreshed(v, true) && v == db.nextId && after.nextId == v + 1
      && after.versions[v].importedAt == Some(now) && v in after.reference && after.reference[v] == f.selection
      && forall w | w in db.versions :: db.versions[w].feed.hash != f.hash
  }

  ghost predicate KeepsVersions(db: Tables, f: Feed, now: int, after: Tables, outcome: Outcome) {
    KeepsKnown(db, after) && IsNewOnly(db, f, now, after, outcome)
  }

  lemma SameKeepsVersions(db: Tables, f: Feed, now: int, after: Tables, outcome: Outcome)
    requires AreImported(db) && SameVersions(db, after.(nextId := db.nextId))
    ensures KeepsVersions(db, f, now, after, outcome)
  {}

  lemma NewKeepsKnown(db: Tables, f: Feed, now: int, after: Tables)
    requires AreImported(db) && SameVersions(Inserted(db, f, now), after)
    ensures KeepsKnown(db, after)
  {
    forall v | v in db.versions
      ensures v != db.nextId && v in Inserted(db, f, now).versions
    {}
  }

  lemma NewIsNewOnly(db: Tables, f: Feed, now: int, after: Tables)
    requires (forall v :: !Holds(db.versions, f.hash, v)) && SameVersions(Inserted(db, f, now), after)
    ensures IsNewOnly(db, f, now, after, Refreshed(db.nextId, true))
  {
    assert forall w | w in db.versions :: !Holds(db.versions, f.hash, w);
    assert forall v | v in after.versions && v !in db.versions :: v == db.nextId;
  }

  lemma ImportKeepsVersions(db: Tables, f: Feed, now: int, commits: bool, after: Tables, outcome: Outcome)
    requires IsConsistent(db) && IsFaithful(db, f) && IsImport(db, f, now, commits, after, outcome)
    ensures KeepsVersions(db, f, now, after, outcome)
  {
    if !outcome.Refreshed? {
      SameKeepsVersions(db, f, now, after, outcome);
    } else if Find(db.versions, f.hash).Some? {
      RestoreKeepsFeeds(db, outcome.id, f, after);
      SameKeepsVersions(db, f, now, after, outcome);
    } else {
      ActivationIsSame(Inserted(db, f, now), db.nextId, after);
      NewKeepsKnown(db, f, now, after);
      NewIsNewOnly(db, f, now, after);
    }
  }

  lemma ActivationIsSame(db: Tables, id: nat, after: Tables)
    requires IsActivated(db, id, after)
    ensures SameVersions(db, after)
  {}

  /** An import succeeds unless the transaction fails or rows are missing that cannot be stored. */
  lemma ImportSucceedsExactlyWhen(db: Tables, f: Feed, now: int, commits: bool, after: Tables, outcome: Outcome)
    requires IsConsistent(db) && IsFaithful(db, f) && IsImport(db, f, now, commits, after, outcome)
    ensures outcome.Refreshed? <==> commits && (IsStorable(f) || exists id :: IsServed(db, f, id))
    ensures outcome.Refreshed? ==> (outcome.imported <==> !IsServed(db, f, outcome.id))
  {
    match Find(db.versions, f.hash)
    case None =>
      if id :| IsServed(db, f, id) {
        assert Holds(db.versions, f.hash, id);
      }
    case Some(id) =>
      ReadyIsServed(db, f, id);
      if other :| IsServed(db, f, other) {
        assert Holds(db.versions, f.hash, other);
      }
  }

  lemma ServedHoldsRows(db: Tables, f: Feed, outcome: Outcome)
    requires outcome.Refreshed? ==> IsServed(db, f, outcome.id)
    ensures outcome.Refreshed? ==> Rows(db.stopTimes, outcome.id) == f.stopTimes
    ensures outcome.Refreshed? ==> Rows(db.points, outcome.id) == f.points
  {
    if outcome.Refreshed? {
      assert HoldsRows(db, outcome.id);
    }
  }

  /** A version whose rows are all there is the one being served. */
  lemma ReadyIsServed(db: Tables, f: Feed, id: nat)
    requires IsConsistent(db) && IsFaithful(db, f)
    ensures IsServed(db, f, id) <==> Holds(db.versions, f.hash, id) && IsReady(db, id)
  {
    if id in db.versions {
      assert HoldsRows(db, id);
    }
  }

  ghost predicate AreStorable(db: Tables) {
    forall v | v in db.versions :: IsStorable(db.versions[v].feed)
  }

  lemma ImportKeepsStorable(db: Tables, f: Feed, now: int, commits: bool, after: Tables, outcome: Outcome)
    requires AreStorable(db) && IsFaithful(db, f)
    requires IsImport(db, f, now, commits, after, outcome)
    ensures AreStorable(after)
  {
    match Find(db.versions, f.hash)
    case None =>
      if outcome.Refreshed? {
        assert SameVersions(Inserted(db, f, now), after);
        forall v | v in after.versions
          ensures IsStorable(after.versions[v].feed)
        {
          assert v == db.nextId || v in db.versions;
        }
      }
    case Some(id) =>
      if outcome.Refreshed? {
        RestoreKeepsFeeds(db, id, f, after);
      }
  }

  lemma ActivatingTheActive(db: Tables, id: nat, after: Tables)
    requires ActiveHoldsRows(db) && AtMostOneActive(db) && id in db.versions && db.versions[id].active
    requires IsActivated(db, id, after)
    ensures after == db
  {
    assert forall v | v in db.versions :: HoldsRows(db, v);
    assert after.versions == db.versions;
    assert after.stopTimes == db.stopTimes;
    assert after.points == db.points;
  }

  /** Re-activation succeeds exactly for the version being served, and then changes nothing. */
  lemma ActivateExistingKeeps(db: Tables, f: Feed, commits: bool, after: Tables, outcome: Outcome)
    requires IsConsistent(db) && IsFaithful(db, f) && IsActivateExisting(db, f, commits, after, outcome)
    ensures after == db
    ensures outcome.Refreshed? ==> commits && IsServed(after, f, outcome.id)
    ensures commits && (exists id :: IsServed(db, f, id)) ==> outcome.Refreshed?
    ensures outcome == Failed <==> !commits
  {
    var found := Find(db.versions, f.hash);
    if found.Some? && outcome.Refreshed? {
      assert HoldsRows(db, found.value);
      ActivatingTheActive(db, found.value, after);
    }
    if id :| IsServed(db, f, id) {
      assert Holds(db.versions, f.hash, id);
      assert HoldsRows(db, id);
    }
  }

  // ---- Runs ----

  /** One transaction of some daemon; refreshes of several daemons may interleave. */
  datatype Event =
    | ActivateExisting(feed: Feed, commits: bool, outcome: Outcome)
    | Import(feed: Feed, now: int, commits: bool, outcome: Outcome)

  ghost predicate IsStep(db: Tables, e: Event, after: Tables) {
    IsFaithful(db, e.feed) &&
    match e
    case ActivateExisting(f, commits, outcome) => IsActivateExisting(db, f, commits, after, outcome)
    case Import(f, now, commits, outcome) => IsImport(db, f, now, commits, after, outcome)
  }

  ghost predicate IsRun(dbs: seq<Tables>, es: seq<Event>) {
    && |dbs| == |es| + 1 && dbs[0] == EMPTY
    && forall i | 0 <= i < |es| :: IsStep(dbs[i], es[i], dbs[i + 1])
  }

  /** In every run every state is consistent, and it serves what the last successful refresh brought. */
  lemma {:induction false} RunServesLastRefresh(dbs: seq<Tables>, es: seq<Event>, n: nat)
    requires IsRun(dbs, es) && n <= |es|
    ensures IsConsistent(dbs[n])
    ensures match LastRefresh(es[..n])
            case Some(e) => IsServed(dbs[n], e.feed, e.outcome.id)
            case None => dbs[n].versions == map[]
  {
    if n == 0 {
    } else {
      RunServesLastRefresh(dbs, es, n - 1);
      assert es[..n][..n - 1] == es[..n - 1];
      StepServes(dbs[n - 1], es[n - 1], dbs[n]);
    }
  }

  lemma StepServes(db: Tables, e: Event, after: Tables)
    requires IsConsistent(db) && IsStep(db, e, after)
    ensures IsConsistent(after)
    ensures e.outcome.Refreshed? ==> IsServed(after, e.feed, e.outcome.id)
    ensures !e.outcome.Refreshed? ==> after == db.(nextId := after.nextId)
  {
    match e
    case ActivateExisting(f, commits, outcome) => ActivateExistingKeeps(db, f, commits, after, outcome);
    case Import(f, now, commits, outcome) => ImportKeeps(db, f, now, commits, after, outcome);
  }

  lemma {:induction false} RunStaysStorable(dbs: seq<Tables>, es: seq<Event>, n: nat)
    requires IsRun(dbs, es) && n <= |es|
    ensures AreStorable(dbs[n])
  {
    if n == 0 {
    } else {
      RunStaysStorable(dbs, es, n - 1);
      RunServesLastRefresh(dbs, es, n - 1);
      var db, e, after := dbs[n - 1], es[n - 1], dbs[n];
      assert IsStep(db, e, after);
      match e
      case ActivateExisting(f, commits, outcome) => ActivateExistingKeeps(db, f, commits, after, outcome);
      case Import(f, now, commits, outcome) => ImportKeepsStorable(db, f, now, commits, after, outcome);
    }
  }

  /** In every run the keys of every version's rows are distinct and its references resolve. */
  lemma RunIsStorable(dbs: seq<Tables>, es: seq<Event>, n: nat, v: nat)
    requires IsRun(dbs, es) && n <= |es| && v in dbs[n].versions
    ensures var f := dbs[n].versions[v].feed;
            var routes, trips := f.selection.routes, f.selection.trips;
            && (forall i, j | 0 <= i < j < |routes| :: routes[i].id != routes[j].id)
            && (forall i, j | 0 <= i < j < |trips| :: trips[i].id != trips[j].id)
            && (forall i, j | 0 <= i < j < |f.stopTimes| && f.stopTimes[i].trip == f.stopTimes[j].trip ::
                  f.stopTimes[i].sequence != f.stopTimes[j].sequence)
            && (forall i, j | 0 <= i < j < |f.points| && f.points[i].shape == f.points[j].shape ::
                  f.points[i].sequence != f.points[j].sequence)
            && Resolves(f.selection, f.stopTimes, f.points)
  {
    RunStaysStorable(dbs, es, n);
    assert IsStorable(dbs[n].versions[v].feed);
  }

  function LastRefresh(es: seq<Event>): (last: Option<Event>)
    ensures last.Some? ==> last.value.outcome.Refreshed?
  {
    if es == [] then None
    else if es[|es| - 1].outcome.Refreshed? then Some(es[|es| - 1])
    else LastRefresh(es[..|es| - 1])
  }

  /** Two consistent states that serve the same version have the same flags and rows. */
  lemma ServedAgree(a: Tables, b: Tables, f: Feed, id: nat)
    requires IsServed(a, f, id) && IsServed(b, f, id) && SameVersions(a, b)
    ensures a == b
  {
    forall v | v in a.versions
      ensures a.versions[v] == b.versions[v]
      ensures v in a.stopTimes <==> v in b.stopTimes
      ensures v in a.points <==> v in b.points
      ensures v in a.stopTimes ==> a.stopTimes[v] == b.stopTimes[v]
      ensures v in a.points ==> a.points[v] == b.points[v]
    {
      assert HoldsRows(a, v) && HoldsRows(b, v);
    }
    assert a.versions == b.versions;
    assert a.stopTimes == b.stopTimes;
    assert a.points == b.points;
  }

  lemma ImportOfKnownFeed(db: Tables, f: Feed, id: nat, e: Event, after: Tables)
    requires IsConsistent(db) && IsFaithful(db, f) && Holds(db.versions, f.hash, id)
    requires e.Import? && e.feed == f && e.outcome.Refreshed? && IsStep(db, e, after)
    ensures IsConsistent(after) && IsServed(after, f, id) && SameVersions(db, after)
  {
    var found := Find(db.versions, f.hash);
    assert found == Some(id);
    ImportOfKnown(db, f, id, after);
  }

  /** Pruning a version by refreshing to another known one, then restoring it, is the identity. */
  lemma RestoreUndoesPrune(db: Tables, a: Feed, b: Feed, ida: nat, idb: nat, pruned: Tables, restored: Tables,
                           first: Event, second: Event)
    requires IsConsistent(db) && IsServed(db, a, ida) && Holds(db.versions, b.hash, idb)
    requires first.Import? && first.feed == b && first.outcome.Refreshed? && IsStep(db, first, pruned)
    requires second.Import? && second.feed == a && second.outcome.Refreshed? && IsStep(pruned, second, restored)
    ensures restored == db
  {
    ImportOfKnownFeed(db, b, idb, first, pruned);
    assert Holds(pruned.versions, a.hash, ida);
    ImportOfKnownFeed(pruned, a, ida, second, restored);
    assert SameVersions(db, restored);
    ServedAgree(restored, db, a, ida);
  }

  // ---- The refresh as an object ----

  method FindVersion(versions: map<nat, Version>, hash: string) returns (found: Option<nat>)
    requires forall v, w | Holds(versions, hash, v) && Holds(versions, hash, w) :: v == w
    ensures found == Find(versions, hash)
  {
    found := None;
    var left := versions.Keys;
    while left != {}
      invariant left <= versions.Keys
      invariant found.Some? ==> Holds(versions, hash, found.value)
      invariant found.None? ==> forall id | id in versions.Keys - left :: !Holds(versions, hash, id)
      decreases left
    {
      var id :| id in left;
      if versions[id].feed.hash == hash {
        found := Some(id);
      }
      left := left - {id};
    }
  }

  /** The three updates of the version flags. */
  method SetFlags(versions: map<nat, Version>, id: nat) returns (after: map<nat, Version>)
    ensures IsActivation(versions, id, after)
  {
    after := versions;
    var left := versions.Keys;
    while left != {}
      invariant left <= versions.Keys && after.Keys == versions.Keys
      invariant forall v | v in after ::
                  after[v] == if v in left then versions[v] else
                    versions[v].(active := v == id, shapesImported := v == id && versions[v].shapesImported)
      decreases left
    {
      var v :| v in left;
      after := after[v := after[v].(active := v == id, shapesImported := v == id && after[v].shapesImported)];
      left := left - {v};
    }
  }

  /** The keys on which the database would reject the copied rows. */
  predicate HasDistinctKeys(selection: Selection, stopTimes: seq<StopTime>, points: seq<ShapePoint>) {
    && DistinctRoutes(selection.routes) && DistinctTrips(selection.trips)
    && DistinctStopTimes(stopTimes) && DistinctPoints(points)
  }

  class FeedStore {
    var db: Tables

    constructor ()
      ensures db == EMPTY
    {
      db := EMPTY;
    }

    method ActivateAndPrune(id: nat)
      modifies this
      ensures IsActivated(old(db), id, db)
    {
      var versions := SetFlags(db.versions, id);
      db := db.(versions := versions);
      db := db.(points := db.points - (db.points.Keys - {id}));
      db := db.(stopTimes := db.stopTimes - (db.stopTimes.Keys - {id}));
    }

    method ActivateExistingVersion(hash: string, commits: bool, ghost f: Feed) returns (outcome: Outcome)
      requires AreDistinct(db) && f.hash == hash
      modifies this
      ensures IsActivateExisting(old(db), f, commits, db, outcome)
    {
      if !commits {
        return Failed;
      }
      var found := FindVersion(db.versions, hash);
      if found.None? {
        return NotReady;
      }
      var id := found.value;
      if db.versions[id].importedAt.None? {
        return Failed;
      }
      if Rows(db.stopTimes, id) == [] || !db.versions[id].shapesImported {
        return NotReady;
      }
      ActivateAndPrune(id);
      return Refreshed(id, false);
    }

    /** One transaction; an error rolls everything back except the drawn identifier. */
    method ImportTransaction(archive: Archive, hash: string, selection: Selection, now: int, commits: bool,
                             ghost f: Feed) returns (outcome: Outcome)
      requires AreDistinct(db) && IsFaithful(db, f)
      requires IsFeedOf(archive, f) && f.hash == hash && f.selection == selection
      modifies this
      ensures IsImport(old(db), f, now, commits, db, outcome)
    {
      SelectionResolves(archive, selection);
      ScanSteps(archive);
      SelectedIsStorable(archive, f);
      var found := FindVersion(db.versions, hash);
      var points := IterBusShapePoints(archive.shapes, selection.shapeIds);
      var stopTimes := IterBusStopTimes(archive.stopTimes, selection.tripIds);
      assert |stopTimes.value| == selection.stopTimeCount && |points.value| == selection.shapePointCount;
      var storable := HasDistinctKeys(selection, stopTimes.value, points.value);
      if found.Some? {
        outcome := Restore(found.value, stopTimes.value, points.value, storable, commits, f);
      } else {
        outcome := Insert(Feed(hash, selection, stopTimes.value, points.value), storable, now, commits);
      }
    }

    method Restore(id: nat, stopTimes: seq<StopTime>, points: seq<ShapePoint>, storable: bool, commits: bool,
                   ghost f: Feed) returns (outcome: Outcome)
      requires Find(db.versions, f.hash) == Some(id)
      requires stopTimes == f.stopTimes && points == f.points && storable == IsStorable(f)
      modifies this
      ensures forall now :: IsImport(old(db), f, now, commits, db, outcome)
    {
      if db.versions[id].importedAt.None? || !commits {
        return Failed;
      }
      var hasStopTimes, shapesImported := Rows(db.stopTimes, id) != [], db.versions[id].shapesImported;
      if hasStopTimes && shapesImported {
        ActivateAndPrune(id);
        return Refreshed(id, false);
      }
      if !storable {
        return Failed;
      }
      if !hasStopTimes {
        db := db.(stopTimes := db.stopTimes[id := stopTimes]);
      }
      if !shapesImported {
        db := db.(points := db.points[id := points],
                  versions := db.versions[id := db.versions[id].(shapesImported := true)]);
      }
      ActivateAndPrune(id);
      return Refreshed(id, true);
    }

    method Insert(f: Feed, storable: bool, now: int, commits: bool) returns (outcome: Outcome)
      requires Find(db.versions, f.hash) == None && storable == IsStorable(f)
      modifies this
      ensures IsImport(old(db), f, now, commits, db, outcome)
    {
      var id := db.nextId;
      db := db.(nextId := id + 1);
      if !commits || !storable {
        return Failed;
      }
      db := db.(versions := db.versions[id := Version(f, None, false, false)]);
      db := db.(reference := db.reference[id := f.selection]);
      db := db.(points := db.points[id := f.points]);
      db := db.(stopTimes := db.stopTimes[id := f.stopTimes]);
      db := db.(versions := db.versions[id := db.versions[id].(importedAt := Some(now), shapesImported := true)]);
      assert db == Inserted(old(db), f, now);
      ActivateAndPrune(id);
      return Refreshed(id, true);
    }

    /** A whole refresh: afterwards either this feed is served, or the tables are as they were. */
    method ImportStaticFeed(archive: Archive, hash: string, now: int, firstCommits: bool, secondCommits: bool,
                            ghost f: Feed) returns (outcome: Outcome)
      requires IsConsistent(db) && IsFaithful(db, f) && f.hash == hash
      requires (exists s :: Scanned(archive).Success? && IsSelection(Scanned(archive).value, s)) ==>
                 IsFeedOf(archive, f)
      modifies this
      ensures IsConsistent(db)
      ensures outcome.Refreshed? ==> IsServed(db, f, outcome.id)
      ensures !outcome.Refreshed? ==> db == old(db).(nextId := db.nextId)
      ensures KeepsVersions(old(db), f, now, db, outcome)
      ensures outcome.Refreshed? && IsFeedOf(archive, f) ==>
                && AreStopTimesOf(archive.stopTimes, f.selection.tripIds, Rows(db.stopTimes, outcome.id))
                && AreShapePointsOf(archive.shapes, f.selection.shapeIds, Rows(db.points, outcome.id))
    {
      if IsFeedOf(archive, f) {
        FeedIsOfRows(archive, f);
      }
      outcome := ActivateExistingVersion(hash, firstCommits, f);
      ActivateExistingKeeps(old(db), f, firstCommits, db, outcome);
      if !outcome.NotReady? {
        ServedHoldsRows(db, f, outcome);
        SameKeepsVersions(old(db), f, now, db, outcome);
        return;
      }
      var selection := SelectStaticFeed(archive);
      if selection.Failure? {
        SameKeepsVersions(old(db), f, now, db, Failed);
        return Failed;
      }
      ClosureIsUnique(Scanned(archive).value.parents, UsedStops(Scanned(archive).value.stopTimes), f.selection.stops,
                      selection.value.stops);
      assert f.selection == selection.value;
      outcome := ImportTransaction(archive, hash, selection.value, now, secondCommits, f);
      ImportKeeps(old(db), f, now, secondCommits, db, outcome);
      ImportKeepsVersions(old(db), f, now, secondCommits, db, outcome);
      ServedHoldsRows(db, f, outcome);
    }
  }
}
