/**
 The archive holds changes only. Over every run of the collector it still tells, for every
 committed poll and every key in it, the state the poll reported.
 */
module ChangeLog {
  import opened Wrappers
  import opened BusFeed
  import opened Collector

  type Archive = map<Observed, ObservationRow>

  predicate About(o: Observed, k: Key) {
    KeyOf(o.feed, o.state) == k
  }

  /** At time t the newest archived observation of k carries state s. */
  ghost predicate LatestIs(archive: Archive, k: Key, t: int, s: StopState) {
    exists o :: o in archive && About(o, k) && o.fetchedAt <= t && o.state == s &&
                forall p | p in archive && About(p, k) && p.fetchedAt <= t :: p == o || p.fetchedAt < o.fetchedAt
  }

  /** The newest archived observation of k carries state s. */
  ghost predicate NewestIs(archive: Archive, k: Key, s: StopState) {
    exists o :: o in archive && About(o, k) && o.state == s &&
                forall p | p in archive && About(p, k) :: p == o || p.fetchedAt < o.fetchedAt
  }

  /** Cached hashes and live rows are those of the newest archived observations. */
  ghost predicate Mirrors(db: Database, mem: Memory) {
    && (forall k | k in mem.hashes :: NewestIs(db.archive, k, mem.hashes[k]))
    && (forall k | k in db.live :: NewestIs(db.archive, k, db.live[k].state))
  }

  predicate IsCommit(e: Event) {
    e.Polled? && Commits(e.poll)
  }

  /** The collector's clock moves forward between committed polls. */
  ghost predicate ClockAdvances(es: seq<Event>) {
    forall i, j | 0 <= i < j < |es| && IsCommit(es[i]) && IsCommit(es[j]) :: es[i].poll.fetchedAt < es[j].poll.fetchedAt
  }

  ghost predicate AllBefore(es: seq<Event>, t: int) {
    forall i | 0 <= i < |es| && IsCommit(es[i]) :: es[i].poll.fetchedAt < t
  }

  ghost predicate Older(archive: Archive, t: int) {
    forall o | o in archive :: o.fetchedAt < t
  }

  lemma AppendedNewest(archive: Archive, feed: nat, rows: map<Key, StopUpdate>, trips: seq<Trip>, t: int, k: Key,
                       s: StopState)
    requires WellKeyed(feed, rows) && Older(archive, t)
    requires if k in rows then rows[k].state == s else NewestIs(archive, k, s)
    ensures NewestIs(AppendObservations(archive, feed, rows, trips, t), k, s)
  {
    var after := AppendObservations(archive, feed, rows, trips, t);
    if k in rows {
      var o := Observed(t, feed, s);
      assert o in after && About(o, k);
    } else {
      var o :| o in archive && About(o, k) && o.state == s &&
               forall p | p in archive && About(p, k) :: p == o || p.fetchedAt < o.fetchedAt;
      assert o in after;
    }
  }

  /** After the write, each reported key has its reported state as the newest observation. */
  lemma ReportedIsNewest(db: Database, hashes: map<Key, StopState>, poll: Poll, current: map<Key, StopUpdate>, k: Key)
    requires Mirrors(db, Memory(hashes, None)) && Older(db.archive, poll.fetchedAt) && WellKeyed(poll.feed, current) &&
             k in current
    ensures NewestIs(Written(db, poll, Changed(hashes, current)).archive, k, current[k].state)
  {
    if IsUnchanged(hashes, k, current[k]) {
      assert NewestIs(db.archive, k, hashes[k]);
    }
    AppendedNewest(db.archive, poll.feed, Changed(hashes, current), poll.trips, poll.fetchedAt, k, current[k].state);
  }

  /** After the write, each live row still is the newest observation. */
  lemma LiveIsNewest(db: Database, hashes: map<Key, StopState>, poll: Poll, current: map<Key, StopUpdate>, k: Key)
    requires Mirrors(db, Memory(hashes, None)) && Older(db.archive, poll.fetchedAt) && WellKeyed(poll.feed, current)
    requires k in Written(db, poll, Changed(hashes, current)).live
    ensures var db' := Written(db, poll, Changed(hashes, current));
            NewestIs(db'.archive, k, db'.live[k].state)
  {
    var rows := Changed(hashes, current);
    var s := Written(db, poll, rows).live[k].state;
    if k !in rows {
      assert NewestIs(db.archive, k, db.live[k].state);
    }
    AppendedNewest(db.archive, poll.feed, rows, poll.trips, poll.fetchedAt, k, s);
  }

  /** A committed poll leaves the newest observation of each of its keys in the state it reported. */
  lemma CommitMirrors(db: Database, mem: Memory, poll: Poll)
    requires Mirrors(db, mem) && Older(db.archive, poll.fetchedAt) && Commits(poll)
    ensures var (db', mem') := InsertTripUpdates(db, mem, poll);
            var current := Current(poll.feed, poll.updates);
            && Mirrors(db', mem')
            && (forall k | k in current :: NewestIs(db'.archive, k, current[k].state))
  {
    var loaded := AfterLoad(db, mem, poll.feed, poll.now);
    CurrentWellKeyed(poll.feed, poll.updates);
    var current := Current(poll.feed, poll.updates);
    forall k | k in current
      ensures NewestIs(Written(db, poll, Changed(loaded.hashes, current)).archive, k, current[k].state)
    {
      ReportedIsNewest(db, loaded.hashes, poll, current, k);
    }
    forall k | k in Written(db, poll, Changed(loaded.hashes, current)).live
      ensures var db' := Written(db, poll, Changed(loaded.hashes, current)); NewestIs(db'.archive, k, db'.live[k].state)
    {
      LiveIsNewest(db, loaded.hashes, poll, current, k);
    }
  }

  lemma StepMirrors(db: Database, mem: Memory, e: Event)
    requires Mirrors(db, mem) && (IsCommit(e) ==> Older(db.archive, e.poll.fetchedAt))
    ensures Mirrors(Step(db, mem, e).0, Step(db, mem, e).1)
  {
    if IsCommit(e) {
      CommitMirrors(db, mem, e.poll);
    }
  }

  lemma StepArchives(db: Database, mem: Memory, e: Event, o: Observed)
    ensures o in db.archive ==> o in Step(db, mem, e).0.archive
    ensures o in Step(db, mem, e).0.archive && o !in db.archive ==> IsCommit(e) && o.fetchedAt == e.poll.fetchedAt
  {
    if IsCommit(e) {
      var current := Current(e.poll.feed, e.poll.updates);
      var changed := Changed(AfterLoad(db, mem, e.poll.feed, e.poll.now).hashes, current);
      CurrentWellKeyed(e.poll.feed, e.poll.updates);
    }
  }

  lemma {:induction false} ArchiveOlder(legacyTable: bool, es: seq<Event>, t: int)
    requires AllBefore(es, t)
    ensures Older(Run(legacyTable, es).0.archive, t)
    decreases |es|
  {
    if es == [] {
    } else {
      var past := es[..|es| - 1];
      ArchiveOlder(legacyTable, past, t);
      var (db, mem) := Run(legacyTable, past);
      forall o | o in Run(legacyTable, es).0.archive
        ensures o.fetchedAt < t
      {
        StepArchives(db, mem, es[|es| - 1], o);
      }
    }
  }

  lemma {:induction false} RunMirrors(legacyTable: bool, es: seq<Event>)
    requires ClockAdvances(es)
    ensures Mirrors(Run(legacyTable, es).0, Run(legacyTable, es).1)
    decreases |es|
  {
    if es == [] {
    } else {
      var past, e := es[..|es| - 1], es[|es| - 1];
      RunMirrors(legacyTable, past);
      if IsCommit(e) {
        ArchiveOlder(legacyTable, past, e.poll.fetchedAt);
      }
      var (db, mem) := Run(legacyTable, past);
      StepMirrors(db, mem, e);
    }
  }

  /**
   In every run of committed and failed polls, restarts, feed switches and prunings, the newest
   observation at or before a committed poll carries, for each key, the state of that poll.
   */
  lemma {:induction false} LogReplaysEveryPoll(legacyTable: bool, es: seq<Event>, i: nat, k: Key)
    requires ClockAdvances(es) && i < |es| && IsCommit(es[i])
    requires k in Current(es[i].poll.feed, es[i].poll.updates)
    ensures LatestIs(Run(legacyTable, es).0.archive, k, es[i].poll.fetchedAt,
                     Current(es[i].poll.feed, es[i].poll.updates)[k].state)
    decreases |es|
  {
    var past, e := es[..|es| - 1], es[|es| - 1];
    var (db, mem) := Run(legacyTable, past);
    var t, s := es[i].poll.fetchedAt, Current(es[i].poll.feed, es[i].poll.updates)[k].state;
    if i == |es| - 1 {
      RunMirrors(legacyTable, past);
      ArchiveOlder(legacyTable, past, t);
      CommitMirrors(db, mem, e.poll);
      NewestIsLatest(db, mem, e, k, s);
    } else {
      LogReplaysEveryPoll(legacyTable, past, i, k);
      LatestPersists(db, mem, e, k, t, s);
    }
  }

  lemma NewestIsLatest(db: Database, mem: Memory, e: Event, k: Key, s: StopState)
    requires IsCommit(e) && Older(db.archive, e.poll.fetchedAt)
    requires NewestIs(Step(db, mem, e).0.archive, k, s)
    ensures LatestIs(Step(db, mem, e).0.archive, k, e.poll.fetchedAt, s)
  {
    var after := Step(db, mem, e).0.archive;
    var o :| o in after && About(o, k) && o.state == s &&
             forall p | p in after && About(p, k) :: p == o || p.fetchedAt < o.fetchedAt;
    StepArchives(db, mem, e, o);
    assert o.fetchedAt <= e.poll.fetchedAt;
  }

  lemma LatestPersists(db: Database, mem: Memory, e: Event, k: Key, t: int, s: StopState)
    requires LatestIs(db.archive, k, t, s) && (IsCommit(e) ==> e.poll.fetchedAt > t)
    ensures LatestIs(Step(db, mem, e).0.archive, k, t, s)
  {
    var after := Step(db, mem, e).0.archive;
    var o :| o in db.archive && About(o, k) && o.fetchedAt <= t && o.state == s &&
             forall p | p in db.archive && About(p, k) && p.fetchedAt <= t :: p == o || p.fetchedAt < o.fetchedAt;
    StepArchives(db, mem, e, o);
    forall p | p in after && About(p, k) && p.fetchedAt <= t
      ensures p == o || p.fetchedAt < o.fetchedAt
    {
      StepArchives(db, mem, e, p);
    }
  }

  // ---- Where the law stops ----

  /**
   Without any assumption on the cache: a committed poll leaves every key's newest observation in
   the reported state exactly when that already held for the keys it suppressed.
   */
  lemma ReplaysExactlyWhen(db: Database, hashes: map<Key, StopState>, poll: Poll, current: map<Key, StopUpdate>)
    requires Older(db.archive, poll.fetchedAt) && WellKeyed(poll.feed, current)
    ensures (forall k | k in current :: NewestIs(Written(db, poll, Changed(hashes, current)).archive, k,
                                                 current[k].state)) <==>
            (forall k | k in current && IsUnchanged(hashes, k, current[k]) :: NewestIs(db.archive, k, current[k].state))
  {
    var rows := Changed(hashes, current);
    forall k | k in current
      ensures NewestIs(Written(db, poll, rows).archive, k, current[k].state) <==>
              (k !in rows ==> NewestIs(db.archive, k, current[k].state))
    {
      if k in rows || NewestIs(db.archive, k, current[k].state) {
        AppendedNewest(db.archive, poll.feed, rows, poll.trips, poll.fetchedAt, k, current[k].state);
      } else if NewestIs(Written(db, poll, rows).archive, k, current[k].state) {
        StillNotNewest(db.archive, poll.feed, rows, poll.trips, poll.fetchedAt, k, current[k].state);
      }
    }
  }

  lemma StillNotNewest(archive: Archive, feed: nat, rows: map<Key, StopUpdate>, trips: seq<Trip>, t: int, k: Key,
                       s: StopState)
    requires WellKeyed(feed, rows) && k !in rows && NewestIs(AppendObservations(archive, feed, rows, trips, t), k, s)
    ensures NewestIs(archive, k, s)
  {
    var after := AppendObservations(archive, feed, rows, trips, t);
    var o :| o in after && About(o, k) && o.state == s &&
             forall p | p in after && About(p, k) :: p == o || p.fetchedAt < o.fetchedAt;
    assert o in archive;
  }

  /** A poll at time t that reports one prediction of one trip. */
  function SinglePoll(state: StopState, t: int): Event {
    Polled(Poll(1, [StopUpdate(state, None)], [Trip(state.tripKey, None, None, None, "SCHEDULED")], t, t, true))
  }

  lemma SinglePollWrites(state: StopState, t: int)
    ensures var poll := SinglePoll(state, t).poll;
            && Current(1, poll.updates) == map[KeyOf(1, state) := poll.updates[0]]
            && forall rows: map<FeedTrip, FreshRow> {:trigger UpsertFreshness(rows, 1, poll.trips, t)} ::
                 UpsertFreshness(rows, 1, poll.trips, t).Keys == rows.Keys + {FeedTrip(1, state.tripKey)}
                 && UpsertFreshness(rows, 1, poll.trips, t)[FeedTrip(1, state.tripKey)].lastSeenAt == t
  {
    var poll := SinglePoll(state, t).poll;
    assert poll.updates[..0] == [] && poll.trips[..0] == [];
  }

  /**
   Two collectors on one database break the law: the first one's cache does not see what the
   second one archived, so a return to the first state goes unrecorded.
   */
  lemma TwoCollectorsMissAChange(a: StopState, b: StopState)
    requires a != b && KeyOf(1, a) == KeyOf(1, b)
    ensures var start := Memory(map[], None);
            var (db1, first) := Step(EmptyDatabase(false), start, SinglePoll(a, 0));
            var (db2, second) := Step(db1, start, SinglePoll(b, 61));
            var (db3, _) := Step(db2, first, SinglePoll(a, 122));
            !LatestIs(db3.archive, KeyOf(1, a), 122, a)
  {
    var start, k := Memory(map[], None), KeyOf(1, a);
    var (db1, first) := Step(EmptyDatabase(false), start, SinglePoll(a, 0));
    var (db2, _) := Step(db1, start, SinglePoll(b, 61));
    FirstPollArchives(a, 0);
    OtherStateArchives(db1, a, b, 61);
    RepeatMissesTheChange(db2, a, b);
  }

  lemma RepeatMissesTheChange(db: Database, a: StopState, b: StopState)
    requires a != b && KeyOf(1, a) == KeyOf(1, b)
    requires forall o :: o in db.archive <==> o == Observed(0, 1, a) || o == Observed(61, 1, b)
    ensures var k := KeyOf(1, a);
            !LatestIs(Step(db, Memory(map[k := a], Some(1)), SinglePoll(a, 122)).0.archive, k, 122, a)
  {
    RepeatArchivesNothing(db, a, 122);
    assert About(Observed(61, 1, b), KeyOf(1, a));
  }

  lemma FirstPollArchives(a: StopState, t: int)
    ensures var (db, mem) := Step(EmptyDatabase(false), Memory(map[], None), SinglePoll(a, t));
            && mem == Memory(map[KeyOf(1, a) := a], Some(1))
            && (forall o :: o in db.archive <==> o == Observed(t, 1, a))
            && db.live.Keys == {KeyOf(1, a)} && db.live[KeyOf(1, a)].state == a
  {
    SinglePollWrites(a, t);
  }

  /** A collector that starts now archives a state that differs from the live row. */
  lemma OtherStateArchives(db: Database, a: StopState, b: StopState, t: int)
    requires a != b && KeyOf(1, a) == KeyOf(1, b) && KeyOf(1, b) in db.live && db.live[KeyOf(1, b)].state == a
    ensures forall o :: o in Step(db, Memory(map[], None), SinglePoll(b, t)).0.archive <==>
            o in db.archive || o == Observed(t, 1, b)
  {
    SinglePollWrites(b, t);
    assert !IsUnchanged(Loaded(db, 1, t), KeyOf(1, b), StopUpdate(b, None));
  }

  lemma RepeatArchivesNothing(db: Database, a: StopState, t: int)
    ensures Step(db, Memory(map[KeyOf(1, a) := a], Some(1)), SinglePoll(a, t)).0.archive.Keys == db.archive.Keys
  {
    SinglePollWrites(a, t);
    assert IsUnchanged(map[KeyOf(1, a) := a], KeyOf(1, a), StopUpdate(a, None));
  }
}
