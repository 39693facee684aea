/**
 The live table against a system with no cache, which upserts every prediction of every poll.
 They agree throughout a run exactly when no committed poll repeats a cached state whose
 live row has been pruned.
 */
module LiveTable {
  import opened Wrappers
  import opened BusFeed
  import opened Collector
  import opened ChangeLog

  // ---- The system without a cache ----

  ghost function DirectStep(db: Database, e: Event): Database {
    match e
    case Polled(poll) =>
      CurrentWellKeyed(poll.feed, poll.updates);
      if Commits(poll) then Written(db, poll, Current(poll.feed, poll.updates)) else db
    case Swept(now, expired) => Pruned(db, now, expired)
    case _ => db
  }

  ghost function DirectRun(legacyTable: bool, es: seq<Event>): Database {
    if es == [] then EmptyDatabase(legacyTable)
    else DirectStep(DirectRun(legacyTable, es[..|es| - 1]), es[|es| - 1])
  }

  /** The same rows, up to the source timestamp and the time last seen. */
  ghost predicate Agree(a: map<Key, LiveRow>, b: map<Key, LiveRow>) {
    && a.Keys == b.Keys
    && forall k | k in a :: a[k].state == b[k].state && a[k].fetchedAt == b[k].fetchedAt
  }

  /** Every prediction the cache would suppress still has its live row. */
  ghost predicate SuppressesSafely(db: Database, mem: Memory, poll: Poll) {
    var hashes, current := AfterLoad(db, mem, poll.feed, poll.now).hashes, Current(poll.feed, poll.updates);
    Safe(hashes, current, db.live)
  }

  /** The live tables agree after every event. */
  ghost predicate AgreesThroughout(legacyTable: bool, es: seq<Event>) {
    && Agree(Run(legacyTable, es).0.live, DirectRun(legacyTable, es).live)
    && (es != [] ==> AgreesThroughout(legacyTable, es[..|es| - 1]))
  }

  /** No committed poll suppresses a prediction without a live row. */
  ghost predicate SafeThroughout(legacyTable: bool, es: seq<Event>) {
    es == [] ||
    (var past, e := es[..|es| - 1], es[|es| - 1];
     && SafeThroughout(legacyTable, past)
     && (IsCommit(e) ==> SuppressesSafely(Run(legacyTable, past).0, Run(legacyTable, past).1, e.poll)))
  }

  // ---- One step ----

  /** A cached hash is that of the live row, where there is one. */
  ghost predicate CacheMatches(db: Database, mem: Memory) {
    forall k | k in mem.hashes && k in db.live :: mem.hashes[k] == db.live[k].state
  }

  lemma StepCacheMatches(db: Database, mem: Memory, e: Event)
    requires CacheMatches(db, mem)
    ensures CacheMatches(Step(db, mem, e).0, Step(db, mem, e).1)
  {
    if IsCommit(e) {
      var hashes := AfterLoad(db, mem, e.poll.feed, e.poll.now).hashes;
      CommitMatches(db.live, hashes, Current(e.poll.feed, e.poll.updates), e.poll.fetchedAt);
    }
  }

  lemma CommitMatches(live: map<Key, LiveRow>, hashes: map<Key, StopState>, current: map<Key, StopUpdate>, t: int)
    requires forall k | k in hashes && k in live :: hashes[k] == live[k].state
    ensures var after := UpsertLive(live, Changed(hashes, current), t);
            forall k | k in current && k in after :: after[k].state == current[k].state
  {
    assert forall k | k in current && k in live :: k in Changed(hashes, current) || hashes[k] == current[k].state;
  }

  ghost predicate Safe(hashes: map<Key, StopState>, current: map<Key, StopUpdate>, live: map<Key, LiveRow>) {
    forall k | k in current && k in hashes && hashes[k] == current[k].state :: k in live
  }

  lemma SameKeysWhenSafe(live: map<Key, LiveRow>, hashes: map<Key, StopState>, current: map<Key, StopUpdate>)
    ensures live.Keys + Changed(hashes, current).Keys == live.Keys + current.Keys <==> Safe(hashes, current, live)
  {
    if live.Keys + Changed(hashes, current).Keys == live.Keys + current.Keys {
      forall k | k in current && k in hashes && hashes[k] == current[k].state
        ensures k in live
      {
        assert k in live.Keys + current.Keys;
      }
    }
  }

  lemma CommitAgreesWhenSafe(live: map<Key, LiveRow>, direct: map<Key, LiveRow>, hashes: map<Key, StopState>,
                             current: map<Key, StopUpdate>, t: int)
    requires Agree(live, direct)
    requires forall k | k in hashes && k in live :: hashes[k] == live[k].state
    ensures Agree(UpsertLive(live, Changed(hashes, current), t), UpsertLive(direct, current, t)) <==>
            Safe(hashes, current, live)
  {
    SameKeysWhenSafe(live, hashes, current);
    if Safe(hashes, current, live) {
      forall k | k in live.Keys + current.Keys
        ensures UpsertLive(live, Changed(hashes, current), t)[k].state == UpsertLive(direct, current, t)[k].state
        ensures UpsertLive(live, Changed(hashes, current), t)[k].fetchedAt ==
                  UpsertLive(direct, current, t)[k].fetchedAt
      {
        RowAgrees(live, direct, hashes, current, t, k);
      }
    }
  }

  lemma RowAgrees(live: map<Key, LiveRow>, direct: map<Key, LiveRow>, hashes: map<Key, StopState>,
                  current: map<Key, StopUpdate>, t: int, k: Key)
    requires Agree(live, direct)
    requires k in hashes && k in live ==> hashes[k] == live[k].state
    requires k in live || k in Changed(hashes, current)
    requires k in live || k in current
    ensures UpsertLive(live, Changed(hashes, current), t)[k].state == UpsertLive(direct, current, t)[k].state
    ensures UpsertLive(live, Changed(hashes, current), t)[k].fetchedAt == UpsertLive(direct, current, t)[k].fetchedAt
  {}

  lemma StepAgrees(db: Database, mem: Memory, direct: Database, e: Event)
    requires CacheMatches(db, mem) && Agree(db.live, direct.live)
    requires direct == db.(live := direct.live, archive := direct.archive)
    ensures var db', direct' := Step(db, mem, e).0, DirectStep(direct, e);
            && direct' == db'.(live := direct'.live, archive := direct'.archive)
            && (Agree(db'.live, direct'.live) <==> (IsCommit(e) ==> SuppressesSafely(db, mem, e.poll)))
  {
    if IsCommit(e) {
      var hashes := AfterLoad(db, mem, e.poll.feed, e.poll.now).hashes;
      CommitAgreesWhenSafe(db.live, direct.live, hashes, Current(e.poll.feed, e.poll.updates), e.poll.fetchedAt);
    } else if e.Swept? && !db.legacyTable {
      assert PruneLive(db.live, db.freshness, e.now).Keys == PruneLive(direct.live, direct.freshness, e.now).Keys;
    }
  }

  // ---- Whole runs ----

  /** The cache never suppresses a needed write exactly when every suppressed prediction has its row. */
  lemma {:induction false} AgreesExactlyWhenSafe(legacyTable: bool, es: seq<Event>)
    ensures AgreesThroughout(legacyTable, es) <==> SafeThroughout(legacyTable, es)
    ensures var (db, mem) := Run(legacyTable, es); CacheMatches(db, mem)
    ensures var db, direct := Run(legacyTable, es).0, DirectRun(legacyTable, es);
            AgreesThroughout(legacyTable, es) ==> direct == db.(live := direct.live, archive := direct.archive)
    decreases |es|
  {
    if es == [] {
    } else {
      var past, e := es[..|es| - 1], es[|es| - 1];
      AgreesExactlyWhenSafe(legacyTable, past);
      var (db, mem) := Run(legacyTable, past);
      StepCacheMatches(db, mem, e);
      if AgreesThroughout(legacyTable, past) {
        StepAgrees(db, mem, DirectRun(legacyTable, past), e);
      }
    }
  }

  // ---- A condition on freshness alone ----

  /** Each committed poll of an unchanged feed finds the trips of all cached keys fresh. */
  ghost predicate PollsStayFresh(legacyTable: bool, es: seq<Event>) {
    forall i, k | 0 <= i < |es| && IsCommit(es[i]) && k in Run(legacyTable, es[..i]).1.hashes
                  && Run(legacyTable, es[..i]).1.feed == Some(es[i].poll.feed) ::
      FreshAt(Run(legacyTable, es[..i]).0.freshness, TripOf(k), es[i].poll.now)
  }

  /** No pruning up to here read a later clock than c. */
  ghost predicate SweptBy(es: seq<Event>, c: int) {
    forall i | 0 <= i < |es| && es[i].Swept? :: es[i].now <= c
  }

  /** Prunings before a committed poll read no later clock than the poll. */
  ghost predicate SweepsPrecede(es: seq<Event>) {
    forall i, j | 0 <= i < j < |es| && es[i].Swept? && IsCommit(es[j]) :: es[i].now <= es[j].poll.now
  }

  /** A cached key without a live row has lost the freshness that would keep the row. */
  ghost predicate LostOnlyStale(db: Database, mem: Memory, c: int) {
    forall k | k in mem.hashes && k !in db.live :: !FreshAt(db.freshness, TripOf(k), c)
  }

  lemma StepLosesOnlyStale(db: Database, mem: Memory, e: Event, c: int)
    requires LostOnlyStale(db, mem, c) && (e.Swept? ==> e.now <= c)
    requires IsCommit(e) ==> SuppressesSafely(db, mem, e.poll)
    ensures LostOnlyStale(Step(db, mem, e).0, Step(db, mem, e).1, c)
  {
    if IsCommit(e) {
      var hashes, current := AfterLoad(db, mem, e.poll.feed, e.poll.now).hashes, Current(e.poll.feed, e.poll.updates);
      SameKeysWhenSafe(db.live, hashes, current);
    }
  }

  lemma {:induction false} RunLosesOnlyStale(legacyTable: bool, es: seq<Event>, c: int)
    requires SweptBy(es, c) && SafeThroughout(legacyTable, es)
    ensures LostOnlyStale(Run(legacyTable, es).0, Run(legacyTable, es).1, c)
    decreases |es|
  {
    if es == [] {
    } else {
      var past, e := es[..|es| - 1], es[|es| - 1];
      RunLosesOnlyStale(legacyTable, past, c);
      var (db, mem) := Run(legacyTable, past);
      StepLosesOnlyStale(db, mem, e, c);
    }
  }

  lemma {:induction false} FreshPollsAreSafe(legacyTable: bool, es: seq<Event>)
    requires PollsStayFresh(legacyTable, es) && SweepsPrecede(es)
    ensures SafeThroughout(legacyTable, es)
    decreases |es|
  {
    if es == [] {
    } else {
      var past, e := es[..|es| - 1], es[|es| - 1];
      forall i, k | 0 <= i < |past| && IsCommit(past[i]) && k in Run(legacyTable, past[..i]).1.hashes
                    && Run(legacyTable, past[..i]).1.feed == Some(past[i].poll.feed)
        ensures FreshAt(Run(legacyTable, past[..i]).0.freshness, TripOf(k), past[i].poll.now)
      {
        assert past[..i] == es[..i];
      }
      FreshPollsAreSafe(legacyTable, past);
      if IsCommit(e) {
        RunLosesOnlyStale(legacyTable, past, e.poll.now);
        var (db, mem) := Run(legacyTable, past);
        if mem.feed == Some(e.poll.feed) {
          forall k | k in mem.hashes
            ensures k in db.live
          {
            assert es[..|es| - 1] == past;
            assert FreshAt(db.freshness, TripOf(k), e.poll.now);
          }
        }
      }
    }
  }

  /**
   When every committed poll finds the trips it has cached fresh, the live table and the system
   without a cache agree after every event.
   */
  lemma FreshPollsAgree(legacyTable: bool, es: seq<Event>)
    requires PollsStayFresh(legacyTable, es) && SweepsPrecede(es)
    ensures AgreesThroughout(legacyTable, es)
  {
    FreshPollsAreSafe(legacyTable, es);
    AgreesExactlyWhenSafe(legacyTable, es);
  }

  // ---- A run in which they differ ----

  /** A cached state whose row is gone stays without a row when it is reported again. */
  lemma RepeatStaysHidden(db: Database, mem: Memory, poll: Poll, k: Key)
    requires mem.feed == Some(poll.feed) && k !in db.live && Commits(poll)
    requires k in Current(poll.feed, poll.updates) && k in mem.hashes &&
             mem.hashes[k] == Current(poll.feed, poll.updates)[k].state
    ensures k !in InsertTripUpdates(db, mem, poll).0.live
  {
  }

  lemma RunOfThree(legacyTable: bool, a: Event, b: Event, c: Event)
    ensures var (db0, mem0) := Step(EmptyDatabase(legacyTable), Memory(map[], None), a);
            var (db1, mem1) := Step(db0, mem0, b);
            Run(legacyTable, [a, b, c]) == Step(db1, mem1, c)
    ensures DirectRun(legacyTable, [a, b, c]) == DirectStep(DirectRun(legacyTable, [a, b]), c)
  {
    assert [a][..0] == [] && [a, b][..1] == [a] && [a, b, c][..2] == [a, b];
    assert Run(legacyTable, [a]) == Step(EmptyDatabase(legacyTable), Memory(map[], None), a);
    assert Run(legacyTable, [a, b]) == Step(Run(legacyTable, [a]).0, Run(legacyTable, [a]).1, b);
  }

  lemma PollShowsDirectly(db: Database, state: StopState, t: int)
    ensures KeyOf(1, state) in DirectStep(db, SinglePoll(state, t)).live
  {
    SinglePollWrites(state, t);
  }

  lemma FirstPollFreshens(state: StopState)
    ensures var db := Step(EmptyDatabase(false), Memory(map[], None), SinglePoll(state, 0)).0;
            var trip := TripOf(KeyOf(1, state));
            !db.legacyTable && trip in db.freshness && db.freshness[trip].lastSeenAt == 0
  {
    SinglePollWrites(state, 0);
  }

  lemma SecondPollHides(db: Database, state: StopState, t: int)
    requires KeyOf(1, state) !in db.live
    ensures KeyOf(1, state) !in Step(db, Memory(map[KeyOf(1, state) := state], Some(1)), SinglePoll(state, t)).0.live
  {
    SinglePollWrites(state, t);
    RepeatStaysHidden(db, Memory(map[KeyOf(1, state) := state], Some(1)), SinglePoll(state, t).poll, KeyOf(1, state));
  }

  /**
   No poll commits for over half an hour, the rows are pruned, and the next poll repeats the
   cached state: the prediction is suppressed and has no live row.
   */
  lemma PruningHidesARepeatedPrediction(state: StopState)
    ensures var k, es := KeyOf(1, state), [SinglePoll(state, 0), Swept(1801, {}), SinglePoll(state, 1861)];
            k !in Run(false, es).0.live && k in DirectRun(false, es).live
  {
    var e0, e1, e2 := SinglePoll(state, 0), Swept(1801, {}), SinglePoll(state, 1861);
    RunOfThree(false, e0, e1, e2);
    FirstPollArchives(state, 0);
    FirstPollFreshens(state);
    var db0 := Step(EmptyDatabase(false), Memory(map[], None), e0).0;
    SweepRemovesStale(db0, 1801, {}, KeyOf(1, state));
    SecondPollHides(Pruned(db0, 1801, {}), state, 1861);
    PollShowsDirectly(DirectRun(false, [e0, e1]), state, 1861);
  }

  lemma SweepRemovesStale(db: Database, now: int, expired: set<FeedTrip>, k: Key)
    requires !db.legacyTable && TripOf(k) in db.freshness && db.freshness[TripOf(k)].lastSeenAt < now - LIVE_SECONDS
    ensures k !in Pruned(db, now, expired).live
  {}
}
