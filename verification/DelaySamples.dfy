/**
 The delay samples: written for changed predictions only, they hold the same routes and delays
 as if every prediction were written, exactly while no suppressed prediction has lost its sample.
 */
module DelaySamples {
  import opened Wrappers
  import opened BusFeed
  import opened Collector
  import opened ChangeLog

  datatype TripId = TripId(feed: nat, trip: string)

  /** The routes of the scheduled trips of every feed version. */
  type Routes = map<TripId, string>

  datatype Sample = Sample(route: string, delay: int, lastSeenAt: int)

  type Samples = map<Key, Sample>

  // ---- One row ----

  function RouteOf(routes: Routes, feed: nat, s: StopState): Option<string> {
    if s.routeId.Some? then s.routeId
    else if s.tripId.Some? && TripId(feed, s.tripId.value) in routes then Some(routes[TripId(feed, s.tripId.value)])
    else None
  }

  /** A prediction without a delay or without a known route leaves no sample. */
  predicate HasSample(routes: Routes, k: Key, s: StopState) {
    DelayOf(s).Some? && RouteOf(routes, k.feed, s).Some?
  }

  function SampleOf(routes: Routes, k: Key, s: StopState, t: int): Sample
    requires HasSample(routes, k, s)
  {
    Sample(RouteOf(routes, k.feed, s).value, DelayOf(s).value, t)
  }

  /** The sample tells the state's route and delay. */
  predicate Tells(routes: Routes, samples: Samples, k: Key, s: StopState) {
    HasSample(routes, k, s) && k in samples ==> samples[k] == SampleOf(routes, k, s, samples[k].lastSeenAt)
  }

  // ---- One transaction ----

  ghost function UpsertSamples(samples: Samples, routes: Routes, rows: map<Key, StopUpdate>, t: int): (after: Samples)
    ensures forall k :: k in after <==> k in samples || (k in rows && HasSample(routes, k, rows[k].state))
    ensures forall k | k in after ::
              after[k] == if k in rows && HasSample(routes, k, rows[k].state)
                then SampleOf(routes, k, rows[k].state, t) else samples[k]
    decreases rows.Keys
  {
    if rows == map[] then samples
    else
      var k :| k in rows;
      var before := UpsertSamples(samples, routes, rows - {k}, t);
      if HasSample(routes, k, rows[k].state) then before[k := SampleOf(routes, k, rows[k].state, t)] else before
  }

  function WithoutTrips(samples: Samples, trips: set<FeedTrip>): Samples {
    samples - set k | k in samples && TripOf(k) in trips
  }

  /** The samples after an event of the collector; db and mem are those before it. */
  ghost function SampleStep(samples: Samples, routes: Routes, db: Database, mem: Memory, e: Event): Samples {
    match e
    case Polled(poll) =>
      if Commits(poll)
      then
        var hashes := AfterLoad(db, mem, poll.feed, poll.now).hashes;
        UpsertSamples(samples, routes, Changed(hashes, Current(poll.feed, poll.updates)), poll.fetchedAt)
      else samples
    case Swept(_, expired) => if db.legacyTable then samples else WithoutTrips(samples, expired)
    case _ => samples
  }

  ghost function SampleRun(legacyTable: bool, routes: Routes, es: seq<Event>): Samples {
    if es == [] then map[]
    else
      var (db, mem) := Run(legacyTable, es[..|es| - 1]);
      SampleStep(SampleRun(legacyTable, routes, es[..|es| - 1]), routes, db, mem, es[|es| - 1])
  }

  // ---- The system that writes every prediction ----

  ghost function DirectSampleStep(samples: Samples, routes: Routes, legacyTable: bool, e: Event): Samples {
    match e
    case Polled(poll) =>
      if Commits(poll) then UpsertSamples(samples, routes, Current(poll.feed, poll.updates), poll.fetchedAt)
      else samples
    case Swept(_, expired) => if legacyTable then samples else WithoutTrips(samples, expired)
    case _ => samples
  }

  ghost function DirectSampleRun(legacyTable: bool, routes: Routes, es: seq<Event>): Samples {
    if es == [] then map[]
    else DirectSampleStep(DirectSampleRun(legacyTable, routes, es[..|es| - 1]), routes, legacyTable, es[|es| - 1])
  }

  /** The same routes and delays of the same stops. */
  ghost predicate SamplesAgree(a: Samples, b: Samples) {
    && a.Keys == b.Keys
    && forall k | k in a :: a[k].route == b[k].route && a[k].delay == b[k].delay
  }

  /** Each suppressed prediction that would be sampled still has a sample. */
  ghost predicate SamplesSafe(samples: Samples, routes: Routes, hashes: map<Key, StopState>,
                              current: map<Key, StopUpdate>) {
    forall k | k in current && IsUnchanged(hashes, k, current[k]) && HasSample(routes, k, current[k].state) ::
      k in samples
  }

  ghost predicate AllTell(routes: Routes, samples: Samples, states: map<Key, StopState>) {
    forall k | k in states :: Tells(routes, samples, k, states[k])
  }

  /** Cached hashes and live rows agree with the samples there are. */
  ghost predicate SamplesConsistent(routes: Routes, samples: Samples, db: Database, mem: Memory) {
    && AllTell(routes, samples, mem.hashes)
    && forall k | k in db.live :: Tells(routes, samples, k, db.live[k].state)
  }

  lemma CommitTells(routes: Routes, samples: Samples, live: map<Key, LiveRow>, hashes: map<Key, StopState>,
                    current: map<Key, StopUpdate>, t: int)
    requires AllTell(routes, samples, hashes) && forall k | k in live :: Tells(routes, samples, k, live[k].state)
    ensures var rows := Changed(hashes, current);
            var after := UpsertSamples(samples, routes, rows, t);
            && (forall k | k in current :: Tells(routes, after, k, current[k].state))
            && forall k | k in UpsertLive(live, rows, t) :: Tells(routes, after, k, UpsertLive(live, rows, t)[k].state)
  {}

  lemma StepIsConsistent(routes: Routes, samples: Samples, db: Database, mem: Memory, e: Event)
    requires SamplesConsistent(routes, samples, db, mem)
    ensures SamplesConsistent(routes, SampleStep(samples, routes, db, mem, e), Step(db, mem, e).0, Step(db, mem, e).1)
  {
    if IsCommit(e) {
      var hashes := AfterLoad(db, mem, e.poll.feed, e.poll.now).hashes;
      CommitTells(routes, samples, db.live, hashes, Current(e.poll.feed, e.poll.updates), e.poll.fetchedAt);
    }
  }

  lemma KeyAgrees(routes: Routes, samples: Samples, direct: Samples, hashes: map<Key, StopState>,
                  current: map<Key, StopUpdate>, t: int, k: Key)
    requires SamplesAgree(samples, direct) && (k in hashes ==> Tells(routes, samples, k, hashes[k]))
    requires k in current && IsUnchanged(hashes, k, current[k]) && HasSample(routes, k, current[k].state) ==>
               k in samples
    ensures var a := UpsertSamples(samples, routes, Changed(hashes, current), t);
            var b := UpsertSamples(direct, routes, current, t);
            && (k in a <==> k in b)
            && (k in a ==> a[k].route == b[k].route && a[k].delay == b[k].delay)
  {}

  lemma SampleCommitAgreesExactlyWhen(routes: Routes, samples: Samples, direct: Samples, hashes: map<Key, StopState>,
                                      current: map<Key, StopUpdate>, t: int)
    requires SamplesAgree(samples, direct) && AllTell(routes, samples, hashes)
    ensures SamplesAgree(UpsertSamples(samples, routes, Changed(hashes, current), t),
                         UpsertSamples(direct, routes, current, t))
            <==> SamplesSafe(samples, routes, hashes, current)
  {
    var a, b := UpsertSamples(samples, routes, Changed(hashes, current), t), UpsertSamples(direct, routes, current, t);
    if SamplesSafe(samples, routes, hashes, current) {
      forall k
        ensures k in a <==> k in b
        ensures k in a ==> a[k].route == b[k].route && a[k].delay == b[k].delay
      {
        KeyAgrees(routes, samples, direct, hashes, current, t, k);
      }
    } else {
      var k :| k in current && IsUnchanged(hashes, k, current[k]) && HasSample(routes, k, current[k].state) &&
        k !in samples;
      assert k in b && k !in a;
    }
  }

  // ---- Whole runs ----

  ghost predicate SamplesAgreeThroughout(legacyTable: bool, routes: Routes, es: seq<Event>) {
    && SamplesAgree(SampleRun(legacyTable, routes, es), DirectSampleRun(legacyTable, routes, es))
    && (es != [] ==> SamplesAgreeThroughout(legacyTable, routes, es[..|es| - 1]))
  }

  ghost predicate SamplesSafeThroughout(legacyTable: bool, routes: Routes, es: seq<Event>) {
    es == [] ||
    (var past, e := es[..|es| - 1], es[|es| - 1];
     var (db, mem) := Run(legacyTable, past);
     && SamplesSafeThroughout(legacyTable, routes, past)
     && (IsCommit(e) ==>
           SamplesSafe(SampleRun(legacyTable, routes, past), routes,
                       AfterLoad(db, mem, e.poll.feed, e.poll.now).hashes, Current(e.poll.feed, e.poll.updates))))
  }

  lemma {:induction false} LegacyTableStays(legacyTable: bool, es: seq<Event>)
    ensures Run(legacyTable, es).0.legacyTable == legacyTable
    decreases |es|
  {
    if es == [] {
    } else {
      LegacyTableStays(legacyTable, es[..|es| - 1]);
    }
  }

  lemma SampleStepAgreesExactlyWhen(routes: Routes, samples: Samples, direct: Samples, db: Database, mem: Memory,
                                    e: Event)
    requires SamplesAgree(samples, direct) && SamplesConsistent(routes, samples, db, mem)
    ensures SamplesAgree(SampleStep(samples, routes, db, mem, e),
                         DirectSampleStep(direct, routes, db.legacyTable, e)) <==>
            (IsCommit(e) ==> SamplesSafe(samples, routes, AfterLoad(db, mem, e.poll.feed, e.poll.now).hashes,
                                         Current(e.poll.feed, e.poll.updates)))
  {
    if IsCommit(e) {
      var hashes := AfterLoad(db, mem, e.poll.feed, e.poll.now).hashes;
      SampleCommitAgreesExactlyWhen(routes, samples, direct, hashes, Current(e.poll.feed, e.poll.updates),
                                    e.poll.fetchedAt);
    }
  }

  /**
   The samples tell the same as if every prediction were written, exactly when no suppressed one
   has lost its sample.
   */
  lemma {:induction false} SamplesAgreeExactlyWhenSafe(legacyTable: bool, routes: Routes, es: seq<Event>)
    ensures SamplesAgreeThroughout(legacyTable, routes, es) <==> SamplesSafeThroughout(legacyTable, routes, es)
    ensures SamplesConsistent(routes, SampleRun(legacyTable, routes, es), Run(legacyTable, es).0,
                              Run(legacyTable, es).1)
    decreases |es|
  {
    if es == [] {
    } else {
      var past, e := es[..|es| - 1], es[|es| - 1];
      SamplesAgreeExactlyWhenSafe(legacyTable, routes, past);
      LegacyTableStays(legacyTable, past);
      var (db, mem) := Run(legacyTable, past);
      var samples := SampleRun(legacyTable, routes, past);
      StepIsConsistent(routes, samples, db, mem, e);
      if SamplesAgreeThroughout(legacyTable, routes, past) {
        SampleStepAgreesExactlyWhen(routes, samples, DirectSampleRun(legacyTable, routes, past), db, mem, e);
      }
    }
  }

  // ---- A run in which they differ ----

  /** A week after its only poll, a trip expires. */
  lemma LonelyTripExpires(state: StopState, now: int)
    requires now > SAMPLE_SECONDS
    ensures ExpiryBatch(Step(EmptyDatabase(false), Memory(map[], None), SinglePoll(state, 0)).0, now,
                        {TripOf(KeyOf(1, state))})
  {
    var trip, trips := FeedTrip(1, state.tripKey), SinglePoll(state, 0).poll.trips;
    var db := Step(EmptyDatabase(false), Memory(map[], None), SinglePoll(state, 0)).0;
    SinglePollWrites(state, 0);
    assert trips[..0] == [];
    assert AppendPresence(map[], 1, trips, 0).Keys == {Presence(0, trip)};
    assert db.freshness.Keys == {trip} && db.presence == AppendPresence(map[], 1, trips, 0);
    assert Expirable(db, now) == {trip};
  }

  /** The repeat of a cached state writes no sample, whatever has become of the old one. */
  lemma RepeatWritesNoSample(samples: Samples, routes: Routes, db: Database, state: StopState, t: int)
    ensures SampleStep(samples, routes, db, Memory(map[KeyOf(1, state) := state], Some(1)),
                       SinglePoll(state, t)).Keys == samples.Keys
  {
    SinglePollWrites(state, t);
  }

  lemma DirectWritesSample(samples: Samples, routes: Routes, state: StopState, t: int)
    requires HasSample(routes, KeyOf(1, state), state)
    ensures KeyOf(1, state) in DirectSampleStep(samples, routes, false, SinglePoll(state, t))
  {
    SinglePollWrites(state, t);
  }

  lemma RunOneMore(legacyTable: bool, routes: Routes, es: seq<Event>, e: Event)
    ensures Run(legacyTable, es + [e]) == Step(Run(legacyTable, es).0, Run(legacyTable, es).1, e)
    ensures SampleRun(legacyTable, routes, es + [e]) ==
              SampleStep(SampleRun(legacyTable, routes, es), routes, Run(legacyTable, es).0, Run(legacyTable, es).1, e)
    ensures DirectSampleRun(legacyTable, routes, es + [e]) ==
              DirectSampleStep(DirectSampleRun(legacyTable, routes, es), routes, legacyTable, e)
  {
    assert (es + [e])[..|es|] == es;
  }

  lemma RunsOfTwo(routes: Routes, a: Event, b: Event)
    ensures var (db, mem) := Step(EmptyDatabase(false), Memory(map[], None), a);
            && Run(false, [a]) == (db, mem) && Run(false, [a, b]) == Step(db, mem, b)
            && SampleRun(false, routes, [a, b]) == SampleStep(SampleRun(false, routes, [a]), routes, db, mem, b)
  {
    RunOneMore(false, routes, [], a);
    RunOneMore(false, routes, [a], b);
    assert [] + [a] == [a] && [a] + [b] == [a, b];
  }

  lemma RunsOfThree(routes: Routes, a: Event, b: Event, c: Event)
    ensures var (db0, mem0) := Step(EmptyDatabase(false), Memory(map[], None), a);
            var (db1, mem1) := Step(db0, mem0, b);
            && Run(false, [a]) == (db0, mem0)
            && SampleRun(false, routes, [a, b]) == SampleStep(SampleRun(false, routes, [a]), routes, db0, mem0, b)
            && SampleRun(false, routes, [a, b, c]) == SampleStep(SampleRun(false, routes, [a, b]), routes, db1, mem1, c)
    ensures DirectSampleRun(false, routes, [a, b, c]) ==
              DirectSampleStep(DirectSampleRun(false, routes, [a, b]), routes, false, c)
  {
    RunsOfTwo(routes, a, b);
    RunOneMore(false, routes, [a, b], c);
    assert [a, b] + [c] == [a, b, c];
  }

  /**
   No poll commits for over a week, the trip expires with its sample, and the next poll repeats
   the cached state: the prediction is suppressed and has no sample.
   */
  lemma ExpiryHidesARepeatedSample(routes: Routes, state: StopState)
    requires HasSample(routes, KeyOf(1, state), state)
    ensures var k, now := KeyOf(1, state), SAMPLE_SECONDS + 1;
            var es := [SinglePoll(state, 0), Swept(now, {TripOf(k)}), SinglePoll(state, now + 60)];
            && ExpiryBatch(Run(false, [es[0]]).0, now, {TripOf(k)})
            && k !in SampleRun(false, routes, es) && k in DirectSampleRun(false, routes, es)
  {
    var k, now := KeyOf(1, state), SAMPLE_SECONDS + 1;
    var e0, e1, e2 := SinglePoll(state, 0), Swept(now, {TripOf(k)}), SinglePoll(state, now + 60);
    RunsOfThree(routes, e0, e1, e2);
    LonelyTripExpires(state, now);
    FirstPollArchives(state, 0);
    var (db0, mem0) := Step(EmptyDatabase(false), Memory(map[], None), e0);
    SweepRemovesSample(SampleRun(false, routes, [e0]), routes, db0, mem0, now, k);
    RepeatWritesNoSample(SampleRun(false, routes, [e0, e1]), routes, Pruned(db0, now, {TripOf(k)}), state, now + 60);
    DirectWritesSample(DirectSampleRun(false, routes, [e0, e1]), routes, state, now + 60);
  }

  lemma SweepRemovesSample(samples: Samples, routes: Routes, db: Database, mem: Memory, now: int, k: Key)
    requires !db.legacyTable
    ensures k !in SampleStep(samples, routes, db, mem, Swept(now, {TripOf(k)}))
  {}
}
