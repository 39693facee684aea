/**
 Several collectors, or one that overlaps with its successor, on one database: each has a cache
 of its own. The archive replays every poll exactly when no cache suppresses a state that the
 archive does not hold as the newest.
 */
module Collectors {
  import opened Wrappers
  import opened BusFeed
  import opened Collector
  import opened ChangeLog

  datatype Act = Act(collector: nat, event: Event)

  type Memories = map<nat, Memory>

  function MemoryOf(mems: Memories, collector: nat): Memory {
    if collector in mems then mems[collector] else Memory(map[], None)
  }

  ghost function StepOf(db: Database, mems: Memories, a: Act): (Database, Memories) {
    var (after, mem) := Step(db, MemoryOf(mems, a.collector), a.event);
    (after, mems[a.collector := mem])
  }

  ghost function RunOf(legacyTable: bool, acts: seq<Act>): (Database, Memories) {
    if acts == [] then (EmptyDatabase(legacyTable), map[])
    else
      var (db, mems) := RunOf(legacyTable, acts[..|acts| - 1]);
      StepOf(db, mems, acts[|acts| - 1])
  }

  ghost predicate CommitsBefore(acts: seq<Act>, t: int) {
    forall i | 0 <= i < |acts| && IsCommit(acts[i].event) :: acts[i].event.poll.fetchedAt < t
  }

  /** Committed polls come in the order of one advancing clock. */
  ghost predicate ClocksAdvance(acts: seq<Act>) {
    acts == [] ||
    (var past, e := acts[..|acts| - 1], acts[|acts| - 1].event;
     ClocksAdvance(past) && (IsCommit(e) ==> CommitsBefore(past, e.poll.fetchedAt)))
  }

  // ---- One poll ----

  /** What a poll reports for a key. */
  ghost function Reported(poll: Poll): map<Key, StopUpdate> {
    Current(poll.feed, poll.updates)
  }

  /** Each state the cache suppresses is the newest one archived for its key. */
  ghost predicate SuppressesKnown(db: Database, mem: Memory, poll: Poll) {
    var hashes := AfterLoad(db, mem, poll.feed, poll.now).hashes;
    forall k | k in Reported(poll) && IsUnchanged(hashes, k, Reported(poll)[k]) ::
      NewestIs(db.archive, k, Reported(poll)[k].state)
  }

  /** The archive tells what the poll reported. */
  ghost predicate Replays(archive: Archive, poll: Poll) {
    forall k | k in Reported(poll) :: LatestIs(archive, k, poll.fetchedAt, Reported(poll)[k].state)
  }

  lemma LatestIsNewestNow(archive: Archive, k: Key, t: int, s: StopState)
    requires forall o | o in archive :: o.fetchedAt <= t
    ensures LatestIs(archive, k, t, s) <==> NewestIs(archive, k, s)
  {
    if LatestIs(archive, k, t, s) {
      var o :| o in archive && About(o, k) && o.fetchedAt <= t && o.state == s &&
               forall p | p in archive && About(p, k) && p.fetchedAt <= t :: p == o || p.fetchedAt < o.fetchedAt;
    }
    if NewestIs(archive, k, s) {
      var o :| o in archive && About(o, k) && o.state == s &&
               forall p | p in archive && About(p, k) :: p == o || p.fetchedAt < o.fetchedAt;
      assert o.fetchedAt <= t;
    }
  }

  lemma CommitReplaysExactlyWhen(db: Database, mem: Memory, poll: Poll)
    requires Commits(poll) && Older(db.archive, poll.fetchedAt)
    ensures Replays(Step(db, mem, Polled(poll)).0.archive, poll) <==> SuppressesKnown(db, mem, poll)
  {
    var hashes := AfterLoad(db, mem, poll.feed, poll.now).hashes;
    CurrentWellKeyed(poll.feed, poll.updates);
    ReplaysExactlyWhen(db, hashes, poll, Reported(poll));
    var after := Step(db, mem, Polled(poll)).0.archive;
    forall o | o in after
      ensures o.fetchedAt <= poll.fetchedAt
    {
      StepArchives(db, mem, Polled(poll), o);
    }
    forall k | k in Reported(poll)
      ensures LatestIs(after, k, poll.fetchedAt, Reported(poll)[k].state) <==>
              NewestIs(after, k, Reported(poll)[k].state)
    {
      LatestIsNewestNow(after, k, poll.fetchedAt, Reported(poll)[k].state);
    }
  }

  /** Later steps do not change what the archive tells about a time. */
  lemma LatestIsSettled(db: Database, mem: Memory, e: Event, k: Key, t: int, s: StopState)
    requires IsCommit(e) ==> e.poll.fetchedAt > t
    ensures LatestIs(Step(db, mem, e).0.archive, k, t, s) <==> LatestIs(db.archive, k, t, s)
  {
    var before, after := db.archive, Step(db, mem, e).0.archive;
    forall o: Observed | o.fetchedAt <= t
      ensures o in before <==> o in after
    {
      StepArchives(db, mem, e, o);
    }
    if LatestIs(after, k, t, s) {
      var o :| o in after && About(o, k) && o.fetchedAt <= t && o.state == s &&
               forall p | p in after && About(p, k) && p.fetchedAt <= t :: p == o || p.fetchedAt < o.fetchedAt;
      assert o in before;
    }
    if LatestIs(before, k, t, s) {
      var o :| o in before && About(o, k) && o.fetchedAt <= t && o.state == s &&
               forall p | p in before && About(p, k) && p.fetchedAt <= t :: p == o || p.fetchedAt < o.fetchedAt;
      assert o in after;
    }
  }

  // ---- Whole runs ----

  ghost predicate ReplaysEveryPoll(archive: Archive, acts: seq<Act>) {
    forall i | 0 <= i < |acts| && IsCommit(acts[i].event) :: Replays(archive, acts[i].event.poll)
  }

  /** No commit of any collector suppresses a state that is not archived as the newest. */
  ghost predicate SuppressesKnownThroughout(legacyTable: bool, acts: seq<Act>) {
    acts == [] ||
    (var past, a := acts[..|acts| - 1], acts[|acts| - 1];
     var (db, mems) := RunOf(legacyTable, past);
     && SuppressesKnownThroughout(legacyTable, past)
     && (IsCommit(a.event) ==> SuppressesKnown(db, MemoryOf(mems, a.collector), a.event.poll)))
  }

  lemma {:induction false} ArchiveIsOlder(legacyTable: bool, acts: seq<Act>, t: int)
    requires CommitsBefore(acts, t)
    ensures Older(RunOf(legacyTable, acts).0.archive, t)
    decreases |acts|
  {
    if acts == [] {
    } else {
      var past, a := acts[..|acts| - 1], acts[|acts| - 1];
      assert forall i | 0 <= i < |past| :: past[i] == acts[i];
      ArchiveIsOlder(legacyTable, past, t);
      var (db, mems) := RunOf(legacyTable, past);
      forall o | o in RunOf(legacyTable, acts).0.archive
        ensures o.fetchedAt < t
      {
        StepArchives(db, MemoryOf(mems, a.collector), a.event, o);
      }
    }
  }

  lemma EarlierPollsAreSettled(db: Database, mem: Memory, e: Event, past: seq<Act>)
    requires IsCommit(e) ==> CommitsBefore(past, e.poll.fetchedAt)
    ensures ReplaysEveryPoll(Step(db, mem, e).0.archive, past) <==> ReplaysEveryPoll(db.archive, past)
  {
    forall i, k | 0 <= i < |past| && IsCommit(past[i].event) && k in Reported(past[i].event.poll)
      ensures var poll := past[i].event.poll; var s := Reported(poll)[k].state;
              LatestIs(Step(db, mem, e).0.archive, k, poll.fetchedAt, s) <==> LatestIs(db.archive, k, poll.fetchedAt, s)
    {
      var poll := past[i].event.poll;
      LatestIsSettled(db, mem, e, k, poll.fetchedAt, Reported(poll)[k].state);
    }
  }

  lemma LastPoll(archive: Archive, acts: seq<Act>)
    requires acts != []
    ensures var past, e := acts[..|acts| - 1], acts[|acts| - 1].event;
            ReplaysEveryPoll(archive, acts) <==>
              ReplaysEveryPoll(archive, past) && (IsCommit(e) ==> Replays(archive, e.poll))
  {
    var past := acts[..|acts| - 1];
    assert forall i | 0 <= i < |past| :: past[i] == acts[i];
  }

  /** The archive replays every committed poll if and only if no cache ever hid an unarchived state. */
  lemma {:induction false} ReplaysWhenKnown(legacyTable: bool, acts: seq<Act>)
    requires ClocksAdvance(acts)
    ensures ReplaysEveryPoll(RunOf(legacyTable, acts).0.archive, acts) <==> SuppressesKnownThroughout(legacyTable, acts)
    decreases |acts|
  {
    if acts == [] {
    } else {
      var past, a := acts[..|acts| - 1], acts[|acts| - 1];
      ReplaysWhenKnown(legacyTable, past);
      var (db, mems) := RunOf(legacyTable, past);
      var mem := MemoryOf(mems, a.collector);
      EarlierPollsAreSettled(db, mem, a.event, past);
      LastPoll(RunOf(legacyTable, acts).0.archive, acts);
      if IsCommit(a.event) {
        ArchiveIsOlder(legacyTable, past, a.event.poll.fetchedAt);
        CommitReplaysExactlyWhen(db, mem, a.event.poll);
      }
    }
  }

  // ---- The condition on the acts ----

  /** The state that the last committed poll of any collector has reported for the key. */
  ghost function LastReported(acts: seq<Act>, k: Key): Option<StopState> {
    if acts == [] then None
    else
      var past, e := acts[..|acts| - 1], acts[|acts| - 1].event;
      if IsCommit(e) && k in Reported(e.poll) then Some(Reported(e.poll)[k].state) else LastReported(past, k)
  }

  /** Each state the cache suppresses is the one last reported, by whichever collector. */
  ghost predicate SuppressesRepeats(acts: seq<Act>, hashes: map<Key, StopState>, poll: Poll) {
    forall k | k in Reported(poll) && IsUnchanged(hashes, k, Reported(poll)[k]) ::
      LastReported(acts, k) == Some(Reported(poll)[k].state)
  }

  ghost predicate SuppressesRepeatsThroughout(legacyTable: bool, acts: seq<Act>) {
    acts == [] ||
    (var past, a := acts[..|acts| - 1], acts[|acts| - 1];
     var (db, mems) := RunOf(legacyTable, past);
     && SuppressesRepeatsThroughout(legacyTable, past)
     && (IsCommit(a.event) ==>
           var poll := a.event.poll;
           SuppressesRepeats(past, AfterLoad(db, MemoryOf(mems, a.collector), poll.feed, poll.now).hashes, poll)))
  }

  /** The newest archived state of each key is the one last reported. */
  ghost predicate IsCurrent(archive: Archive, acts: seq<Act>) {
    forall k, s :: NewestIs(archive, k, s) <==> LastReported(acts, k) == Some(s)
  }

  lemma NewestIsOne(archive: Archive, k: Key, a: StopState, b: StopState)
    requires NewestIs(archive, k, a) && NewestIs(archive, k, b)
    ensures a == b
  {}

  /** What a write makes of a key's newest state: the reported one, or what it was. */
  lemma WrittenNewest(archive: Archive, poll: Poll, rows: map<Key, StopUpdate>, k: Key, s: StopState)
    requires WellKeyed(poll.feed, Reported(poll)) && Older(archive, poll.fetchedAt)
    requires rows.Keys <= Reported(poll).Keys && forall x | x in rows :: rows[x] == Reported(poll)[x]
    requires k in Reported(poll) && k !in rows ==> NewestIs(archive, k, Reported(poll)[k].state)
    ensures NewestIs(AppendObservations(archive, poll.feed, rows, poll.trips, poll.fetchedAt), k, s) <==>
            if k in Reported(poll) then s == Reported(poll)[k].state else NewestIs(archive, k, s)
  {
    var after := AppendObservations(archive, poll.feed, rows, poll.trips, poll.fetchedAt);
    if k in Reported(poll) {
      var own := Reported(poll)[k].state;
      AppendedNewest(archive, poll.feed, rows, poll.trips, poll.fetchedAt, k, own);
      if NewestIs(after, k, s) {
        NewestIsOne(after, k, s, own);
      }
    } else if NewestIs(after, k, s) {
      StillNotNewest(archive, poll.feed, rows, poll.trips, poll.fetchedAt, k, s);
    } else if NewestIs(archive, k, s) {
      AppendedNewest(archive, poll.feed, rows, poll.trips, poll.fetchedAt, k, s);
    }
  }

  /** A commit that suppresses only repeats leaves the newest archived states current. */
  lemma CommitIsCurrent(db: Database, mem: Memory, poll: Poll, acts: seq<Act>, collector: nat)
    requires Commits(poll) && Older(db.archive, poll.fetchedAt) && IsCurrent(db.archive, acts)
    requires SuppressesRepeats(acts, AfterLoad(db, mem, poll.feed, poll.now).hashes, poll)
    ensures IsCurrent(Step(db, mem, Polled(poll)).0.archive, acts + [Act(collector, Polled(poll))])
  {
    var rows := Changed(AfterLoad(db, mem, poll.feed, poll.now).hashes, Reported(poll));
    var more := acts + [Act(collector, Polled(poll))];
    assert more[..|acts|] == acts;
    CurrentWellKeyed(poll.feed, poll.updates);
    forall k, s
      ensures NewestIs(Step(db, mem, Polled(poll)).0.archive, k, s) <==> LastReported(more, k) == Some(s)
    {
      WrittenNewest(db.archive, poll, rows, k, s);
    }
  }

  lemma OtherEventIsCurrent(db: Database, mem: Memory, a: Act, acts: seq<Act>)
    requires !IsCommit(a.event) && IsCurrent(db.archive, acts)
    ensures IsCurrent(Step(db, mem, a.event).0.archive, acts + [a])
  {
    assert (acts + [a])[..|acts|] == acts;
  }

  lemma {:induction false} RepeatsAreKnown(legacyTable: bool, acts: seq<Act>)
    requires ClocksAdvance(acts)
    ensures SuppressesRepeatsThroughout(legacyTable, acts) <==> SuppressesKnownThroughout(legacyTable, acts)
    ensures SuppressesRepeatsThroughout(legacyTable, acts) ==> IsCurrent(RunOf(legacyTable, acts).0.archive, acts)
    decreases |acts|
  {
    if acts == [] {
    } else {
      var past, a := acts[..|acts| - 1], acts[|acts| - 1];
      assert acts == past + [a];
      RepeatsAreKnown(legacyTable, past);
      var (db, mems) := RunOf(legacyTable, past);
      var mem := MemoryOf(mems, a.collector);
      if SuppressesRepeatsThroughout(legacyTable, past) {
        if IsCommit(a.event) {
          ArchiveIsOlder(legacyTable, past, a.event.poll.fetchedAt);
          if SuppressesRepeatsThroughout(legacyTable, acts) {
            CommitIsCurrent(db, mem, a.event.poll, past, a.collector);
          }
        } else {
          OtherEventIsCurrent(db, mem, a, past);
        }
      }
    }
  }

  /**
   Any number of collectors: the archive replays every committed poll if and only if each state
   that some cache suppresses is the one that the last committed poll of any collector reported.
   */
  lemma ReplaysEveryPollExactlyWhen(legacyTable: bool, acts: seq<Act>)
    requires ClocksAdvance(acts)
    ensures ReplaysEveryPoll(RunOf(legacyTable, acts).0.archive, acts) <==>
            SuppressesRepeatsThroughout(legacyTable, acts)
  {
    ReplaysWhenKnown(legacyTable, acts);
    RepeatsAreKnown(legacyTable, acts);
  }
}
