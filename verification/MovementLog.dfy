/**
 The rail movement log: a stop is inserted when its fingerprint changes, and the cache that
 decides this is published only after the commit.
 */
module MovementLog {
  import opened Wrappers

  datatype Key = Key(code: string, date: string, location: string, order: int)

  /** A row of the reply; rows without a train or with bad numbers are skipped. */
  datatype Movement = Invalid | Movement(key: Key, fingerprint: string)

  datatype Row = Row(key: Key, fingerprint: string)

  // ---- The process and its table ----

  /** A fetch whose transaction is open: what it has inserted, and all it has seen. */
  datatype Flight = Flight(pending: map<Key, string>, inserts: seq<Row>, seen: seq<Row>)

  /** The observed rows are those that committed fetches have seen; they exist only in the statements. */
  datatype State = State(cache: map<Key, string>, table: seq<Row>, flight: Option<Flight>, observed: seq<Row>)

  const EMPTY := State(map[], [], None, [])

  /** The clean-up task may run between any two steps of a fetch. */
  datatype Event = Begin | See(movement: Movement) | Commit | Fail | CleanUp(active: set<string>) | Restart

  predicate IsSkipped(m: Movement) {
    m.Invalid? || m.key.code == ""
  }

  function Get(m: map<Key, string>, k: Key): Option<string> {
    if k in m then Some(m[k]) else None
  }

  function Previous(pending: map<Key, string>, cache: map<Key, string>, k: Key): Option<string> {
    if k in pending then Some(pending[k]) else Get(cache, k)
  }

  function Seen(cache: map<Key, string>, f: Flight, m: Movement): Flight
    requires !IsSkipped(m)
  {
    var row := Row(m.key, m.fingerprint);
    if Previous(f.pending, cache, m.key) == Some(m.fingerprint) then f.(seen := f.seen + [row])
    else Flight(f.pending[m.key := m.fingerprint], f.inserts + [row], f.seen + [row])
  }

  function TrainOf(k: Key): string {
    k.code + ":" + k.date
  }

  function Cleaned(cache: map<Key, string>, active: set<string>): map<Key, string> {
    cache - set k | k in cache && TrainOf(k) !in active
  }

  function Step(s: State, e: Event): State {
    match e
    case Begin => if s.flight.None? then s.(flight := Some(Flight(map[], [], []))) else s
    case See(m) => if s.flight.None? || IsSkipped(m) then s else s.(flight := Some(Seen(s.cache, s.flight.value, m)))
    case Commit =>
      if s.flight.None? then s
      else State(s.cache + s.flight.value.pending, s.table + s.flight.value.inserts, None,
                 s.observed + s.flight.value.seen)
    case Fail => s.(flight := None)
    case CleanUp(active) => s.(cache := Cleaned(s.cache, active))
    case Restart => s.(cache := map[], flight := None)
  }

  function Run(s: State, es: seq<Event>): State {
    if es == [] then s else Step(Run(s, es[..|es| - 1]), es[|es| - 1])
  }

  // ---- Streams of one key ----

  function Of(k: Key, rows: seq<Row>): seq<string> {
    if rows == [] then []
    else Of(k, rows[..|rows| - 1]) + if rows[|rows| - 1].key == k then [rows[|rows| - 1].fingerprint] else []
  }

  function LastOr(first: Option<string>, stream: seq<string>): Option<string> {
    if stream == [] then first else Some(stream[|stream| - 1])
  }

  /** The stream without the elements that repeat their predecessor. */
  function Changes(first: Option<string>, stream: seq<string>): seq<string> {
    if stream == [] then []
    else
      var before, last := stream[..|stream| - 1], stream[|stream| - 1];
      Changes(first, before) + if LastOr(first, before) == Some(last) then [] else [last]
  }

  lemma OfOne(k: Key, rows: seq<Row>, row: Row)
    ensures Of(k, rows + [row]) == Of(k, rows) + if row.key == k then [row.fingerprint] else []
  {
    assert (rows + [row])[..|rows|] == rows;
  }

  /** No element repeats its predecessor, the first one being preceded by first. */
  predicate NeverRepeats(first: Option<string>, stream: seq<string>) {
    && (stream != [] ==> first != Some(stream[0]))
    && forall i | 0 <= i < |stream| - 1 :: stream[i] != stream[i + 1]
  }

  lemma NeverRepeatsMore(first: Option<string>, stream: seq<string>, f: string)
    requires NeverRepeats(first, stream) && LastOr(first, stream) != Some(f)
    ensures NeverRepeats(first, stream + [f])
  {}

  /** The changes never repeat, and the last change is the last element. */
  lemma {:induction false} ChangesAreChanges(first: Option<string>, stream: seq<string>)
    ensures NeverRepeats(first, Changes(first, stream))
    ensures LastOr(first, Changes(first, stream)) == LastOr(first, stream)
    decreases |stream|
  {
    if stream == [] {
    } else {
      var before, last := stream[..|stream| - 1], stream[|stream| - 1];
      ChangesAreChanges(first, before);
      if LastOr(first, before) == Some(last) {
        assert Changes(first, stream) == Changes(first, before);
      } else {
        NeverRepeatsMore(first, Changes(first, before), last);
      }
    }
  }

  // ---- Every run ----

  /** What a fetch has inserted and seen is a log of the same changes, and the cache knows its end. */
  ghost predicate Tracks(k: Key, known: Option<string>, log: seq<string>, stream: seq<string>) {
    && Changes(None, log) == Changes(None, stream)
    && LastOr(None, log) == LastOr(None, stream)
    && (known.Some? ==> known == LastOr(None, log))
  }

  ghost predicate IsConsistent(s: State, k: Key) {
    && Tracks(k, Get(s.cache, k), Of(k, s.table), Of(k, s.observed))
    && (s.flight.Some? ==>
          var f := s.flight.value;
          Tracks(k, Previous(f.pending, s.cache, k), Of(k, s.table + f.inserts), Of(k, s.observed + f.seen)))
  }

  lemma LogOne(k: Key, known: Option<string>, log: seq<string>, stream: seq<string>, f: string)
    requires Tracks(k, known, log, stream)
    ensures known == Some(f) ==> Tracks(k, known, log, stream + [f])
    ensures Tracks(k, Some(f), log + [f], stream + [f])
  {
    assert (stream + [f])[..|stream|] == stream && (log + [f])[..|log|] == log;
    if known == Some(f) {
      assert Changes(None, stream + [f]) == Changes(None, stream);
    }
  }

  lemma SeenTracks(s: State, f: Flight, m: Movement, k: Key)
    requires !IsSkipped(m)
    requires Tracks(k, Previous(f.pending, s.cache, k), Of(k, s.table + f.inserts), Of(k, s.observed + f.seen))
    ensures var g := Seen(s.cache, f, m);
            Tracks(k, Previous(g.pending, s.cache, k), Of(k, s.table + g.inserts), Of(k, s.observed + g.seen))
  {
    var row := Row(m.key, m.fingerprint);
    SeenAppends(s.observed, f.seen, row, k);
    SeenAppends(s.table, f.inserts, row, k);
    if m.key == k {
      LogOne(k, Previous(f.pending, s.cache, k), Of(k, s.table + f.inserts), Of(k, s.observed + f.seen), m.fingerprint);
    }
  }

  lemma SeenAppends(before: seq<Row>, rows: seq<Row>, row: Row, k: Key)
    ensures row.key == k ==> Of(k, before + (rows + [row])) == Of(k, before + rows) + [row.fingerprint]
    ensures row.key != k ==> Of(k, before + (rows + [row])) == Of(k, before + rows)
  {
    assert before + (rows + [row]) == before + rows + [row];
    OfOne(k, before + rows, row);
  }

  lemma StepKeepsConsistent(s: State, e: Event, k: Key)
    requires IsConsistent(s, k)
    ensures IsConsistent(Step(s, e), k)
  {
    match e
    case See(m) =>
      if s.flight.Some? && !IsSkipped(m) {
        SeenTracks(s, s.flight.value, m, k);
      }
    case Begin =>
      assert s.table + [] == s.table && s.observed + [] == s.observed;
    case _ =>
  }

  /**
   In every run the log of a stop has the changes of what committed fetches have seen, and a
   cached fingerprint is that of the last committed row.
   */
  lemma {:induction false} LogKeepsEveryChange(es: seq<Event>, k: Key)
    ensures var s := Run(EMPTY, es);
            && IsConsistent(s, k)
            && Changes(None, Of(k, s.table)) == Changes(None, Of(k, s.observed))
            && (k in s.cache ==> Of(k, s.table) != [] && s.cache[k] == Of(k, s.table)[|Of(k, s.table)| - 1])
    decreases |es|
  {
    if es == [] {
    } else {
      LogKeepsEveryChange(es[..|es| - 1], k);
      StepKeepsConsistent(Run(EMPTY, es[..|es| - 1]), es[|es| - 1], k);
    }
  }

  // ---- Between clean-ups and restarts ----

  /** Nothing in the run makes the cache forget the stop. */
  predicate Remembers(es: seq<Event>, k: Key) {
    forall i | 0 <= i < |es| :: !es[i].Restart? && (es[i].CleanUp? ==> TrainOf(k) in es[i].active)
  }

  /** A log that has grown from start by exactly the changes of the stream. */
  predicate Follows(start: seq<string>, first: Option<string>, known: Option<string>, log: seq<string>,
                    stream: seq<string>) {
    log == start + Changes(first, stream) && known == LastOr(first, stream)
  }

  lemma FollowOne(start: seq<string>, first: Option<string>, known: Option<string>, log: seq<string>,
                  stream: seq<string>, f: string)
    requires Follows(start, first, known, log, stream)
    ensures known == Some(f) ==> Follows(start, first, known, log, stream + [f])
    ensures known != Some(f) ==> Follows(start, first, Some(f), log + [f], stream + [f])
  {
    assert (stream + [f])[..|stream|] == stream;
    if known == Some(f) {
      assert Changes(first, stream + [f]) == Changes(first, stream);
    } else {
      assert start + (Changes(first, stream) + [f]) == start + Changes(first, stream) + [f];
    }
  }

  ghost predicate FlightFollows(start: seq<string>, first: Option<string>, s: State, f: Flight, tail: seq<Row>,
                                k: Key) {
    Follows(start, first, Previous(f.pending, s.cache, k), Of(k, s.table + f.inserts), Of(k, tail + f.seen))
  }

  ghost predicate IsExact(before: State, s: State, k: Key) {
    var start, first, skip := Of(k, before.table), Get(before.cache, k), |before.observed|;
    && skip <= |s.observed|
    && Follows(start, first, Get(s.cache, k), Of(k, s.table), Of(k, s.observed[skip..]))
    && (s.flight.Some? ==> FlightFollows(start, first, s, s.flight.value, s.observed[skip..], k))
  }

  lemma SeenFollows(start: seq<string>, first: Option<string>, s: State, f: Flight, tail: seq<Row>, m: Movement, k: Key)
    requires !IsSkipped(m) && FlightFollows(start, first, s, f, tail, k)
    ensures FlightFollows(start, first, s, Seen(s.cache, f, m), tail, k)
  {
    var row := Row(m.key, m.fingerprint);
    SeenAppends(tail, f.seen, row, k);
    SeenAppends(s.table, f.inserts, row, k);
    if m.key == k {
      FollowOne(start, first, Previous(f.pending, s.cache, k), Of(k, s.table + f.inserts), Of(k, tail + f.seen),
                m.fingerprint);
    }
  }

  lemma StepKeepsExact(before: State, s: State, e: Event, k: Key)
    requires IsExact(before, s, k) && Remembers([e], k)
    ensures IsExact(before, Step(s, e), k)
  {
    var skip := |before.observed|;
    assert [e][0] == e;
    match e
    case See(m) =>
      if s.flight.Some? && !IsSkipped(m) {
        SeenFollows(Of(k, before.table), Get(before.cache, k), s, s.flight.value, s.observed[skip..], m, k);
      }
    case Begin =>
      assert s.table + [] == s.table && s.observed[skip..] + [] == s.observed[skip..];
    case Commit =>
      if s.flight.Some? {
        assert (s.observed + s.flight.value.seen)[skip..] == s.observed[skip..] + s.flight.value.seen;
      }
    case _ =>
  }

  lemma {:induction false} RunIsExact(s: State, es: seq<Event>, k: Key)
    requires s.flight.None? && Remembers(es, k)
    ensures IsExact(s, Run(s, es), k)
    decreases |es|
  {
    if es == [] {
      assert s.observed[|s.observed|..] == [] && Of(k, s.table) + [] == Of(k, s.table);
    } else {
      var n := |es| - 1;
      assert forall i | 0 <= i < n :: es[..n][i] == es[i];
      RunIsExact(s, es[..n], k);
      StepKeepsExact(s, Run(s, es[..n]), es[n], k);
    }
  }

  /**
   As long as the stop is remembered, the rows inserted for it are exactly the fingerprints
   that committed fetches have seen, without consecutive repeats.
   */
  lemma InsertsAreTheChanges(s: State, es: seq<Event>, k: Key)
    requires s.flight.None? && Remembers(es, k)
    ensures |s.observed| <= |Run(s, es).observed|
    ensures var t, first := Run(s, es), Get(s.cache, k);
            var inserted := Changes(first, Of(k, t.observed[|s.observed|..]));
            Of(k, t.table) == Of(k, s.table) + inserted && NeverRepeats(first, inserted)
  {
    RunIsExact(s, es, k);
    ChangesAreChanges(Get(s.cache, k), Of(k, Run(s, es).observed[|s.observed|..]));
  }

  // ---- The fetch as a method ----

  function EventsOf(movements: seq<Movement>): seq<Event> {
    if movements == [] then [Begin] else EventsOf(movements[..|movements| - 1]) + [See(movements[|movements| - 1])]
  }

  /** What a fetch has gathered when nothing interrupts it. */
  function Flown(cache: map<Key, string>, movements: seq<Movement>): Flight {
    if movements == [] then Flight(map[], [], [])
    else
      var before, m := Flown(cache, movements[..|movements| - 1]), movements[|movements| - 1];
      if IsSkipped(m) then before else Seen(cache, before, m)
  }

  lemma {:induction false} RunOfFetch(s: State, movements: seq<Movement>)
    requires s.flight.None?
    ensures Run(s, EventsOf(movements)) == s.(flight := Some(Flown(s.cache, movements)))
    decreases |movements|
  {
    var es := EventsOf(movements);
    if movements == [] {
      assert es[..0] == [];
    } else {
      var n := |movements| - 1;
      RunOfFetch(s, movements[..n]);
      assert es[..|es| - 1] == EventsOf(movements[..n]);
    }
  }

  // ---- What a fetch does to one stop ----

  /** The fingerprints that a reply gives for a stop of a named train, in order. */
  function FingerprintsOf(k: Key, movements: seq<Movement>): seq<string> {
    if movements == [] then []
    else
      var m := movements[|movements| - 1];
      FingerprintsOf(k, movements[..|movements| - 1]) +
      if m.Movement? && m.key == k && k.code != "" then [m.fingerprint] else []
  }

  lemma OneMoreFingerprint(k: Key, movements: seq<Movement>, m: Movement)
    ensures FingerprintsOf(k, movements + [m]) ==
              if !IsSkipped(m) && m.key == k then FingerprintsOf(k, movements) + [m.fingerprint]
              else FingerprintsOf(k, movements)
  {
    assert (movements + [m])[..|movements|] == movements;
  }

  lemma SeenFollowsReply(cache: map<Key, string>, f: Flight, m: Movement, k: Key, reply: seq<string>)
    requires !IsSkipped(m) && Follows([], Get(cache, k), Previous(f.pending, cache, k), Of(k, f.inserts), reply)
    ensures var g := Seen(cache, f, m);
            Follows([], Get(cache, k), Previous(g.pending, cache, k), Of(k, g.inserts),
                    if m.key == k then reply + [m.fingerprint] else reply)
  {
    OfOne(k, f.inserts, Row(m.key, m.fingerprint));
    if m.key == k {
      FollowOne([], Get(cache, k), Previous(f.pending, cache, k), Of(k, f.inserts), reply, m.fingerprint);
    }
  }

  /** The fetch has inserted the changes of the reply for k, and knows its last fingerprint. */
  ghost predicate IsFlown(cache: map<Key, string>, movements: seq<Movement>, k: Key) {
    var f := Flown(cache, movements);
    Follows([], Get(cache, k), Previous(f.pending, cache, k), Of(k, f.inserts), FingerprintsOf(k, movements))
  }

  lemma FlownOne(cache: map<Key, string>, movements: seq<Movement>, m: Movement, k: Key)
    requires IsFlown(cache, movements, k)
    ensures IsFlown(cache, movements + [m], k)
  {
    OneMoreFingerprint(k, movements, m);
    assert (movements + [m])[..|movements|] == movements;
    if !IsSkipped(m) {
      SeenFollowsReply(cache, Flown(cache, movements), m, k, FingerprintsOf(k, movements));
    }
  }

  lemma {:induction false} FetchIsFlown(cache: map<Key, string>, movements: seq<Movement>, k: Key)
    ensures IsFlown(cache, movements, k)
    decreases |movements|
  {
    if movements == [] {
    } else {
      var n := |movements| - 1;
      FetchIsFlown(cache, movements[..n], k);
      FlownOne(cache, movements[..n], movements[n], k);
      assert movements == movements[..n] + [movements[n]];
    }
  }

  lemma {:induction false} OfJoins(k: Key, a: seq<Row>, b: seq<Row>)
    ensures Of(k, a + b) == Of(k, a) + Of(k, b)
    decreases |b|
  {
    if b == [] {
      assert a + b == a;
    } else {
      var n := |b| - 1;
      OfJoins(k, a, b[..n]);
      OfOne(k, a + b[..n], b[n]);
      assert a + b == a + b[..n] + [b[n]];
    }
  }

  /** A stop's log grows by the changes of the reply, and the last fingerprint of the reply is cached. */
  predicate IsFetched(before: seq<Row>, known: map<Key, string>, movements: seq<Movement>, table: seq<Row>,
                      cache: map<Key, string>, k: Key) {
    var reply := FingerprintsOf(k, movements);
    && Of(k, table) == Of(k, before) + Changes(Get(known, k), reply)
    && Get(cache, k) == if reply == [] then Get(known, k) else Some(reply[|reply| - 1])
  }

  lemma FetchIsOutcome(table: seq<Row>, cache: map<Key, string>, movements: seq<Movement>)
    ensures var f := Flown(cache, movements);
            forall k :: IsFetched(table, cache, movements, table + f.inserts, cache + f.pending, k)
  {
    var f := Flown(cache, movements);
    forall k
      ensures IsFetched(table, cache, movements, table + f.inserts, cache + f.pending, k)
    {
      FetchIsFlown(cache, movements, k);
      OfJoins(k, table, f.inserts);
    }
  }

  class MovementTask {
    var cache: map<Key, string>
    var table: seq<Row>
    ghost var observed: seq<Row>

    constructor ()
      ensures State(cache, table, None, observed) == EMPTY
    {
      cache, table, observed := map[], [], [];
    }

    /** The number of rows inserted, -1 if nothing changed, and 0 after an error. */
    method FetchTrainMovements(movements: seq<Movement>, commits: bool) returns (count: int)
      modifies this
      ensures State(cache, table, None, observed) ==
              Step(Run(old(State(cache, table, None, observed)), EventsOf(movements)), if commits then Commit else Fail)
      ensures count == if !commits then 0 else if table == old(table) then -1 else |table| - |old(table)|
      ensures !commits ==> table == old(table) && cache == old(cache)
      ensures commits ==> old(table) <= table
      ensures commits ==> forall k :: IsFetched(old(table), old(cache), movements, table, cache, k)
    {
      var pending: map<Key, string> := map[];
      var inserts: seq<Row> := [];
      ghost var seen: seq<Row> := [];
      for i := 0 to |movements|
        invariant Flight(pending, inserts, seen) == Flown(cache, movements[..i])
      {
        assert movements[..i + 1][..i] == movements[..i];
        var m := movements[i];
        if IsSkipped(m) {
          continue;
        }
        seen := seen + [Row(m.key, m.fingerprint)];
        var previous :=
          if m.key in pending then Some(pending[m.key]) else if m.key in cache then Some(cache[m.key]) else None;
        if previous == Some(m.fingerprint) {
          continue;
        }
        inserts := inserts + [Row(m.key, m.fingerprint)];
        pending := pending[m.key := m.fingerprint];
      }
      assert movements[..|movements|] == movements;
      RunOfFetch(State(cache, table, None, observed), movements);
      if !commits {
        return 0;
      }
      FetchIsOutcome(table, cache, movements);
      table := table + inserts;
      cache := cache + pending;
      observed := observed + seen;
      return if |inserts| > 0 then |inserts| else -1;
    }

    method CleanUpStaleHashes(active: set<string>)
      modifies this`cache
      ensures State(cache, table, None, observed) == Step(old(State(cache, table, None, observed)), CleanUp(active))
      ensures forall k :: k in cache <==> k in old(cache) && k.code + ":" + k.date in active
      ensures forall k | k in cache :: cache[k] == old(cache)[k]
      ensures forall k | old(IsConsistent(State(cache, table, None, observed), k)) ::
              IsConsistent(State(cache, table, None, observed), k)
    {
      ghost var s := State(cache, table, None, observed);
      var stale := set k | k in cache && TrainOf(k) !in active;
      var left := stale;
      while left != {}
        invariant left <= stale
        invariant cache == s.cache - (stale - left) && table == s.table && observed == s.observed
        decreases left
      {
        var key :| key in left;
        cache := cache - {key};
        left := left - {key};
      }
      assert cache == Cleaned(s.cache, active);
      forall k | IsConsistent(s, k)
        ensures IsConsistent(Step(s, CleanUp(active)), k)
      {
        StepKeepsConsistent(s, CleanUp(active), k);
      }
    }
  }
}
