/**
 The shared realtime reservation: one row in the database limits the requests of any number
 of daemons, and the latest recorded request decides which of two feeds comes next.
 */
module Reservation {
  import opened Wrappers

  const MIN_INTERVAL_SECONDS := 60
  const SAFETY_SECONDS := 1
  const SPACING := 61.0
  const REALTIME_ENDPOINT := "nta_realtime"

  datatype Schedule = Missing | Row(next: Option<real>, enabled: bool)

  datatype Feed = Vehicles | TripUpdates

  datatype Endpoint = Polled(feed: Feed) | Other(name: string)

  datatype Record = Record(endpoint: Endpoint, at: real, id: nat)

  /**
   One reservation statement of a daemon with its configured interval. The statement reads the
   clock for the row it wants to store, then possibly waits for the row lock, then decides.
   */
  datatype Attempt = Attempt(configured: int, stamped: real, decided: real)

  function ReservationSeconds(configured: int): int {
    (if configured < MIN_INTERVAL_SECONDS then MIN_INTERVAL_SECONDS else configured) + SAFETY_SECONDS
  }

  /** A minute and a second, or the configured interval and a second, whichever is longer. */
  lemma ReservesTheLonger(configured: int)
    ensures ReservationSeconds(configured) >= configured + 1 && ReservationSeconds(configured) >= 61
    ensures ReservationSeconds(configured) == configured + 1 || ReservationSeconds(configured) == 61
  {}

  predicate IsGranted(schedule: Schedule, a: Attempt) {
    match schedule
    case Missing => true
    case Row(next, enabled) => enabled && (next.None? || next.value <= a.decided)
  }

  function Reserved(schedule: Schedule, a: Attempt): Schedule {
    if IsGranted(schedule, a)
    then Row(Some(a.stamped + ReservationSeconds(a.configured) as real), schedule.Row? ==> schedule.enabled)
    else schedule
  }

  // ---- The latest recorded request ----

  predicate IsNewer(a: Record, b: Record) {
    a.at > b.at || (a.at == b.at && a.id > b.id)
  }

  function Latest(history: seq<Record>): Option<Record> {
    if history == [] then None
    else
      var before := Latest(history[..|history| - 1]);
      var last := history[|history| - 1];
      if last.endpoint.Polled? && (before.None? || IsNewer(last, before.value)) then Some(last) else before
  }

  /** Identifiers are handed out in the order of insertion. */
  predicate IsNumbered(history: seq<Record>) {
    forall i | 0 <= i < |history| :: history[i].id == i
  }

  lemma {:induction false} LatestIsNewest(history: seq<Record>)
    requires IsNumbered(history)
    ensures Latest(history).None? ==> forall i | 0 <= i < |history| :: history[i].endpoint.Other?
    ensures Latest(history).Some? ==>
              var latest := Latest(history).value;
              && latest.id < |history| && latest == history[latest.id] && latest.endpoint.Polled?
              && forall i | 0 <= i < |history| && history[i].endpoint.Polled? && i != latest.id ::
                   history[i].at < latest.at || (history[i].at == latest.at && i < latest.id)
    decreases |history|
  {
    if history == [] {
    } else {
      var before := history[..|history| - 1];
      assert forall i | 0 <= i < |before| :: before[i] == history[i];
      LatestIsNewest(before);
    }
  }

  /** Request k is the latest by time, then identifier, of those for one of the two feeds. */
  predicate IsLatestRequest(history: seq<Record>, k: int) {
    && 0 <= k < |history| && history[k].endpoint.Polled?
    && forall i | 0 <= i < |history| && history[i].endpoint.Polled? && i != k ::
         history[i].at < history[k].at || (history[i].at == history[k].at && i < k)
  }

  function LatestFeed(history: seq<Record>): Option<Feed> {
    var latest := Latest(history);
    if latest.Some? && latest.value.endpoint.Polled? then Some(latest.value.endpoint.feed) else None
  }

  function NextFeed(latest: Option<Feed>): Feed {
    if latest == None || latest == Some(TripUpdates) then Vehicles else TripUpdates
  }

  /** The trip updates come next exactly when the latest recorded request was for the vehicles. */
  lemma NextFeedIsTheOther(history: seq<Record>)
    requires IsNumbered(history)
    ensures NextFeed(LatestFeed(history)) == TripUpdates <==>
            exists k | 0 <= k < |history| :: IsLatestRequest(history, k) && history[k].endpoint == Polled(Vehicles)
  {
    LatestIsNewest(history);
    if Latest(history).Some? {
      var id := Latest(history).value.id;
      assert IsLatestRequest(history, id);
      forall k | IsLatestRequest(history, k)
        ensures k == id
      {
        assert history[id].endpoint.Polled? && history[k].endpoint.Polled?;
      }
      assert history[id].endpoint.feed.Vehicles? || history[id].endpoint.feed.TripUpdates?;
    }
  }

  // ---- Runs of any number of daemons ----

  datatype State = State(schedule: Schedule, history: seq<Record>, pending: map<nat, Feed>)

  datatype Event =
    | Reserve(daemon: nat, attempt: Attempt)
    | Report(daemon: nat, at: real)
    | Die(daemon: nat)
    | LogOther(name: string, at: real)
    | SetEnabled(enabled: bool)

  /** A granted daemon holds a feed until it reports the request; a crash loses it. */
  function Step(s: State, e: Event): State {
    match e
    case Reserve(d, a) =>
      s.(schedule := Reserved(s.schedule, a),
         pending := if IsGranted(s.schedule, a) then s.pending[d := NextFeed(LatestFeed(s.history))]
           else s.pending - {d})
    case Report(d, at) =>
      if d in s.pending
      then s.(history := s.history + [Record(Polled(s.pending[d]), at, |s.history|)], pending := s.pending - {d})
      else s
    case Die(d) => s.(pending := s.pending - {d})
    case LogOther(name, at) => s.(history := s.history + [Record(Other(name), at, |s.history|)])
    case SetEnabled(enabled) => if s.schedule.Row? then s.(schedule := s.schedule.(enabled := enabled)) else s
  }

  // ---- The tables as an object ----

  /** The schedule row and the request history as the database keeps them. */
  class FetchTables {
    var schedule: Schedule
    var history: seq<Record>

    constructor (initial: Schedule)
      ensures schedule == initial && history == []
    {
      schedule := initial;
      history := [];
    }

    method Reserve(configured: int, stamped: real, decided: real) returns (feed: Option<Feed>)
      modifies this`schedule
      ensures schedule == Reserved(old(schedule), Attempt(configured, stamped, decided))
      ensures feed == if IsGranted(old(schedule), Attempt(configured, stamped, decided))
              then Some(NextFeed(LatestFeed(history))) else None
      ensures feed.Some? <==>
                || old(schedule).Missing?
                || (old(schedule).enabled && (old(schedule).next.None? || old(schedule).next.value <= decided))
      ensures feed.None? ==> schedule == old(schedule)
      ensures feed.Some? ==>
                && schedule.Row? && (old(schedule).Missing? ==> schedule.enabled)
                && (old(schedule).Row? ==> schedule.enabled == old(schedule).enabled)
                && schedule.next.Some?
                && schedule.next.value >= stamped + (configured + 1) as real && schedule.next.value >= stamped + 61.0
                && (schedule.next.value == stamped + (configured + 1) as real || schedule.next.value == stamped + 61.0)
    {
      var interval := if configured > MIN_INTERVAL_SECONDS then configured else MIN_INTERVAL_SECONDS;
      var next := stamped + (interval + SAFETY_SECONDS) as real;
      match schedule {
        case Missing =>
          schedule := Row(Some(next), true);
        case Row(due, enabled) =>
          if !enabled || (due.Some? && due.value > decided) {
            return None;
          }
          schedule := Row(Some(next), enabled);
      }
      var latest := FindLatest();
      if latest.None? || latest.value.endpoint == Polled(TripUpdates) {
        return Some(Vehicles);
      }
      return Some(TripUpdates);
    }

    method FindLatest() returns (latest: Option<Record>)
      ensures latest == Latest(history)
      ensures latest.Some? ==> latest.value.endpoint.Polled?
    {
      latest := None;
      for i := 0 to |history|
        invariant latest == Latest(history[..i])
        invariant latest.Some? ==> latest.value.endpoint.Polled?
      {
        assert history[..i + 1][..i] == history[..i];
        if history[i].endpoint.Polled? && (latest.None? || IsNewer(history[i], latest.value)) {
          latest := Some(history[i]);
        }
      }
      assert history[..|history|] == history;
    }

    method RecordFetch(endpoint: Endpoint, at: real)
      modifies this`history
      ensures history == old(history) + [Record(endpoint, at, |old(history)|)]
    {
      history := history + [Record(endpoint, at, |history|)];
    }

    /**
     One poll: without an active feed it fails before any reservation, under the name of neither
     feed, as it does when a lookup or the reservation itself fails; otherwise it reserves, then
     requests and reports. reported is None for a process that dies before it reports.
     */
    method PollRealtime(feedIsActive: bool, configured: int, stamped: real, decided: real, reported: Option<real>)
      returns (feed: Option<Feed>)
      modifies this
      ensures var before := State(old(schedule), old(history), map[]);
              var reserved := Step(before, Event.Reserve(0, Attempt(configured, stamped, decided)));
              var after := if !feedIsActive
                           then if reported.Some? then Step(before, LogOther(REALTIME_ENDPOINT, reported.value))
                             else before
                           else if reported.Some? then Step(reserved, Report(0, reported.value))
                           else reserved;
              schedule == after.schedule && history == after.history
      ensures feed.Some? <==> feedIsActive && IsGranted(old(schedule), Attempt(configured, stamped, decided))
    {
      if !feedIsActive {
        if reported.Some? {
          RecordFetch(Other(REALTIME_ENDPOINT), reported.value);
        }
        return None;
      }
      feed := Reserve(configured, stamped, decided);
      if feed.Some? && reported.Some? {
        RecordFetch(Polled(feed.value), reported.value);
      }
    }
  }

  function Run(initial: Schedule, es: seq<Event>): State {
    if es == [] then State(initial, [], map[])
    else Step(Run(initial, es[..|es| - 1]), es[|es| - 1])
  }

  /** The granted reservations of a run, in order. */
  function Grants(initial: Schedule, es: seq<Event>): seq<Attempt> {
    if es == [] then []
    else
      var e := es[|es| - 1];
      Grants(initial, es[..|es| - 1]) +
      if e.Reserve? && IsGranted(Run(initial, es[..|es| - 1]).schedule, e.attempt) then [e.attempt] else []
  }

  lemma GrantsSplit(initial: Schedule, es: seq<Event>, e: Event)
    ensures Run(initial, es + [e]) == Step(Run(initial, es), e)
    ensures Grants(initial, es + [e]) == Grants(initial, es) +
            if e.Reserve? && IsGranted(Run(initial, es).schedule, e.attempt) then [e.attempt] else []
  {
    assert (es + [e])[..|es|] == es;
  }

  /** The row lock orders the decisions by the database clock; a statement stamps before it decides. */
  predicate IsTimed(es: seq<Event>) {
    && (forall i | 0 <= i < |es| && es[i].Reserve? :: es[i].attempt.stamped <= es[i].attempt.decided)
    && forall i, j | 0 <= i < j < |es| && es[i].Reserve? && es[j].Reserve? ::
         es[i].attempt.decided <= es[j].attempt.decided
  }

  lemma TimedPrefix(es: seq<Event>, n: nat)
    requires IsTimed(es) && n <= |es|
    ensures IsTimed(es[..n])
  {
    forall i | 0 <= i < n ensures es[..n][i] == es[i] {}
  }

  predicate AreSpaced(grants: seq<Attempt>, gap: real) {
    forall i | 0 <= i < |grants| - 1 :: grants[i + 1].decided >= grants[i].decided + gap
  }

  /** While a grant stands, the row keeps the time that grant has stamped. */
  lemma {:induction false} RowHoldsLastGrant(initial: Schedule, es: seq<Event>)
    requires Grants(initial, es) != []
    ensures var grants := Grants(initial, es);
            var last := grants[|grants| - 1];
            var schedule := Run(initial, es).schedule;
            schedule.Row? && schedule.next == Some(last.stamped + ReservationSeconds(last.configured) as real)
    decreases |es|
  {
    var before, e := es[..|es| - 1], es[|es| - 1];
    if e.Reserve? && IsGranted(Run(initial, before).schedule, e.attempt) {
    } else {
      RowHoldsLastGrant(initial, before);
    }
  }

  /**
   However many daemons with whatever intervals, crashes and switches: a grant waits for the time
   the one before has stamped.
   */
  lemma {:induction false} GrantsAreSpaced(initial: Schedule, es: seq<Event>)
    ensures var grants := Grants(initial, es);
            forall i | 0 <= i < |grants| - 1 ::
              && grants[i + 1].decided >= grants[i].stamped + (grants[i].configured + 1) as real
              && grants[i + 1].decided >= grants[i].stamped + 61.0
    decreases |es|
  {
    if es == [] {
    } else {
      var before := es[..|es| - 1];
      GrantsAreSpaced(initial, before);
      if Grants(initial, before) != [] {
        RowHoldsLastGrant(initial, before);
      }
    }
  }

  /** The lock wait of an attempt is at most what its interval exceeds the least one by. */
  predicate IsPatient(a: Attempt) {
    a.decided - a.stamped <= 0.0 || a.decided - a.stamped <= (a.configured - 60) as real
  }

  /** A grant keeps all later ones 61 seconds away if and only if it is patient. */
  lemma NextGrantIsSpacedExactlyWhen(s: Schedule, g: Attempt)
    requires IsGranted(s, g) && g.stamped <= g.decided
    ensures (forall a: Attempt | a.stamped <= a.decided && g.decided <= a.decided && IsGranted(Reserved(s, g), a) ::
               a.decided >= g.decided + 61.0)
            <==> IsPatient(g)
  {
    var early := SoonestAfter(g);
    assert IsGranted(Reserved(s, g), early);
  }

  /** The soonest attempt that the row lets through after g. */
  function SoonestAfter(g: Attempt): Attempt {
    var next := g.stamped + ReservationSeconds(g.configured) as real;
    var t := if next < g.decided then g.decided else next;
    Attempt(g.configured, t, t)
  }

  /** The run up to n, then one more attempt. */
  function Continued(es: seq<Event>, n: nat, a: Attempt): seq<Event>
    requires n <= |es|
  {
    es[..n] + [Reserve(0, a)]
  }

  lemma PatientIsSpaced(initial: Schedule, es: seq<Event>)
    requires forall i | 0 <= i < |Grants(initial, es)| - 1 :: IsPatient(Grants(initial, es)[i])
    ensures AreSpaced(Grants(initial, es), SPACING)
  {
    GrantsAreSpaced(initial, es);
  }

  /** When no statement waits for the lock, grants are 61 seconds apart. */
  lemma PromptGrantsAreSpaced(initial: Schedule, es: seq<Event>)
    requires forall g | g in Grants(initial, es) :: g.stamped == g.decided
    ensures AreSpaced(Grants(initial, es), SPACING)
  {
    PatientIsSpaced(initial, es);
  }

  lemma {:induction false} GrantsPrefix(initial: Schedule, es: seq<Event>, n: nat)
    requires n <= |es|
    ensures Grants(initial, es[..n]) <= Grants(initial, es)
    decreases |es|
  {
    if n == |es| {
      assert es[..n] == es;
    } else {
      assert es[..|es| - 1][..n] == es[..n];
      GrantsPrefix(initial, es[..|es| - 1], n);
    }
  }

  /** The run ends with the grant of g. */
  predicate EndsWithGrant(initial: Schedule, es: seq<Event>, g: Attempt) {
    && es != [] && es[|es| - 1].Reserve? && es[|es| - 1].attempt == g
    && IsGranted(Run(initial, es[..|es| - 1]).schedule, g)
  }

  /** Each grant has a moment just after it. */
  lemma {:induction false} AfterGrant(initial: Schedule, es: seq<Event>, g: Attempt) returns (n: nat)
    requires g in Grants(initial, es)
    ensures n <= |es| && EndsWithGrant(initial, es[..n], g)
    decreases |es|
  {
    var before := es[..|es| - 1];
    if g in Grants(initial, before) {
      n := AfterGrant(initial, before, g);
      assert before[..n] == es[..n];
    } else {
      n := |es|;
      assert es[..n] == es;
    }
  }

  lemma SoonestIsGranted(initial: Schedule, es: seq<Event>, g: Attempt)
    requires EndsWithGrant(initial, es, g)
    ensures Grants(initial, es + [Reserve(0, SoonestAfter(g))]) ==
              Grants(initial, es[..|es| - 1]) + [g, SoonestAfter(g)]
  {
    GrantsSplit(initial, es, Reserve(0, SoonestAfter(g)));
    assert Grants(initial, es) == Grants(initial, es[..|es| - 1]) + [g];
  }

  /** An impatient grant can be followed too early. */
  lemma ImpatientIsFollowed(initial: Schedule, es: seq<Event>, g: Attempt) returns (n: nat)
    requires IsTimed(es) && g in Grants(initial, es) && !IsPatient(g)
    ensures n <= |es| && IsTimed(Continued(es, n, SoonestAfter(g)))
    ensures !AreSpaced(Grants(initial, Continued(es, n, SoonestAfter(g))), SPACING)
  {
    n := AfterGrant(initial, es, g);
    TimedPrefix(es, n);
    SoonestIsGranted(initial, es[..n], g);
    var k, more := |Grants(initial, es[..n][..n - 1])|, Grants(initial, Continued(es, n, SoonestAfter(g)));
    assert more[k] == g && more[k + 1] == SoonestAfter(g);
    assert es[..n][n - 1].attempt == g;
  }

  ghost predicate StaysSpaced(initial: Schedule, es: seq<Event>) {
    forall n: nat, a: Attempt | n <= |es| && IsTimed(Continued(es, n, a)) ::
      AreSpaced(Grants(initial, Continued(es, n, a)), SPACING)
  }

  /**
   Any number of daemons: whatever attempt comes next at any moment of the run, grants stay 61
   seconds apart, if and only if each grant of the run is patient.
   */
  lemma SpacedExactlyWhen(initial: Schedule, es: seq<Event>)
    requires IsTimed(es)
    ensures StaysSpaced(initial, es) <==> forall g | g in Grants(initial, es) :: IsPatient(g)
  {
    if forall g | g in Grants(initial, es) :: IsPatient(g) {
      forall n: nat, a: Attempt | n <= |es| && IsTimed(Continued(es, n, a))
        ensures AreSpaced(Grants(initial, Continued(es, n, a)), SPACING)
      {
        GrantsPrefix(initial, es, n);
        GrantsSplit(initial, es[..n], Reserve(0, a));
        PatientIsSpaced(initial, Continued(es, n, a));
      }
    } else {
      var g :| g in Grants(initial, es) && !IsPatient(g);
      var n := ImpatientIsFollowed(initial, es, g);
    }
  }

  function GrantsWithin(grants: seq<Attempt>, from: real, to: real): nat {
    if grants == [] then 0
    else GrantsWithin(grants[..|grants| - 1], from, to) + if from <= grants[|grants| - 1].decided <= to then 1 else 0
  }

  function Gaps(n: nat, gap: real): real {
    if n == 0 then 0.0 else Gaps(n - 1, gap) + gap
  }

  lemma {:induction false} GapsAreProduct(n: nat, gap: real)
    ensures Gaps(n, gap) == n as real * gap
  {
    if n == 0 {
    } else {
      GapsAreProduct(n - 1, gap);
    }
  }

  lemma {:induction false} LastOfMany(grants: seq<Attempt>, gap: real, from: real, to: real)
    requires gap > 0.0 && AreSpaced(grants, gap)
    requires GrantsWithin(grants, from, to) > 0
    ensures grants[|grants| - 1].decided >= from + Gaps(GrantsWithin(grants, from, to) - 1, gap)
    decreases |grants|
  {
    var before := grants[..|grants| - 1];
    if GrantsWithin(before, from, to) == 0 {
    } else {
      assert forall i | 0 <= i < |before| :: before[i] == grants[i];
      LastOfMany(before, gap, from, to);
    }
  }

  lemma AtMostQuotient(n: real, gap: real, span: real)
    requires gap > 0.0 && n * gap <= span
    ensures n <= span / gap
  {
    var q := span / gap;
    assert q * gap == span;
    if n > q {
      assert (n - q) * gap > 0.0;
    }
  }

  lemma {:induction false} WindowHolds(grants: seq<Attempt>, gap: real, from: real, to: real)
    requires gap > 0.0 && AreSpaced(grants, gap)
    requires from <= to
    ensures GrantsWithin(grants, from, to) as real <= (to - from) / gap + 1.0
    decreases |grants|
  {
    if grants == [] {
    } else {
      var last := grants[|grants| - 1];
      if from <= last.decided <= to {
        LastOfMany(grants, gap, from, to);
        GapsAreProduct(GrantsWithin(grants, from, to) - 1, gap);
        AtMostQuotient((GrantsWithin(grants, from, to) - 1) as real, gap, to - from);
      } else {
        assert forall i | 0 <= i < |grants| - 1 :: grants[..|grants| - 1][i] == grants[i];
        WindowHolds(grants[..|grants| - 1], gap, from, to);
      }
    }
  }

  /** With patient grants, a window of T seconds holds at most T/61 + 1 requests, rounded down. */
  lemma RequestsInWindow(initial: Schedule, es: seq<Event>, from: real, to: real)
    requires from <= to
    requires forall g | g in Grants(initial, es) :: IsPatient(g)
    ensures GrantsWithin(Grants(initial, es), from, to) <= ((to - from) / 61.0).Floor + 1
  {
    PatientIsSpaced(initial, es);
    WindowHolds(Grants(initial, es), SPACING, from, to);
  }

  /** The wait matters: a statement that waits a minute for the row lock stores a time already past. */
  lemma LongWaitDefeatsSpacing()
    ensures exists es :: IsTimed(es) && GrantsWithin(Grants(Missing, es), 62.0, 63.0) == 2
  {
    var a, b, c := Attempt(60, 0.0, 0.0), Attempt(60, 0.0, 62.0), Attempt(60, 63.0, 63.0);
    var es := [Reserve(0, a), Reserve(1, b), Reserve(0, c)];
    AllGranted(a, b, c);
    CountOfThree(a, b, c, 62.0, 63.0);
    assert IsTimed(es);
  }

  lemma AllGranted(a: Attempt, b: Attempt, c: Attempt)
    requires a == Attempt(60, 0.0, 0.0) && b == Attempt(60, 0.0, 62.0) && c == Attempt(60, 63.0, 63.0)
    ensures Grants(Missing, [Reserve(0, a), Reserve(1, b), Reserve(0, c)]) == [a, b, c]
  {
    GrantsSplit(Missing, [], Reserve(0, a));
    assert [] + [Reserve(0, a)] == [Reserve(0, a)];
    GrantsSplit(Missing, [Reserve(0, a)], Reserve(1, b));
    assert [Reserve(0, a)] + [Reserve(1, b)] == [Reserve(0, a), Reserve(1, b)];
    GrantsSplit(Missing, [Reserve(0, a), Reserve(1, b)], Reserve(0, c));
    assert [Reserve(0, a), Reserve(1, b)] + [Reserve(0, c)] == [Reserve(0, a), Reserve(1, b), Reserve(0, c)];
  }

  lemma CountOfThree(a: Attempt, b: Attempt, c: Attempt, from: real, to: real)
    requires a.decided < from <= b.decided <= to && from <= c.decided <= to
    ensures GrantsWithin([a, b, c], from, to) == 2
  {
    assert [a, b, c][..2] == [a, b] && [a, b][..1] == [a] && [a][..0] == [];
    assert GrantsWithin([a], from, to) == 0 && GrantsWithin([a, b], from, to) == 1;
  }

  // ---- Alternation ----

  function RecordedFeeds(history: seq<Record>): seq<Feed> {
    if history == [] then []
    else
      var last := history[|history| - 1];
      RecordedFeeds(history[..|history| - 1]) + if last.endpoint.Polled? then [last.endpoint.feed] else []
  }

  predicate Alternates(feeds: seq<Feed>) {
    forall i | 0 <= i < |feeds| - 1 :: feeds[i] != feeds[i + 1]
  }

  predicate ReportsInOrder(es: seq<Event>) {
    forall i, j | 0 <= i < j < |es| && es[i].Report? && es[j].Report? :: es[i].at <= es[j].at
  }

  predicate OnlyDaemon(es: seq<Event>, d: nat) {
    forall i | 0 <= i < |es| ::
      && (es[i].Reserve? ==> es[i].daemon == d)
      && (es[i].Report? ==> es[i].daemon == d)
      && (es[i].Die? ==> es[i].daemon == d)
  }

  /** The newest record by clock is the last one written. */
  predicate LatestIsLast(history: seq<Record>) {
    var feeds := RecordedFeeds(history);
    LatestFeed(history) == if feeds == [] then None else Some(feeds[|feeds| - 1])
  }

  predicate RecordedBefore(history: seq<Record>, at: real) {
    forall r | r in history && r.endpoint.Polled? :: r.at <= at
  }

  predicate IdsBelow(history: seq<Record>, id: nat) {
    forall r | r in history :: r.id < id
  }

  lemma {:induction false} AllPolledAreRecorded(history: seq<Record>)
    ensures Latest(history).Some? ==> Latest(history).value in history && Latest(history).value.endpoint.Polled?
    ensures Latest(history).None? <==> RecordedFeeds(history) == []
    decreases |history|
  {
    if history == [] {
    } else {
      AllPolledAreRecorded(history[..|history| - 1]);
      assert history == history[..|history| - 1] + [history[|history| - 1]];
    }
  }

  lemma AppendRecord(history: seq<Record>, r: Record)
    requires LatestIsLast(history) && IdsBelow(history, r.id)
    requires r.endpoint.Polled? ==> RecordedBefore(history, r.at)
    ensures LatestIsLast(history + [r]) && IdsBelow(history + [r], r.id + 1)
    ensures RecordedFeeds(history + [r]) ==
              RecordedFeeds(history) + if r.endpoint.Polled? then [r.endpoint.feed] else []
  {
    AllPolledAreRecorded(history);
    assert (history + [r])[..|history|] == history;
  }

  /** The records are written in clock order. */
  predicate IsInOrder(history: seq<Record>, now: real) {
    LatestIsLast(history) && IdsBelow(history, |history|) && RecordedBefore(history, now)
  }

  lemma {:induction false} RunIsInOrder(initial: Schedule, es: seq<Event>, now: real)
    requires ReportsInOrder(es)
    requires forall i | 0 <= i < |es| && es[i].Report? :: es[i].at <= now
    ensures IsInOrder(Run(initial, es).history, now)
    decreases |es|
  {
    if es == [] {
    } else {
      var before, e := es[..|es| - 1], es[|es| - 1];
      assert forall i | 0 <= i < |before| :: before[i] == es[i];
      RunIsInOrder(initial, before, if e.Report? then e.at else now);
      StepIsInOrder(Run(initial, before), e, if e.Report? then e.at else now);
    }
  }

  lemma StepIsInOrder(s: State, e: Event, now: real)
    requires IsInOrder(s.history, now) && (e.Report? ==> e.at == now)
    ensures IsInOrder(Step(s, e).history, now)
  {
    match e
    case Report(d, at) =>
      if d in s.pending {
        AppendRecord(s.history, Record(Polled(s.pending[d]), at, |s.history|));
      }
    case LogOther(name, at) => AppendRecord(s.history, Record(Other(name), at, |s.history|));
    case _ =>
  }

  lemma AppendAlternates(feeds: seq<Feed>, feed: Feed)
    ensures Alternates(feeds + [feed]) <==> Alternates(feeds) && (feeds == [] || feeds[|feeds| - 1] != feed)
  {
    var more := feeds + [feed];
    if Alternates(more) {
      forall i | 0 <= i < |feeds| - 1
        ensures feeds[i] != feeds[i + 1]
      {
        assert more[i] != more[i + 1];
      }
      if feeds != [] {
        assert more[|feeds| - 1] != more[|feeds|];
      }
    }
  }

  lemma ReportRecords(s: State, e: Event)
    requires e.Report? && e.daemon in s.pending
    ensures RecordedFeeds(Step(s, e).history) == RecordedFeeds(s.history) + [s.pending[e.daemon]]
  {
    var r := Record(Polled(s.pending[e.daemon]), e.at, |s.history|);
    assert (s.history + [r])[..|s.history|] == s.history;
  }

  lemma OtherStepsRecordNothing(s: State, e: Event)
    requires !(e.Report? && e.daemon in s.pending)
    ensures RecordedFeeds(Step(s, e).history) == RecordedFeeds(s.history)
  {
    if e.LogOther? {
      assert (s.history + [Record(Other(e.name), e.at, |s.history|)])[..|s.history|] == s.history;
    }
  }

  /** How many requests the run has recorded. */
  function Recorded(initial: Schedule, es: seq<Event>): nat
    decreases |es|
  {
    if es == [] then 0
    else
      var before, e := es[..|es| - 1], es[|es| - 1];
      Recorded(initial, before) + if e.Report? && Held(initial, before, e.daemon).Some? then 1 else 0
  }

  /** How many requests had been recorded when the daemon was granted the one it holds, if it holds one. */
  function Held(initial: Schedule, es: seq<Event>, d: nat): Option<nat>
    decreases |es|
  {
    if es == [] then None
    else
      var before, e := es[..|es| - 1], es[|es| - 1];
      match e
      case Reserve(other, a) =>
        if other != d then Held(initial, before, d)
        else if IsGranted(Run(initial, before).schedule, a) then Some(Recorded(initial, before))
        else None
      case Report(other, _) => if other == d then None else Held(initial, before, d)
      case Die(other) => if other == d then None else Held(initial, before, d)
      case _ => Held(initial, before, d)
  }

  lemma {:induction false} HeldIsPending(initial: Schedule, es: seq<Event>, d: nat)
    ensures Held(initial, es, d).Some? <==> d in Run(initial, es).pending
    decreases |es|
  {
    if es == [] {
    } else {
      HeldIsPending(initial, es[..|es| - 1], d);
    }
  }

  lemma {:induction false} RecordedIsCounted(initial: Schedule, es: seq<Event>)
    ensures Recorded(initial, es) == |RecordedFeeds(Run(initial, es).history)|
    decreases |es|
  {
    if es == [] {
    } else {
      var before, e := es[..|es| - 1], es[|es| - 1];
      RecordedIsCounted(initial, before);
      var s := Run(initial, before);
      if e.Report? {
        HeldIsPending(initial, before, e.daemon);
      }
      if e.Report? && e.daemon in s.pending {
        ReportRecords(s, e);
      } else {
        OtherStepsRecordNothing(s, e);
      }
    }
  }

  /** Position k of an alternating history. */
  function FeedAt(k: nat): Feed {
    if k % 2 == 0 then Vehicles else TripUpdates
  }

  predicate FollowsParity(feeds: seq<Feed>) {
    forall k | 0 <= k < |feeds| :: feeds[k] == FeedAt(k)
  }

  lemma AppendParity(feeds: seq<Feed>, feed: Feed)
    ensures FollowsParity(feeds + [feed]) <==> FollowsParity(feeds) && feed == FeedAt(|feeds|)
  {
    if FollowsParity(feeds + [feed]) {
      assert (feeds + [feed])[|feeds|] == feed;
      assert forall k | 0 <= k < |feeds| :: (feeds + [feed])[k] == feeds[k];
    }
  }

  /** While the history follows the parity, so does each held feed, by the count at its grant. */
  predicate HoldsParity(initial: Schedule, es: seq<Event>, d: nat) {
    Held(initial, es, d).Some? && d in Run(initial, es).pending ==>
      Run(initial, es).pending[d] == FeedAt(Held(initial, es, d).value)
  }

  lemma NextFollowsParity(history: seq<Record>)
    requires LatestIsLast(history) && FollowsParity(RecordedFeeds(history))
    ensures NextFeed(LatestFeed(history)) == FeedAt(|RecordedFeeds(history)|)
  {}

  /** A time by which all reports of the run are written. */
  function LastReportTime(es: seq<Event>): (t: real)
    requires ReportsInOrder(es)
    ensures forall i | 0 <= i < |es| && es[i].Report? :: es[i].at <= t
  {
    if es == [] then 0.0
    else if es[|es| - 1].Report? then es[|es| - 1].at
    else
      assert forall i | 0 <= i < |es| - 1 :: es[..|es| - 1][i] == es[i];
      LastReportTime(es[..|es| - 1])
  }

  /** A grant chooses the feed of the next position. */
  lemma GrantFollowsParity(initial: Schedule, es: seq<Event>)
    requires ReportsInOrder(es) && FollowsParity(RecordedFeeds(Run(initial, es).history))
    ensures NextFeed(LatestFeed(Run(initial, es).history)) == FeedAt(Recorded(initial, es))
  {
    RunIsInOrder(initial, es, LastReportTime(es));
    NextFollowsParity(Run(initial, es).history);
    RecordedIsCounted(initial, es);
  }

  lemma PrefixFollowsParity(initial: Schedule, es: seq<Event>)
    requires es != [] && FollowsParity(RecordedFeeds(Run(initial, es).history))
    ensures FollowsParity(RecordedFeeds(Run(initial, es[..|es| - 1]).history))
  {
    var s, e := Run(initial, es[..|es| - 1]), es[|es| - 1];
    if e.Report? && e.daemon in s.pending {
      ReportRecords(s, e);
      AppendParity(RecordedFeeds(s.history), s.pending[e.daemon]);
    } else {
      OtherStepsRecordNothing(s, e);
    }
  }

  lemma {:induction false} HeldFollowsParity(initial: Schedule, es: seq<Event>, d: nat)
    requires ReportsInOrder(es) && FollowsParity(RecordedFeeds(Run(initial, es).history))
    ensures HoldsParity(initial, es, d)
    decreases |es|
  {
    if es == [] {
    } else {
      var before, e := es[..|es| - 1], es[|es| - 1];
      assert forall i | 0 <= i < |before| :: before[i] == es[i];
      PrefixFollowsParity(initial, es);
      HeldFollowsParity(initial, before, d);
      HeldIsPending(initial, before, d);
      GrantFollowsParity(initial, before);
    }
  }

  /** Between the grant and the report at i, an even number of requests were recorded. */
  predicate ReportsEvenly(initial: Schedule, es: seq<Event>, i: nat)
    requires i < |es|
  {
    es[i].Report? && Held(initial, es[..i], es[i].daemon).Some? ==>
      (Recorded(initial, es[..i]) - Held(initial, es[..i], es[i].daemon).value) % 2 == 0
  }

  predicate AllReportEvenly(initial: Schedule, es: seq<Event>) {
    forall i: nat | i < |es| :: ReportsEvenly(initial, es, i)
  }

  lemma LastReport(initial: Schedule, es: seq<Event>)
    requires es != []
    ensures AllReportEvenly(initial, es) <==>
            AllReportEvenly(initial, es[..|es| - 1]) && ReportsEvenly(initial, es, |es| - 1)
  {
    var before := es[..|es| - 1];
    forall i: nat | i < |before|
      ensures ReportsEvenly(initial, es, i) == ReportsEvenly(initial, before, i)
    {
      assert before[..i] == es[..i] && before[i] == es[i];
    }
  }

  /** What a daemon holds was granted in the past. */
  lemma {:induction false} HeldIsPast(initial: Schedule, es: seq<Event>, d: nat)
    ensures Held(initial, es, d).Some? ==> Held(initial, es, d).value <= Recorded(initial, es)
    decreases |es|
  {
    if es == [] {
    } else {
      HeldIsPast(initial, es[..|es| - 1], d);
    }
  }

  lemma SameFeedExactlyWhen(n: nat, k: nat)
    requires n <= k
    ensures FeedAt(n) == FeedAt(k) <==> (k - n) % 2 == 0
  {}

  /** One more report keeps the parity exactly when an even number of requests were recorded since its grant. */
  lemma ReportKeepsParityExactlyWhen(initial: Schedule, es: seq<Event>, e: Event)
    requires ReportsInOrder(es) && e.Report? && Held(initial, es, e.daemon).Some?
    requires FollowsParity(RecordedFeeds(Run(initial, es).history))
    ensures FollowsParity(RecordedFeeds(Step(Run(initial, es), e).history)) <==>
            (Recorded(initial, es) - Held(initial, es, e.daemon).value) % 2 == 0
  {
    var s := Run(initial, es);
    HeldIsPending(initial, es, e.daemon);
    HeldIsPast(initial, es, e.daemon);
    HeldFollowsParity(initial, es, e.daemon);
    RecordedIsCounted(initial, es);
    ReportRecords(s, e);
    AppendParity(RecordedFeeds(s.history), s.pending[e.daemon]);
    SameFeedExactlyWhen(Held(initial, es, e.daemon).value, Recorded(initial, es));
  }

  lemma {:induction false} ParityExactlyWhen(initial: Schedule, es: seq<Event>)
    requires ReportsInOrder(es)
    ensures FollowsParity(RecordedFeeds(Run(initial, es).history)) <==> AllReportEvenly(initial, es)
    decreases |es|
  {
    if es == [] {
    } else {
      var before, e := es[..|es| - 1], es[|es| - 1];
      assert forall i | 0 <= i < |before| :: before[i] == es[i];
      ParityExactlyWhen(initial, before);
      LastReport(initial, es);
      if FollowsParity(RecordedFeeds(Run(initial, es).history)) {
        PrefixFollowsParity(initial, es);
      }
      if e.Report? && Held(initial, before, e.daemon).Some? {
        if AllReportEvenly(initial, before) {
          ReportKeepsParityExactlyWhen(initial, before, e);
        }
      } else {
        if e.Report? {
          HeldIsPending(initial, before, e.daemon);
        }
        OtherStepsRecordNothing(Run(initial, before), e);
      }
    }
  }

  lemma FirstHeldIsVehicles(initial: Schedule, es: seq<Event>, d: nat)
    requires ReportsInOrder(es) && RecordedFeeds(Run(initial, es).history) == [] && d in Run(initial, es).pending
    ensures Run(initial, es).pending[d] == Vehicles
  {
    HeldIsPending(initial, es, d);
    HeldIsPast(initial, es, d);
    RecordedIsCounted(initial, es);
    HeldFollowsParity(initial, es, d);
  }

  lemma AppendBoth(feeds: seq<Feed>, feed: Feed)
    requires Alternates(feeds) <==> FollowsParity(feeds)
    requires feeds == [] ==> feed == Vehicles
    ensures Alternates(feeds + [feed]) <==> FollowsParity(feeds + [feed])
  {
    AppendAlternates(feeds, feed);
    AppendParity(feeds, feed);
  }

  /**
   The first recorded request is for the vehicles, so a recorded history alternates exactly when
   it follows the parity.
   */
  lemma {:induction false} AlternatesIsParity(initial: Schedule, es: seq<Event>)
    requires ReportsInOrder(es)
    ensures Alternates(RecordedFeeds(Run(initial, es).history)) <==>
            FollowsParity(RecordedFeeds(Run(initial, es).history))
    decreases |es|
  {
    if es == [] {
    } else {
      var before, e := es[..|es| - 1], es[|es| - 1];
      assert forall i | 0 <= i < |before| :: before[i] == es[i];
      AlternatesIsParity(initial, before);
      var s := Run(initial, before);
      if e.Report? && e.daemon in s.pending {
        ReportRecords(s, e);
        if RecordedFeeds(s.history) == [] {
          FirstHeldIsVehicles(initial, before, e.daemon);
        }
        AppendBoth(RecordedFeeds(s.history), s.pending[e.daemon]);
      } else {
        OtherStepsRecordNothing(s, e);
      }
    }
  }

  /**
   Any number of daemons: the recorded feeds alternate if and only if, for each report, an even
   number of requests were recorded between its grant and the report.
   */
  lemma AlternateExactlyWhen(initial: Schedule, es: seq<Event>)
    requires ReportsInOrder(es)
    ensures Alternates(RecordedFeeds(Run(initial, es).history)) <==> AllReportEvenly(initial, es)
  {
    AlternatesIsParity(initial, es);
    ParityExactlyWhen(initial, es);
  }

  predicate InTurn(s: State, d: nat, now: real) {
    && Alternates(RecordedFeeds(s.history)) && IsInOrder(s.history, now)
    && s.pending.Keys <= {d}
    && (d in s.pending ==> s.pending[d] == NextFeed(LatestFeed(s.history)))
  }

  lemma ReportKeepsTurn(s: State, d: nat, now: real, at: real)
    requires InTurn(s, d, now) && now <= at
    ensures InTurn(Step(s, Report(d, at)), d, at)
  {
    if d in s.pending {
      AppendRecord(s.history, Record(Polled(s.pending[d]), at, |s.history|));
    }
  }

  lemma LogKeepsTurn(s: State, d: nat, now: real, name: string, at: real)
    requires InTurn(s, d, now)
    ensures InTurn(Step(s, LogOther(name, at)), d, now)
  {
    var r := Record(Other(name), at, |s.history|);
    AppendRecord(s.history, r);
    AppendOther(s.history, r);
  }

  lemma AppendOther(history: seq<Record>, r: Record)
    requires r.endpoint.Other?
    ensures LatestFeed(history + [r]) == LatestFeed(history)
  {
    assert (history + [r])[..|history|] == history;
  }

  /** One daemon: whatever records get lost, those that are written alternate between the feeds. */
  lemma {:induction false} RecordedFeedsAlternate(initial: Schedule, es: seq<Event>, d: nat, now: real)
    requires OnlyDaemon(es, d) && ReportsInOrder(es)
    requires forall i | 0 <= i < |es| && es[i].Report? :: es[i].at <= now
    ensures InTurn(Run(initial, es), d, now)
    decreases |es|
  {
    if es == [] {
    } else {
      var before, e := es[..|es| - 1], es[|es| - 1];
      assert forall i | 0 <= i < |before| :: before[i] == es[i];
      RecordedFeedsAlternate(initial, before, d, if e.Report? then e.at else now);
      var s := Run(initial, before);
      match e
      case Report(_, at) => ReportKeepsTurn(s, d, at, at);
      case LogOther(name, at) => LogKeepsTurn(s, d, now, name, at);
      case _ =>
    }
  }

  /** Two daemons: one granted before the other has reported polls the same feed again. */
  lemma TwoDaemonsRepeatAFeed()
    ensures exists es ::
              IsTimed(es) && ReportsInOrder(es) && RecordedFeeds(Run(Missing, es).history) == [Vehicles, Vehicles]
  {
    var a, b := Reserve(0, Attempt(60, 0.0, 0.0)), Reserve(1, Attempt(60, 61.0, 61.0));
    var c, d := Report(0, 62.0), Report(1, 63.0);
    BothPollVehicles(a, b);
    RunOfFour(Missing, a, b, c, d);
    BothReport(Step(Step(State(Missing, [], map[]), a), b));
    TwoByTwoInOrder(a, b, c, d);
  }

  lemma TwoByTwoInOrder(a: Event, b: Event, c: Event, d: Event)
    requires a.Reserve? && b.Reserve? && c.Report? && d.Report?
    requires a.attempt.stamped == a.attempt.decided <= b.attempt.stamped == b.attempt.decided && c.at <= d.at
    ensures IsTimed([a, b, c, d]) && ReportsInOrder([a, b, c, d])
  {}

  lemma BothPollVehicles(a: Event, b: Event)
    requires a == Reserve(0, Attempt(60, 0.0, 0.0)) && b == Reserve(1, Attempt(60, 61.0, 61.0))
    ensures var s := Step(Step(State(Missing, [], map[]), a), b);
            s.history == [] && s.pending == map[0 := Vehicles, 1 := Vehicles]
  {
    var s := Step(State(Missing, [], map[]), a);
    assert s == State(Row(Some(61.0), true), [], map[0 := Vehicles]);
  }

  lemma BothReport(s: State)
    requires s.history == [] && s.pending == map[0 := Vehicles, 1 := Vehicles]
    ensures RecordedFeeds(Step(Step(s, Report(0, 62.0)), Report(1, 63.0)).history) == [Vehicles, Vehicles]
  {
    var first, second := Record(Polled(Vehicles), 62.0, 0), Record(Polled(Vehicles), 63.0, 1);
    assert [first, second][..1] == [first] && [first][..0] == [];
    assert RecordedFeeds([first]) == [Vehicles];
    assert Step(Step(s, Report(0, 62.0)), Report(1, 63.0)).history == [first, second];
  }

  lemma RunOfFour(initial: Schedule, a: Event, b: Event, c: Event, d: Event)
    ensures Run(initial, [a, b, c, d]) == Step(Step(Step(Step(State(initial, [], map[]), a), b), c), d)
  {
    GrantsSplit(initial, [], a);
    GrantsSplit(initial, [] + [a], b);
    GrantsSplit(initial, [] + [a] + [b], c);
    GrantsSplit(initial, [] + [a] + [b] + [c], d);
    assert [] + [a] + [b] + [c] + [d] == [a, b, c, d];
  }
}
