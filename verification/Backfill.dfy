/**
 The resumable delay-sample backfill: batches in ascending identifier order, each committed
 with the position it reached, leave what one query over all rows would have left.
 */
module Backfill {
  import opened Wrappers

  type Id = n: nat | n > 0 witness 1

  datatype Key = Key(feed: nat, trip: string, stop: string)

  /** A legacy prediction with its resolved route and its trip's freshness. */
  datatype Row = Row(key: Key, route: Option<string>, arrivalDelay: Option<int>, departureDelay: Option<int>,
                     lastSeen: int, freshness: Option<int>)

  datatype Sample = Sample(route: string, delay: int, lastSeen: int)

  const SAMPLE_SECONDS := 168 * 3600

  function DelayOf(row: Row): Option<int> {
    if row.departureDelay.Some? then row.departureDelay else row.arrivalDelay
  }

  predicate IsEligible(row: Row, asOf: int) {
    && row.freshness.Some? && asOf - SAMPLE_SECONDS < row.freshness.value <= asOf
    && DelayOf(row).Some? && row.route.Some?
  }

  function SampleOf(row: Row): Sample
    requires DelayOf(row).Some? && row.route.Some?
  {
    Sample(row.route.value, DelayOf(row).value, row.lastSeen)
  }

  function Lookup(table: map<Key, Sample>, k: Key): Option<Sample> {
    if k in table then Some(table[k]) else None
  }

  lemma SameLookups(a: map<Key, Sample>, b: map<Key, Sample>)
    requires forall k :: Lookup(a, k) == Lookup(b, k)
    ensures a == b
  {
    forall k
      ensures k in a <==> k in b
      ensures k in a && k in b ==> a[k] == b[k]
    {
      assert Lookup(a, k) == Lookup(b, k);
    }
  }

  // ---- The upsert rule ----

  /** The conflict clause: a newer sample, or a different one of the same time, replaces. */
  predicate Replaces(sample: Sample, stored: Sample) {
    || stored.lastSeen < sample.lastSeen
    || (stored.lastSeen == sample.lastSeen && (stored.route, stored.delay) != (sample.route, sample.delay))
  }

  function Upserted(table: map<Key, Sample>, k: Key, sample: Sample): map<Key, Sample> {
    if k in table && !Replaces(sample, table[k]) then table else table[k := sample]
  }

  /** A later sample wins unless it is older. */
  function Merge(a: Option<Sample>, b: Option<Sample>): Option<Sample> {
    if b.None? || (a.Some? && b.value.lastSeen < a.value.lastSeen) then a else b
  }

  lemma UpsertMerges(table: map<Key, Sample>, k: Key, sample: Sample, other: Key)
    ensures Lookup(Upserted(table, k, sample), other) ==
              if other == k then Merge(Lookup(table, k), Some(sample)) else Lookup(table, other)
  {}

  lemma MergeIsAssociative(a: Option<Sample>, b: Option<Sample>, c: Option<Sample>)
    ensures Merge(Merge(a, b), c) == Merge(a, Merge(b, c))
  {}

  // ---- The latest row of a key ----

  /** The row that is greatest by time, then identifier, among the eligible ones of lo + 1 .. hi. */
  function Latest(rows: map<Id, Row>, asOf: int, k: Key, lo: nat, hi: nat): Option<Id>
    decreases hi - lo
  {
    if hi <= lo then None
    else
      var before := Latest(rows, asOf, k, lo, hi - 1);
      if IsCandidate(rows, asOf, k, hi)
         && (before.None? || (before.value in rows && rows[before.value].lastSeen <= rows[hi].lastSeen))
      then Some(hi) else before
  }

  predicate IsCandidate(rows: map<Id, Row>, asOf: int, k: Key, id: nat) {
    id in rows && rows[id].key == k && IsEligible(rows[id], asOf)
  }

  lemma {:induction false} LatestIsGreatest(rows: map<Id, Row>, asOf: int, k: Key, lo: nat, hi: nat)
    ensures match Latest(rows, asOf, k, lo, hi)
            case None => forall id | lo < id <= hi :: !IsCandidate(rows, asOf, k, id)
            case Some(best) =>
              && lo < best <= hi && IsCandidate(rows, asOf, k, best)
              && forall id | lo < id <= hi && IsCandidate(rows, asOf, k, id) ::
                   rows[id].lastSeen < rows[best].lastSeen || (rows[id].lastSeen == rows[best].lastSeen && id <= best)
    decreases hi - lo
  {
    if lo >= hi {
    } else {
      LatestIsGreatest(rows, asOf, k, lo, hi - 1);
    }
  }

  /** What one global query selects for a key. */
  function Selected(rows: map<Id, Row>, asOf: int, k: Key, lo: nat, hi: nat): Option<Sample> {
    LatestIsGreatest(rows, asOf, k, lo, hi);
    var best := Latest(rows, asOf, k, lo, hi);
    if best.None? then None else Some(SampleOf(rows[best.value]))
  }

  lemma SelectedStep(rows: map<Id, Row>, asOf: int, k: Key, lo: nat, hi: nat)
    requires lo < hi
    ensures Selected(rows, asOf, k, lo, hi) ==
            if IsCandidate(rows, asOf, k, hi)
            then Merge(Selected(rows, asOf, k, lo, hi - 1), Some(SampleOf(rows[hi])))
            else Selected(rows, asOf, k, lo, hi - 1)
  {
    LatestIsGreatest(rows, asOf, k, lo, hi - 1);
  }

  // ---- Batches compose ----

  /** The table after the rows lo + 1 .. hi were upserted one by one. */
  function Replayed(table: map<Key, Sample>, rows: map<Id, Row>, asOf: int, lo: nat, hi: nat): map<Key, Sample>
    decreases hi - lo
  {
    if hi <= lo then table
    else
      var before := Replayed(table, rows, asOf, lo, hi - 1);
      if hi in rows && IsEligible(rows[hi], asOf) then Upserted(before, rows[hi].key, SampleOf(rows[hi])) else before
  }

  lemma {:induction false} ReplayedSplits(table: map<Key, Sample>, rows: map<Id, Row>, asOf: int, lo: nat, mid: nat,
                                          hi: nat)
    requires lo <= mid <= hi
    ensures Replayed(Replayed(table, rows, asOf, lo, mid), rows, asOf, mid, hi) == Replayed(table, rows, asOf, lo, hi)
    decreases hi
  {
    if mid >= hi {
    } else {
      ReplayedSplits(table, rows, asOf, lo, mid, hi - 1);
    }
  }

  /** Upserting the rows one by one leaves what upserting the selected ones leaves. */
  lemma {:induction false} ReplayedIsSelected(table: map<Key, Sample>, rows: map<Id, Row>, asOf: int, lo: nat, hi: nat,
                                              k: Key)
    ensures Lookup(Replayed(table, rows, asOf, lo, hi), k) == Merge(Lookup(table, k), Selected(rows, asOf, k, lo, hi))
    decreases hi - lo
  {
    if lo >= hi {
    } else {
      ReplayedIsSelected(table, rows, asOf, lo, hi - 1, k);
      SelectedStep(rows, asOf, k, lo, hi);
      var before := Replayed(table, rows, asOf, lo, hi - 1);
      if hi in rows && IsEligible(rows[hi], asOf) {
        UpsertMerges(before, rows[hi].key, SampleOf(rows[hi]), k);
        if rows[hi].key == k {
          MergeIsAssociative(Lookup(table, k), Selected(rows, asOf, k, lo, hi - 1), Some(SampleOf(rows[hi])));
        }
      }
    }
  }

  lemma {:induction false} OnlyRangeMatters(table: map<Key, Sample>, rows: map<Id, Row>, more: map<Id, Row>, asOf: int,
                                            lo: nat, hi: nat)
    requires forall id: nat | id <= hi :: (id in rows <==> id in more) && (id in rows ==> rows[id] == more[id])
    ensures Replayed(table, rows, asOf, lo, hi) == Replayed(table, more, asOf, lo, hi)
    decreases hi
  {
    if lo >= hi {
    } else {
      OnlyRangeMatters(table, rows, more, asOf, lo, hi - 1);
    }
  }

  // ---- Why only one backfill may run: a batch upserted again after a later one ----

  /** The stored sample is of the same time as the first batch's, but a different one. */
  predicate IsOvertaken(stored: Option<Sample>, first: Option<Sample>) {
    first.Some? && stored.Some? && first.value.lastSeen == stored.value.lastSeen && first != stored
  }

  /** Repeating an earlier batch does no harm exactly when no later row of equal time had overtaken it. */
  lemma RepeatIsHarmlessExactlyWhen(table: map<Key, Sample>, rows: map<Id, Row>, asOf: int, lo: nat, mid: nat, hi: nat)
    requires lo <= mid <= hi
    ensures var done := Replayed(table, rows, asOf, lo, hi);
            Replayed(done, rows, asOf, lo, mid) == done <==>
            forall k :: !IsOvertaken(Lookup(done, k), Selected(rows, asOf, k, lo, mid))
  {
    var done := Replayed(table, rows, asOf, lo, hi);
    var again := Replayed(done, rows, asOf, lo, mid);
    forall k
      ensures Lookup(again, k) == Lookup(done, k) <==> !IsOvertaken(Lookup(done, k), Selected(rows, asOf, k, lo, mid))
    {
      RepeatedKey(table, rows, asOf, lo, mid, hi, k);
    }
    if forall k :: Lookup(again, k) == Lookup(done, k) {
      SameLookups(again, done);
    }
  }

  lemma RepeatedKey(table: map<Key, Sample>, rows: map<Id, Row>, asOf: int, lo: nat, mid: nat, hi: nat, k: Key)
    requires lo <= mid <= hi
    ensures var done := Replayed(table, rows, asOf, lo, hi);
            Lookup(Replayed(done, rows, asOf, lo, mid), k) == Lookup(done, k) <==>
            !IsOvertaken(Lookup(done, k), Selected(rows, asOf, k, lo, mid))
  {
    var half := Replayed(table, rows, asOf, lo, mid);
    ReplayedSplits(table, rows, asOf, lo, mid, hi);
    ReplayedIsSelected(table, rows, asOf, lo, mid, k);
    ReplayedIsSelected(half, rows, asOf, mid, hi, k);
    ReplayedIsSelected(Replayed(table, rows, asOf, lo, hi), rows, asOf, lo, mid, k);
  }

  // ---- The progress row ----

  datatype Progress = Progress(lastId: nat, targetId: nat, asOf: int)

  datatype State = State(rows: map<Id, Row>, table: map<Key, Sample>, progress: Option<Progress>)

  /** The identifiers are those of low + 1 .. high; an empty table gives 0 and 0. */
  ghost predicate IsRange(rows: map<Id, Row>, low: nat, high: nat) {
    if rows.Keys == {} then low == 0 && high == 0
    else low + 1 in rows && high in rows && forall id | id in rows :: low < id <= high
  }

  datatype Event =
    | Start(asOf: int, low: nat, high: nat)
    | Batch(asOf: int, size: nat)
    | Append(id: Id, row: Row)

  ghost predicate IsPossible(s: State, e: Event) {
    match e
    case Start(_, low, high) => IsRange(s.rows, low, high)
    case Batch(_, size) => size > 0
    case Append(id, _) => forall other | other in s.rows :: other < id
  }

  function Min(a: nat, b: nat): nat {
    if a < b then a else b
  }

  /** A batch commits its samples together with its position; one that crashes leaves no trace. */
  function Step(s: State, e: Event): State {
    match e
    case Start(asOf, low, high) => if s.progress.None? then s.(progress := Some(Progress(low, high, asOf))) else s
    case Batch(asOf, size) =>
      if s.progress.None? || s.progress.value.asOf != asOf || s.progress.value.lastId >= s.progress.value.targetId
      then s
      else
        var p := s.progress.value;
        var upper := Min(p.lastId + size, p.targetId);
        s.(table := Replayed(s.table, s.rows, asOf, p.lastId, upper), progress := Some(p.(lastId := upper)))
    case Append(id, row) => s.(rows := s.rows[id := row])
  }

  function Run(s: State, es: seq<Event>): State {
    if es == [] then s else Step(Run(s, es[..|es| - 1]), es[|es| - 1])
  }

  ghost predicate IsRun(s: State, es: seq<Event>) {
    es == [] || (IsRun(s, es[..|es| - 1]) && IsPossible(Run(s, es[..|es| - 1]), es[|es| - 1]))
  }

  function Batches(es: seq<Event>, asOf: int): nat {
    if es == [] then 0
    else Batches(es[..|es| - 1], asOf) + if es[|es| - 1].Batch? && es[|es| - 1].asOf == asOf then 1 else 0
  }

  ghost predicate SameUpTo(rows: map<Id, Row>, more: map<Id, Row>, hi: nat) {
    forall id: Id | id <= hi :: (id in rows <==> id in more) && (id in rows ==> rows[id] == more[id])
  }

  /** State t of the backfill that started from s. */
  ghost predicate IsUnderWay(s: State, asOf: int, low: nat, high: nat, t: State) {
    && SameUpTo(s.rows, t.rows, high) && s.rows.Keys <= t.rows.Keys
    && t.progress.Some? && t.progress.value.targetId == high && t.progress.value.asOf == asOf
    && low <= t.progress.value.lastId <= high
    && t.table == Replayed(s.table, s.rows, asOf, low, t.progress.value.lastId)
  }

  lemma BatchKeepsUnderWay(s: State, asOf: int, low: nat, high: nat, t: State, size: nat)
    requires IsUnderWay(s, asOf, low, high, t) && size > 0
    ensures IsUnderWay(s, asOf, low, high, Step(t, Batch(asOf, size)))
    ensures Step(t, Batch(asOf, size)).progress.value.lastId == Min(t.progress.value.lastId + size, high)
  {
    var last := t.progress.value.lastId;
    if last < high {
      var upper := Min(last + size, high);
      OnlyRangeMatters(t.table, s.rows, t.rows, asOf, last, upper);
      ReplayedSplits(s.table, s.rows, asOf, low, last, upper);
    }
  }

  /** The table holds what the rows up to the position have left, and the position moves with every batch. */
  lemma {:induction false} RunReplays(s: State, asOf: int, low: nat, high: nat, es: seq<Event>)
    requires s.progress.None? && IsRange(s.rows, low, high)
    requires IsRun(Step(s, Start(asOf, low, high)), es)
    ensures var t := Run(Step(s, Start(asOf, low, high)), es);
            IsUnderWay(s, asOf, low, high, t) && t.progress.value.lastId >= Min(low + Batches(es, asOf), high)
    decreases |es|
  {
    if es == [] {
    } else {
      var before, e := es[..|es| - 1], es[|es| - 1];
      RunReplays(s, asOf, low, high, before);
      var t := Run(Step(s, Start(asOf, low, high)), before);
      match e
      case Start(_, _, _) =>
      case Batch(other, size) =>
        if other == asOf {
          BatchKeepsUnderWay(s, asOf, low, high, t, size);
        }
      case Append(id, _) =>
        assert high == 0 || high in t.rows;
    }
  }

  /** The row is of the key, of a trip seen in the week up to asOf, and has a delay and a route. */
  predicate IsSampled(row: Row, asOf: int, k: Key) {
    && row.key == k && (row.arrivalDelay.Some? || row.departureDelay.Some?) && row.route.Some?
    && row.freshness.Some? && asOf - 7 * 24 * 60 * 60 < row.freshness.value <= asOf
  }

  /** Of all the rows sampled for the key, best is the greatest by time, then identifier. */
  ghost predicate IsGlobalLatest(rows: map<Id, Row>, asOf: int, k: Key, best: Id) {
    && best in rows && IsSampled(rows[best], asOf, k)
    && forall id | id in rows && IsSampled(rows[id], asOf, k) ::
         rows[id].lastSeen < rows[best].lastSeen || (rows[id].lastSeen == rows[best].lastSeen && id <= best)
  }

  /** What one query over all the rows gives a key. */
  ghost predicate IsQueried(rows: map<Id, Row>, asOf: int, k: Key, sample: Option<Sample>) {
    match sample
    case None => forall id | id in rows :: !IsSampled(rows[id], asOf, k)
    case Some(value) => exists best ::
      && IsGlobalLatest(rows, asOf, k, best) && rows[best].lastSeen == value.lastSeen
      && rows[best].route == Some(value.route)
      && Some(value.delay) == if rows[best].departureDelay.Some? then rows[best].departureDelay
                              else rows[best].arrivalDelay
  }

  /** The latest row of the whole range is the latest of the table. */
  lemma WholeRangeIsGlobal(rows: map<Id, Row>, asOf: int, low: nat, high: nat, k: Key)
    requires IsRange(rows, low, high)
    ensures IsQueried(rows, asOf, k, Selected(rows, asOf, k, low, high))
  {
    LatestIsGreatest(rows, asOf, k, low, high);
    assert forall id | id in rows :: low < id <= high;
    assert forall id: Id | id in rows :: IsSampled(rows[id], asOf, k) <==> IsCandidate(rows, asOf, k, id);
    var best := Latest(rows, asOf, k, low, high);
    if best.Some? {
      assert IsGlobalLatest(rows, asOf, k, best.value);
    }
  }

  /** The position has reached the target. */
  predicate IsFinished(s: State) {
    s.progress.Some? && s.progress.value.lastId >= s.progress.value.targetId
  }

  /** As many batches as there are identifiers always finish, whatever their sizes. */
  lemma EnoughBatchesFinish(s: State, asOf: int, low: nat, high: nat, es: seq<Event>)
    requires s.progress.None? && IsRange(s.rows, low, high)
    requires IsRun(Step(s, Start(asOf, low, high)), es) && Batches(es, asOf) >= high - low
    ensures IsFinished(Run(Step(s, Start(asOf, low, high)), es))
  {
    RunReplays(s, asOf, low, high, es);
  }

  lemma FinishedReplaysAll(s: State, asOf: int, low: nat, high: nat, es: seq<Event>)
    requires s.progress.None? && IsRange(s.rows, low, high)
    requires IsRun(Step(s, Start(asOf, low, high)), es) && IsFinished(Run(Step(s, Start(asOf, low, high)), es))
    ensures Run(Step(s, Start(asOf, low, high)), es).table == Replayed(s.table, s.rows, asOf, low, high)
  {
    RunReplays(s, asOf, low, high, es);
  }

  /** However it was cut and resumed, a finished backfill of an empty table equals one query over all rows. */
  lemma FinishedEqualsOneQuery(s: State, asOf: int, low: nat, high: nat, es: seq<Event>, k: Key)
    requires s.progress.None? && IsRange(s.rows, low, high) && s.table == map[]
    requires IsRun(Step(s, Start(asOf, low, high)), es) && IsFinished(Run(Step(s, Start(asOf, low, high)), es))
    ensures IsQueried(s.rows, asOf, k, Lookup(Run(Step(s, Start(asOf, low, high)), es).table, k))
  {
    FinishedReplaysAll(s, asOf, low, high, es);
    ReplayedIsSelected(s.table, s.rows, asOf, low, high, k);
    WholeRangeIsGlobal(s.rows, asOf, low, high, k);
  }

  // ---- The job ----

  datatype Error = ProgressMissing | OtherAsOf

  method ReadRange(rows: map<Id, Row>) returns (low: nat, high: nat)
    ensures IsRange(rows, low, high)
  {
    low, high := 0, 0;
    var seen: set<Id> := {};
    while seen != rows.Keys
      invariant seen <= rows.Keys
      invariant if seen == {} then low == 0 && high == 0
                else low + 1 in seen && high in seen && forall id | id in seen :: low < id <= high
      decreases rows.Keys - seen
    {
      var id :| id in rows.Keys && id !in seen;
      if seen == {} {
        low, high := id - 1, id;
      } else {
        low, high := Min(low, id - 1), if id > high then id else high;
      }
      seen := seen + {id};
    }
  }

  function Considered(selected: map<Key, Sample>, row: Row, asOf: int): map<Key, Sample> {
    if IsEligible(row, asOf) && (row.key !in selected || selected[row.key].lastSeen <= row.lastSeen)
    then selected[row.key := SampleOf(row)]
    else selected
  }

  lemma SelectMore(selected: map<Key, Sample>, rows: map<Id, Row>, asOf: int, lo: nat, hi: nat)
    requires lo < hi && forall k :: Lookup(selected, k) == Selected(rows, asOf, k, lo, hi - 1)
    ensures var after := if hi in rows then Considered(selected, rows[hi], asOf) else selected;
            forall k :: Lookup(after, k) == Selected(rows, asOf, k, lo, hi)
  {
    var after := if hi in rows then Considered(selected, rows[hi], asOf) else selected;
    forall k
      ensures Lookup(after, k) == Selected(rows, asOf, k, lo, hi)
    {
      SelectedStep(rows, asOf, k, lo, hi);
      assert Lookup(selected, k) == Selected(rows, asOf, k, lo, hi - 1);
    }
  }

  /** One batch: select the latest row of each key among lo + 1 .. hi, then upsert what was selected. */
  method SampleBatch(table: map<Key, Sample>, rows: map<Id, Row>, asOf: int, lo: nat, hi: nat)
    returns (after: map<Key, Sample>)
    requires lo <= hi
    ensures after == Replayed(table, rows, asOf, lo, hi)
  {
    var selected: map<Key, Sample> := map[];
    for id := lo to hi
      invariant forall k :: Lookup(selected, k) == Selected(rows, asOf, k, lo, id)
    {
      SelectMore(selected, rows, asOf, lo, id + 1);
      if id + 1 in rows {
        selected := Considered(selected, rows[id + 1], asOf);
      }
    }
    after := table;
    var left := selected.Keys;
    while left != {}
      invariant left <= selected.Keys
      invariant forall k :: Lookup(after, k) ==
                  if k in left then Lookup(table, k) else Merge(Lookup(table, k), Lookup(selected, k))
      decreases left
    {
      var k :| k in left;
      after := Upserted(after, k, selected[k]);
      left := left - {k};
    }
    forall k
      ensures Lookup(after, k) == Lookup(Replayed(table, rows, asOf, lo, hi), k)
    {
      ReplayedIsSelected(table, rows, asOf, lo, hi, k);
    }
    SameLookups(after, Replayed(table, rows, asOf, lo, hi));
  }

  class BackfillJob {
    var rows: map<Id, Row>
    var table: map<Key, Sample>
    var progress: Option<Progress>

    constructor (rows: map<Id, Row>, table: map<Key, Sample>)
      ensures this.rows == rows && this.table == table && progress == None
    {
      this.rows, this.table, progress := rows, table, None;
    }

    /** Runs until the target, or for at most the given number of batches. */
    method Samples(batchSize: nat, asOf: int, limit: Option<nat>) returns (r: Result<bool, Error>)
      requires batchSize > 0
      modifies this`table, this`progress
      ensures progress.Some?
      ensures old(progress).None? ==> exists low: nat, high: nat ::
                IsRange(rows, low, high) && progress.value.targetId == high && progress.value.asOf == asOf &&
                low <= progress.value.lastId && table == Replayed(old(table), rows, asOf, low, progress.value.lastId)
      ensures old(progress).Some? ==>
                && progress.value.targetId == old(progress).value.targetId
                && progress.value.asOf == old(progress).value.asOf
                && table == Replayed(old(table), rows, asOf, old(progress).value.lastId, progress.value.lastId)
      ensures r.Failure? <==> old(progress).Some? && old(progress).value.asOf != asOf
      ensures r.Failure? ==> r.error == OtherAsOf && progress == old(progress) && table == old(table)
      ensures r.Success? ==> r.value == (progress.value.lastId >= progress.value.targetId)
      ensures r.Success? && limit.None? ==> r.value
    {
      if progress.None? {
        var low, high := ReadRange(rows);
        progress := Some(Progress(low, high, asOf));
      }
      ghost var from := progress.value.lastId;
      ghost var target := progress.value.targetId;
      var batches := 0;
      while true
        invariant progress.Some? && progress.value.targetId == target
        invariant progress.value.asOf == if old(progress).Some? then old(progress).value.asOf else asOf
        invariant progress.value.asOf != asOf ==> progress == old(progress) && table == old(table)
        invariant from <= progress.value.lastId
        invariant table == Replayed(old(table), rows, asOf, from, progress.value.lastId)
        decreases progress.value.targetId - progress.value.lastId
      {
        var p := progress.value;
        if p.asOf != asOf {
          return Failure(OtherAsOf);
        }
        if p.lastId >= p.targetId || (limit.Some? && batches >= limit.value) {
          return Success(p.lastId >= p.targetId);
        }
        var upper := Min(p.lastId + batchSize, p.targetId);
        ReplayedSplits(old(table), rows, asOf, from, p.lastId, upper);
        table := SampleBatch(table, rows, asOf, p.lastId, upper);
        progress := Some(p.(lastId := upper));
        batches := batches + 1;
      }
    }
  }
}
