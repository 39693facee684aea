/**
 Poll-weighted delay counts: which predictions of a poll are counted, and how the stored
 histogram stays right when a poll is replayed.
 */
module Histogram {
  import opened Wrappers
  import opened Picks
  import opened BusFeed

  // ---- The route filter ----

  datatype BusIds = BusIds(routeIds: set<string>, tripRoutes: map<string, string>)

  const DYNAMIC_RELATIONSHIPS := {"ADDED", "UNSCHEDULED", "CANCELED", "REPLACEMENT", "DUPLICATED", "DELETED"}

  function ResolveBusRoute(tripId: Option<string>, routeId: Option<string>, relationship: string,
                           ids: BusIds): Option<string> {
    if tripId.Some? && tripId.value in ids.tripRoutes then Some(ids.tripRoutes[tripId.value])
    else if routeId.Some? && routeId.value in ids.routeIds && relationship in DYNAMIC_RELATIONSHIPS then routeId
    else None
  }

  function RouteOf(trip: Trip, ids: BusIds): Option<string> {
    ResolveBusRoute(trip.tripId, trip.routeId, trip.relationship, ids)
  }

  /** The route a stop update gets: that of the last accepted trip with its key. */
  function AcceptedRoute(trips: seq<Trip>, ids: BusIds, tripKey: string): Option<string> {
    if trips == [] then None
    else
      var trip := trips[|trips| - 1];
      if trip.tripKey == tripKey && RouteOf(trip, ids).Some? then RouteOf(trip, ids)
      else AcceptedRoute(trips[..|trips| - 1], ids, tripKey)
  }

  function RoutedTrips(trips: seq<Trip>, ids: BusIds): seq<Trip> {
    if trips == [] then []
    else
      var trip := trips[|trips| - 1];
      RoutedTrips(trips[..|trips| - 1], ids) +
      if RouteOf(trip, ids).Some? then [trip.(routeId := RouteOf(trip, ids))] else []
  }

  function RoutedUpdates(updates: seq<StopUpdate>, trips: seq<Trip>, ids: BusIds): seq<StopUpdate> {
    if updates == [] then []
    else
      var u := updates[|updates| - 1];
      var route := AcceptedRoute(trips, ids, u.state.tripKey);
      RoutedUpdates(updates[..|updates| - 1], trips, ids)
      + if route.Some? then [u.(state := u.state.(routeId := route))] else []
  }

  /**
   The trip is on the route: the static feed says so or, where it does not know the trip, the
   realtime feed says so for a known route and a trip that is not run as scheduled.
   */
  predicate IsOnRoute(trip: Trip, ids: BusIds, route: string) {
    if trip.tripId.Some? && trip.tripId.value in ids.tripRoutes then ids.tripRoutes[trip.tripId.value] == route
    else
      && trip.routeId == Some(route) && route in ids.routeIds
      && trip.relationship in {"ADDED", "UNSCHEDULED", "CANCELED", "REPLACEMENT", "DUPLICATED", "DELETED"}
  }

  lemma RouteIsResolved(trip: Trip, ids: BusIds, route: string)
    ensures RouteOf(trip, ids) == Some(route) <==> IsOnRoute(trip, ids, route)
  {}

  ghost predicate IsBusTrip(trip: Trip, ids: BusIds) {
    exists route :: IsOnRoute(trip, ids, route)
  }

  predicate IsBusTripOf(trip: Trip, ids: BusIds, bus: Trip) {
    && bus.routeId.Some? && IsOnRoute(trip, ids, bus.routeId.value)
    && bus == trip.(routeId := bus.routeId)
  }

  /** In order, the trips on a bus route, each with its route. */
  ghost predicate AreBusTrips(trips: seq<Trip>, ids: BusIds, busTrips: seq<Trip>, picks: seq<int>) {
    && ArePicks(picks, |trips|, |busTrips|)
    && (forall i | 0 <= i < |trips| :: i in picks <==> IsBusTrip(trips[i], ids))
    && forall k | 0 <= k < |busTrips| :: IsBusTripOf(trips[picks[k]], ids, busTrips[k])
  }

  lemma {:induction false} RoutedInOrder(trips: seq<Trip>, ids: BusIds) returns (picks: seq<int>)
    ensures AreBusTrips(trips, ids, RoutedTrips(trips, ids), picks)
    decreases |trips|
  {
    picks := [];
    if trips == [] {
    } else {
      var n := |trips| - 1;
      picks := RoutedInOrder(trips[..n], ids);
      NextTrip(trips[..n], ids, RoutedTrips(trips[..n], ids), picks, trips[n]);
      assert trips == trips[..n] + [trips[n]];
      picks := if RouteOf(trips[n], ids).Some? then picks + [n] else picks;
    }
  }

  lemma NextTrip(trips: seq<Trip>, ids: BusIds, busTrips: seq<Trip>, picks: seq<int>, trip: Trip)
    requires AreBusTrips(trips, ids, busTrips, picks)
    ensures var route := RouteOf(trip, ids);
            if route.None? then AreBusTrips(trips + [trip], ids, busTrips, picks)
            else AreBusTrips(trips + [trip], ids, busTrips + [trip.(routeId := route)], picks + [|trips|])
  {
    forall route {
      RouteIsResolved(trip, ids, route);
    }
  }

  /** The last trip of this key that is a bus trip is on the route. */
  ghost predicate IsAccepted(trips: seq<Trip>, ids: BusIds, tripKey: string, route: string) {
    exists j :: 0 <= j < |trips| && trips[j].tripKey == tripKey && IsOnRoute(trips[j], ids, route) &&
                forall l | j < l < |trips| && trips[l].tripKey == tripKey :: !IsBusTrip(trips[l], ids)
  }

  lemma {:induction false} AcceptedIsLast(trips: seq<Trip>, ids: BusIds, tripKey: string, route: string)
    ensures AcceptedRoute(trips, ids, tripKey) == Some(route) <==> IsAccepted(trips, ids, tripKey, route)
    decreases |trips|
  {
    if trips == [] {
    } else {
      var n := |trips| - 1;
      AcceptedIsLast(trips[..n], ids, tripKey, route);
      forall r { RouteIsResolved(trips[n], ids, r); }
      assert forall j | 0 <= j < n :: trips[..n][j] == trips[j];
    }
  }

  ghost predicate IsBusUpdate(u: StopUpdate, trips: seq<Trip>, ids: BusIds) {
    exists route :: IsAccepted(trips, ids, u.state.tripKey, route)
  }

  ghost predicate IsBusUpdateOf(u: StopUpdate, trips: seq<Trip>, ids: BusIds, bus: StopUpdate) {
    && bus.state.routeId.Some? && IsAccepted(trips, ids, u.state.tripKey, bus.state.routeId.value)
    && bus == u.(state := u.state.(routeId := bus.state.routeId))
  }

  /** In order, the predictions of accepted trips, each with the accepted route. */
  ghost predicate AreBusUpdates(updates: seq<StopUpdate>, trips: seq<Trip>, ids: BusIds, busUpdates: seq<StopUpdate>,
                                picks: seq<int>) {
    && ArePicks(picks, |updates|, |busUpdates|)
    && (forall i | 0 <= i < |updates| :: i in picks <==> IsBusUpdate(updates[i], trips, ids))
    && forall k | 0 <= k < |busUpdates| :: IsBusUpdateOf(updates[picks[k]], trips, ids, busUpdates[k])
  }

  lemma {:induction false} UpdatesInOrder(updates: seq<StopUpdate>, trips: seq<Trip>, ids: BusIds)
    returns (picks: seq<int>)
    ensures AreBusUpdates(updates, trips, ids, RoutedUpdates(updates, trips, ids), picks)
    decreases |updates|
  {
    picks := [];
    if updates == [] {
    } else {
      var n := |updates| - 1;
      picks := UpdatesInOrder(updates[..n], trips, ids);
      NextUpdate(updates[..n], trips, ids, RoutedUpdates(updates[..n], trips, ids), picks, updates[n]);
      assert updates == updates[..n] + [updates[n]];
      picks := if AcceptedRoute(trips, ids, updates[n].state.tripKey).Some? then picks + [n] else picks;
    }
  }

  lemma NextUpdate(updates: seq<StopUpdate>, trips: seq<Trip>, ids: BusIds, busUpdates: seq<StopUpdate>,
                   picks: seq<int>, u: StopUpdate)
    requires AreBusUpdates(updates, trips, ids, busUpdates, picks)
    ensures var route := AcceptedRoute(trips, ids, u.state.tripKey);
            if route.None? then AreBusUpdates(updates + [u], trips, ids, busUpdates, picks)
            else AreBusUpdates(updates + [u], trips, ids, busUpdates + [u.(state := u.state.(routeId := route))],
                               picks + [|updates|])
  {
    forall route {
      AcceptedIsLast(trips, ids, u.state.tripKey, route);
    }
  }

  method FilterBusRealtimeFeed(updates: seq<StopUpdate>, trips: seq<Trip>, ids: BusIds)
    returns (busUpdates: seq<StopUpdate>, busTrips: seq<Trip>)
    ensures busTrips == RoutedTrips(trips, ids)
    ensures busUpdates == RoutedUpdates(updates, trips, ids)
    ensures exists picks :: AreBusTrips(trips, ids, busTrips, picks)
    ensures exists picks :: AreBusUpdates(updates, trips, ids, busUpdates, picks)
  {
    ghost var tripPicks := RoutedInOrder(trips, ids);
    ghost var updatePicks := UpdatesInOrder(updates, trips, ids);
    var accepted: map<string, string> := map[];
    busTrips := [];
    for i := 0 to |trips|
      invariant forall k :: (if k in accepted then Some(accepted[k]) else None) == AcceptedRoute(trips[..i], ids, k)
      invariant busTrips == RoutedTrips(trips[..i], ids)
    {
      assert trips[..i + 1][..i] == trips[..i];
      var trip := trips[i];
      var route := ResolveBusRoute(trip.tripId, trip.routeId, trip.relationship, ids);
      if route.Some? {
        accepted := accepted[trip.tripKey := route.value];
        busTrips := busTrips + [trip.(routeId := route)];
      }
    }
    assert trips[..|trips|] == trips;
    busUpdates := [];
    for i := 0 to |updates|
      invariant busUpdates == RoutedUpdates(updates[..i], trips, ids)
    {
      assert updates[..i + 1][..i] == updates[..i];
      var update := updates[i];
      if update.state.tripKey in accepted {
        busUpdates := busUpdates + [update.(state := update.state.(routeId := Some(accepted[update.state.tripKey])))];
      }
    }
    assert updates[..|updates|] == updates;
  }

  /** Every route the active static feed knows. */
  function KnownRoutes(ids: BusIds): set<Scope> {
    (set r | r in ids.routeIds :: Route(r)) + (set t | t in ids.tripRoutes :: Route(ids.tripRoutes[t]))
  }

  lemma {:induction false} AcceptedIsKnown(trips: seq<Trip>, ids: BusIds, tripKey: string)
    requires AcceptedRoute(trips, ids, tripKey).Some?
    ensures Route(AcceptedRoute(trips, ids, tripKey).value) in KnownRoutes(ids)
    decreases |trips|
  {
    var trip := trips[|trips| - 1];
    if trip.tripKey == tripKey && RouteOf(trip, ids).Some? {
    } else {
      AcceptedIsKnown(trips[..|trips| - 1], ids, tripKey);
    }
  }

  /** Filtering leaves only predictions on routes of the static feed. */
  lemma {:induction false} FilteredAreRouted(updates: seq<StopUpdate>, trips: seq<Trip>, ids: BusIds, u: StopUpdate)
    requires u in RoutedUpdates(updates, trips, ids)
    ensures u.state.routeId.Some? && Route(u.state.routeId.value) in KnownRoutes(ids)
    decreases |updates|
  {
    var past, last := updates[..|updates| - 1], updates[|updates| - 1];
    if u in RoutedUpdates(past, trips, ids) {
      FilteredAreRouted(past, trips, ids, u);
    } else {
      AcceptedIsKnown(trips, ids, last.state.tripKey);
    }
  }

  // ---- The counts of one poll ----

  datatype Scope = Network | Route(id: string) | Stop(id: string)

  datatype Cell = Cell(scope: Scope, delay: int)

  function UpperChar(c: char): char {
    if 'a' <= c <= 'z' then c - 'a' + 'A' else c
  }

  function Upper(s: string): string {
    seq(|s|, i requires 0 <= i < |s| => UpperChar(s[i]))
  }

  const EXCLUDED := {"CANCELED", "CANCELLED", "DELETED"}
  const SKIPPED := {"SKIPPED", "NO_DATA"} + EXCLUDED

  function RelationshipOf(trips: seq<Trip>, tripKey: string): string {
    if trips == [] then "SCHEDULED"
    else if trips[|trips| - 1].tripKey == tripKey then Upper(trips[|trips| - 1].relationship)
    else RelationshipOf(trips[..|trips| - 1], tripKey)
  }

  function StopRelationship(s: StopState): string {
    if s.relationship.None? || s.relationship.value == "" then "SCHEDULED" else Upper(s.relationship.value)
  }

  predicate IsCounted(u: StopUpdate, trips: seq<Trip>) {
    && DelayOf(u.state).Some?
    && RelationshipOf(trips, u.state.tripKey) !in EXCLUDED
    && StopRelationship(u.state) !in SKIPPED
  }

  function CellsOf(u: StopUpdate): multiset<Cell>
    requires DelayOf(u.state).Some?
  {
    var d := DelayOf(u.state).value;
    multiset{Cell(Network, d)}
    + (if u.state.routeId.Some? then multiset{Cell(Route(u.state.routeId.value), d)} else multiset{})
    + (if u.state.stopId.Some? then multiset{Cell(Stop(u.state.stopId.value), d)} else multiset{})
  }

  function Contribution(u: StopUpdate, trips: seq<Trip>): multiset<Cell> {
    if IsCounted(u, trips) then CellsOf(u) else multiset{}
  }

  function PollCounts(updates: seq<StopUpdate>, trips: seq<Trip>): multiset<Cell> {
    if updates == [] then multiset{}
    else
      var u := updates[|updates| - 1];
      PollCounts(updates[..|updates| - 1], trips) + Contribution(u, trips)
  }

  /** Letters a to z become A to Z, in place. */
  lemma UpperIsPointwise(s: string)
    ensures |Upper(s)| == |s|
    ensures forall i | 0 <= i < |s| ::
              if 'a' <= s[i] <= 'z' then Upper(s)[i] as int == s[i] as int - 32 else Upper(s)[i] == s[i]
  {}

  predicate IsLastTrip(trips: seq<Trip>, tripKey: string, j: int) {
    0 <= j < |trips| && trips[j].tripKey == tripKey && forall l | j < l < |trips| :: trips[l].tripKey != tripKey
  }

  /** The poll does not call the trip off. */
  ghost predicate IsRunning(trips: seq<Trip>, tripKey: string) {
    forall j | IsLastTrip(trips, tripKey, j) :: Upper(trips[j].relationship) !in {"CANCELED", "CANCELLED", "DELETED"}
  }

  /** The prediction counts for the scope with this delay: that of the departure, or else of the arrival. */
  ghost predicate CountsFor(u: StopUpdate, trips: seq<Trip>, c: Cell) {
    && Some(c.delay) == (if u.state.departureDelay.Some? then u.state.departureDelay else u.state.arrivalDelay)
    && IsRunning(trips, u.state.tripKey)
    && (u.state.relationship.None? ||
        Upper(u.state.relationship.value) !in {"SKIPPED", "NO_DATA", "CANCELED", "CANCELLED", "DELETED"})
    && IsInScope(u.state, c.scope)
  }

  predicate IsInScope(s: StopState, scope: Scope) {
    match scope
    case Network => true
    case Route(id) => s.routeId == Some(id)
    case Stop(id) => s.stopId == Some(id)
  }

  lemma {:induction false} RunningIsIncluded(trips: seq<Trip>, tripKey: string)
    ensures IsRunning(trips, tripKey) <==> RelationshipOf(trips, tripKey) !in EXCLUDED
    decreases |trips|
  {
    if trips == [] {
    } else {
      var n := |trips| - 1;
      RunningIsIncluded(trips[..n], tripKey);
      if trips[n].tripKey == tripKey {
        assert IsLastTrip(trips, tripKey, n);
      } else {
        assert forall j :: IsLastTrip(trips, tripKey, j) <==> IsLastTrip(trips[..n], tripKey, j);
      }
    }
  }

  lemma ContributesOne(u: StopUpdate, trips: seq<Trip>, c: Cell)
    ensures Contribution(u, trips)[c] == if CountsFor(u, trips, c) then 1 else 0
  {
    RunningIsIncluded(trips, u.state.tripKey);
    StopIsIncluded(u.state);
    if IsCounted(u, trips) {
      OneOfCells(u, c);
    }
  }

  lemma StopIsIncluded(s: StopState)
    ensures StopRelationship(s) !in SKIPPED <==>
            || s.relationship.None?
            || Upper(s.relationship.value) !in {"SKIPPED", "NO_DATA", "CANCELED", "CANCELLED", "DELETED"}
  {
    assert Upper("") == "";
  }

  lemma OneOfCells(u: StopUpdate, c: Cell)
    requires DelayOf(u.state).Some?
    ensures CellsOf(u)[c] == if DelayOf(u.state) == Some(c.delay) && IsInScope(u.state, c.scope) then 1 else 0
  {}

  /** The positions of the predictions that count for a cell. */
  ghost function Counting(updates: seq<StopUpdate>, trips: seq<Trip>, c: Cell): set<int> {
    set i | 0 <= i < |updates| && CountsFor(updates[i], trips, c)
  }

  /** Each cell counts the predictions that count for it. */
  lemma {:induction false} CellsAreCounted(updates: seq<StopUpdate>, trips: seq<Trip>, c: Cell)
    ensures PollCounts(updates, trips)[c] == |Counting(updates, trips, c)|
    decreases |updates|
  {
    if updates == [] {
      assert Counting(updates, trips, c) == {};
    } else {
      var n := |updates| - 1;
      CellsAreCounted(updates[..n], trips, c);
      ContributesOne(updates[n], trips, c);
      assert Counting(updates, trips, c) - {n} == Counting(updates[..n], trips, c);
    }
  }

  method BusPollDelayHistogram(updates: seq<StopUpdate>, trips: seq<Trip>) returns (counts: multiset<Cell>)
    ensures counts == PollCounts(updates, trips)
    ensures forall c :: counts[c] == |Counting(updates, trips, c)|
  {
    forall c { CellsAreCounted(updates, trips, c); }
    var relationships: map<string, string> := map[];
    for i := 0 to |trips|
      invariant forall k :: (if k in relationships then relationships[k] else "SCHEDULED") ==
                  RelationshipOf(trips[..i], k)
    {
      assert trips[..i + 1][..i] == trips[..i];
      relationships := relationships[trips[i].tripKey := Upper(trips[i].relationship)];
    }
    assert trips[..|trips|] == trips;
    counts := multiset{};
    for i := 0 to |updates|
      invariant counts == PollCounts(updates[..i], trips)
    {
      assert updates[..i + 1][..i] == updates[..i];
      var s := updates[i].state;
      var delay := DelayOf(s);
      if delay.None? {
        continue;
      }
      if (if s.tripKey in relationships then relationships[s.tripKey] else "SCHEDULED") in EXCLUDED {
        continue;
      }
      if StopRelationship(s) in SKIPPED {
        continue;
      }
      counts := AddScopes(counts, updates[i], delay.value);
    }
    assert updates[..|updates|] == updates;
  }

  method AddScopes(before: multiset<Cell>, u: StopUpdate, delay: int) returns (counts: multiset<Cell>)
    requires DelayOf(u.state) == Some(delay)
    ensures counts == before + CellsOf(u)
  {
    counts := before + multiset{Cell(Network, delay)};
    if u.state.routeId.Some? {
      counts := counts + multiset{Cell(Route(u.state.routeId.value), delay)};
    }
    if u.state.stopId.Some? {
      counts := counts + multiset{Cell(Stop(u.state.stopId.value), delay)};
    }
  }

  // ---- The order of the predictions does not matter ----

  /** f adds up what c gives for each element. */
  ghost predicate IsSum(f: seq<StopUpdate> -> multiset<Cell>, c: StopUpdate -> multiset<Cell>) {
    forall s, u :: f(s + [u]) == f(s) + c(u)
  }

  lemma {:induction false} SumWithout(f: seq<StopUpdate> -> multiset<Cell>, c: StopUpdate -> multiset<Cell>,
                                      before: seq<StopUpdate>, u: StopUpdate, rest: seq<StopUpdate>)
    requires IsSum(f, c)
    ensures f(before + [u] + rest) == f(before + rest) + c(u)
    decreases |rest|
  {
    if rest == [] {
      assert before + [u] + rest == before + [u] && before + rest == before;
    } else {
      var n := |rest| - 1;
      SumWithout(f, c, before, u, rest[..n]);
      assert before + [u] + rest == before + [u] + rest[..n] + [rest[n]];
      assert before + rest == before + rest[..n] + [rest[n]];
    }
  }

  lemma SameRemainder(past: seq<StopUpdate>, u: StopUpdate, b: seq<StopUpdate>, i: nat)
    requires i < |b| && b[i] == u && multiset(past + [u]) == multiset(b)
    ensures multiset(past) == multiset(b[..i] + b[i + 1..])
  {
    assert b == b[..i] + [u] + b[i + 1..];
    assert multiset(past) == multiset(past + [u]) - multiset{u};
  }

  lemma {:induction false} SumIgnoresOrder(f: seq<StopUpdate> -> multiset<Cell>, c: StopUpdate -> multiset<Cell>,
                                           a: seq<StopUpdate>, b: seq<StopUpdate>)
    requires IsSum(f, c) && multiset(a) == multiset(b)
    ensures f(a) == f(b)
    decreases |a|
  {
    if a == [] {
      assert |b| == |multiset(b)| == 0;
    } else {
      var past, u := a[..|a| - 1], a[|a| - 1];
      assert a == past + [u];
      assert u in multiset(b);
      var i :| 0 <= i < |b| && b[i] == u;
      var rest := b[..i] + b[i + 1..];
      SameRemainder(past, u, b, i);
      SumIgnoresOrder(f, c, past, rest);
      assert b == b[..i] + [u] + b[i + 1..];
      SumWithout(f, c, b[..i], u, b[i + 1..]);
    }
  }

  lemma CountsIgnoreOrder(a: seq<StopUpdate>, b: seq<StopUpdate>, trips: seq<Trip>)
    requires multiset(a) == multiset(b)
    ensures PollCounts(a, trips) == PollCounts(b, trips)
  {
    var f, c := (s: seq<StopUpdate>) => PollCounts(s, trips), (u: StopUpdate) => Contribution(u, trips);
    forall s, u
      ensures f(s + [u]) == f(s) + c(u)
    {
      assert (s + [u])[..|s|] == s;
    }
    SumIgnoresOrder(f, c, a, b);
  }

  // ---- The scopes of one poll agree ----

  datatype Kind = OnNetwork | OnRoute | OnStop

  /** The scope of one kind that a prediction falls in. */
  function ScopeOf(kind: Kind, u: StopUpdate): Option<Scope> {
    match kind
    case OnNetwork => Some(Network)
    case OnRoute => if u.state.routeId.Some? then Some(Route(u.state.routeId.value)) else None
    case OnStop => if u.state.stopId.Some? then Some(Stop(u.state.stopId.value)) else None
  }

  predicate IsOfKind(kind: Kind, s: Scope) {
    match kind
    case OnNetwork => s.Network?
    case OnRoute => s.Route?
    case OnStop => s.Stop?
  }

  /** How many counted predictions of delay d have a scope of the given kind. */
  function Counted(updates: seq<StopUpdate>, trips: seq<Trip>, d: int, kind: Kind): nat {
    if updates == [] then 0
    else
      var u := updates[|updates| - 1];
      Counted(updates[..|updates| - 1], trips, d, kind)
      + if IsCounted(u, trips) && DelayOf(u.state) == Some(d) && ScopeOf(kind, u).Some? then 1 else 0
  }

  /** The total of one delay over a set of scopes. */
  ghost function Total(counts: multiset<Cell>, scopes: set<Scope>, d: int): nat
    decreases scopes
  {
    if scopes == {} then 0
    else
      var s :| s in scopes;
      counts[Cell(s, d)] + Total(counts, scopes - {s}, d)
  }

  lemma {:induction false} TotalPick(counts: multiset<Cell>, scopes: set<Scope>, d: int, s: Scope)
    requires s in scopes
    ensures Total(counts, scopes, d) == counts[Cell(s, d)] + Total(counts, scopes - {s}, d)
    decreases scopes
  {
    var t :| t in scopes && Total(counts, scopes, d) == counts[Cell(t, d)] + Total(counts, scopes - {t}, d);
    if t == s {
    } else {
      TotalPick(counts, scopes - {t}, d, s);
      TotalPick(counts, scopes - {s}, d, t);
      assert scopes - {t} - {s} == scopes - {s} - {t};
    }
  }

  lemma {:induction false} TotalUnaffected(counts: multiset<Cell>, more: multiset<Cell>, scopes: set<Scope>, d: int)
    requires forall s | s in scopes :: more[Cell(s, d)] == 0
    ensures Total(counts + more, scopes, d) == Total(counts, scopes, d)
    decreases scopes
  {
    if scopes == {} {
    } else {
      var s :| s in scopes;
      TotalPick(counts, scopes, d, s);
      TotalPick(counts + more, scopes, d, s);
      TotalUnaffected(counts, more, scopes - {s}, d);
    }
  }

  lemma {:induction false} TotalEmpty(scopes: set<Scope>, d: int)
    ensures Total(multiset{}, scopes, d) == 0
    decreases scopes
  {
    if scopes == {} {
    } else {
      var s :| s in scopes;
      TotalPick(multiset{}, scopes, d, s);
      TotalEmpty(scopes - {s}, d);
    }
  }

  /** One more counted prediction raises the total of its own delay by one, if it has a scope of the kind. */
  lemma TotalOfOne(counts: multiset<Cell>, u: StopUpdate, scopes: set<Scope>, d: int, kind: Kind)
    requires DelayOf(u.state).Some?
    requires forall s | s in scopes :: IsOfKind(kind, s)
    requires ScopeOf(kind, u).Some? ==> ScopeOf(kind, u).value in scopes
    ensures Total(counts + CellsOf(u), scopes, d) ==
            Total(counts, scopes, d) + if ScopeOf(kind, u).Some? && DelayOf(u.state) == Some(d) then 1 else 0
  {
    var own := ScopeOf(kind, u);
    forall s | s in scopes
      ensures CellsOf(u)[Cell(s, d)] == if own == Some(s) && DelayOf(u.state) == Some(d) then 1 else 0
    {}
    if own.Some? {
      TotalPick(counts, scopes, d, own.value);
      TotalPick(counts + CellsOf(u), scopes, d, own.value);
      TotalUnaffected(counts, CellsOf(u), scopes - {own.value}, d);
    } else {
      TotalUnaffected(counts, CellsOf(u), scopes, d);
    }
  }

  /** Over all scopes of a kind, the counts of a delay add up to the predictions that have such a scope. */
  lemma {:induction false} ScopesAddUp(updates: seq<StopUpdate>, trips: seq<Trip>, d: int, kind: Kind,
                                       scopes: set<Scope>)
    requires forall s | s in scopes :: IsOfKind(kind, s)
    requires forall u | u in updates :: ScopeOf(kind, u).Some? ==> ScopeOf(kind, u).value in scopes
    ensures Total(PollCounts(updates, trips), scopes, d) == Counted(updates, trips, d, kind)
    decreases |updates|
  {
    if updates == [] {
      TotalEmpty(scopes, d);
    } else {
      var past, u := updates[..|updates| - 1], updates[|updates| - 1];
      assert u in updates && forall v | v in past :: v in updates;
      ScopesAddUp(past, trips, d, kind, scopes);
      if IsCounted(u, trips) {
        TotalOfOne(PollCounts(past, trips), u, scopes, d, kind);
      } else {
        assert PollCounts(updates, trips) == PollCounts(past, trips);
      }
    }
  }

  lemma {:induction false} AllRouted(updates: seq<StopUpdate>, trips: seq<Trip>, d: int)
    requires forall u | u in updates :: u.state.routeId.Some?
    ensures Counted(updates, trips, d, OnRoute) == Counted(updates, trips, d, OnNetwork)
    decreases |updates|
  {
    if updates == [] {
    } else {
      assert updates[|updates| - 1] in updates;
      AllRouted(updates[..|updates| - 1], trips, d);
    }
  }

  /**
   Whatever predictions of a filtered feed are counted (the collector counts the last one of
   each stop), for each delay the counts of all routes add up to the network's, and the counts
   of all stops to the counted predictions that name a stop.
   */
  lemma FilteredCountsAddUp(updates: seq<StopUpdate>, trips: seq<Trip>, ids: BusIds, counted: seq<StopUpdate>,
                            stops: set<Scope>, d: int)
    requires forall u | u in counted :: u in RoutedUpdates(updates, trips, ids)
    requires forall s | s in stops :: s.Stop?
    requires forall u | u in counted && u.state.stopId.Some? :: Stop(u.state.stopId.value) in stops
    ensures var counts := PollCounts(counted, RoutedTrips(trips, ids));
            counts[Cell(Network, d)] == Total(counts, KnownRoutes(ids), d) &&
            Total(counts, stops, d) == Counted(counted, RoutedTrips(trips, ids), d, OnStop)
  {
    var busTrips := RoutedTrips(trips, ids);
    forall u | u in counted
      ensures u.state.routeId.Some? && Route(u.state.routeId.value) in KnownRoutes(ids)
    {
      FilteredAreRouted(updates, trips, ids, u);
    }
    ScopesAddUp(counted, busTrips, d, OnStop, stops);
    ScopesAddUp(counted, busTrips, d, OnRoute, KnownRoutes(ids));
    ScopesAddUp(counted, busTrips, d, OnNetwork, {Network});
    TotalPick(PollCounts(counted, busTrips), {Network}, d, Network);
    AllRouted(counted, busTrips, d);
  }

  // ---- The stored histogram ----

  const BUCKET_SECONDS := 3600

  datatype PollId = PollId(fetchedAt: int, feed: nat)

  datatype Bucket = Bucket(hour: int, feed: nat)

  function BucketOf(id: PollId): Bucket {
    Bucket(id.fetchedAt / BUCKET_SECONDS, id.feed)
  }

  /** A bucket is the hour that the poll falls in. */
  lemma BucketIsTheHour(id: PollId)
    ensures BucketOf(id).feed == id.feed
    ensures BucketOf(id).hour * 60 * 60 <= id.fetchedAt < (BucketOf(id).hour + 1) * 60 * 60
  {}

  datatype Store = Store(polls: set<PollId>, counts: map<Bucket, multiset<Cell>>)

  function Stored(store: Store, b: Bucket): multiset<Cell> {
    if b in store.counts then store.counts[b] else multiset{}
  }

  /** A poll is recorded once; a poll that counts nothing leaves no trace. */
  function Recorded(store: Store, id: PollId, counts: multiset<Cell>): Store {
    if counts == multiset{} || id in store.polls then store
    else Store(store.polls + {id}, store.counts[BucketOf(id) := Stored(store, BucketOf(id)) + counts])
  }

  datatype Poll = Poll(id: PollId, updates: seq<StopUpdate>, trips: seq<Trip>)

  /** A replayed poll repeats its payload, so an identity determines what it counts. */
  ghost predicate SamePayloads(polls: seq<Poll>, counts: PollId -> multiset<Cell>) {
    forall p | p in polls :: counts(p.id) == PollCounts(p.updates, p.trips)
  }

  /** The counts a run of polls must leave in a bucket: each distinct poll once. */
  ghost function Expected(ids: set<PollId>, counts: PollId -> multiset<Cell>, b: Bucket): multiset<Cell>
    decreases ids
  {
    if ids == {} then multiset{}
    else
      var id :| id in ids;
      (if BucketOf(id) == b then counts(id) else multiset{}) + Expected(ids - {id}, counts, b)
  }

  lemma {:induction false} ExpectedPick(ids: set<PollId>, counts: PollId -> multiset<Cell>, b: Bucket, id: PollId)
    requires id in ids
    ensures Expected(ids, counts, b) == (if BucketOf(id) == b then counts(id) else multiset{}) +
              Expected(ids - {id}, counts, b)
    decreases ids
  {
    var first :| first in ids &&
                 Expected(ids, counts, b) == (if BucketOf(first) == b then counts(first) else multiset{}) +
                   Expected(ids - {first}, counts, b);
    if first == id {
    } else {
      ExpectedPick(ids - {first}, counts, b, id);
      ExpectedPick(ids - {id}, counts, b, first);
      assert ids - {first} - {id} == ids - {id} - {first};
    }
  }

  lemma ExpectedAdd(ids: set<PollId>, counts: PollId -> multiset<Cell>, id: PollId)
    ensures forall b :: Expected(ids + {id}, counts, b) ==
                        Expected(ids, counts, b) + (if id !in ids && BucketOf(id) == b then counts(id) else multiset{})
  {
    forall b
      ensures Expected(ids + {id}, counts, b) ==
              Expected(ids, counts, b) + (if id !in ids && BucketOf(id) == b then counts(id) else multiset{})
    {
      ExpectedPick(ids + {id}, counts, b, id);
      if id in ids {
        assert ids + {id} == ids;
      } else {
        assert ids + {id} - {id} == ids;
      }
    }
  }

  /** Each of the polls is in the store once. */
  ghost predicate HoldsEach(store: Store, ids: set<PollId>, counts: PollId -> multiset<Cell>) {
    && (forall id :: id in store.polls <==> id in ids && counts(id) != multiset{})
    && forall b :: Stored(store, b) == Expected(ids, counts, b)
  }

  lemma RecordHoldsEach(store: Store, ids: set<PollId>, counts: PollId -> multiset<Cell>, id: PollId)
    requires HoldsEach(store, ids, counts)
    ensures HoldsEach(Recorded(store, id, counts(id)), ids + {id}, counts)
  {
    ExpectedAdd(ids, counts, id);
  }

  /** The histogram tables as an object that polls write to. */
  class HistogramTables {
    var store: Store

    constructor ()
      ensures store == Store({}, map[])
    {
      store := Store({}, map[]);
    }

    method Record(poll: Poll)
      modifies this
      ensures store == Recorded(old(store), poll.id, PollCounts(poll.updates, poll.trips))
      ensures store.polls == old(store).polls +
                (if PollCounts(poll.updates, poll.trips) == multiset{} then {} else {poll.id})
      ensures forall b :: Stored(store, b) ==
                          Stored(old(store), b) +
                          (if poll.id !in old(store).polls && b == BucketOf(poll.id)
                           then PollCounts(poll.updates, poll.trips) else multiset{})
    {
      var histogram := BusPollDelayHistogram(poll.updates, poll.trips);
      if histogram == multiset{} || poll.id in store.polls {
        return;
      }
      var bucket := BucketOf(poll.id);
      store := Store(store.polls + {poll.id}, store.counts[bucket := Stored(store, bucket) + histogram]);
    }

    /** Polls replayed in any order and number leave exactly one copy of each distinct poll. */
    method RecordAll(polls: seq<Poll>, ghost counts: PollId -> multiset<Cell>)
      requires SamePayloads(polls, counts)
      requires store == Store({}, map[])
      modifies this
      ensures forall b :: Stored(store, b) == Expected((set p | p in polls :: p.id), counts, b)
    {
      ghost var seen: set<PollId> := {};
      for i := 0 to |polls|
        invariant seen == (set p | p in polls[..i] :: p.id)
        invariant HoldsEach(store, seen, counts)
      {
        assert polls[..i + 1] == polls[..i] + [polls[i]];
        assert polls[i] in polls;
        RecordHoldsEach(store, seen, counts, polls[i].id);
        Record(polls[i]);
        seen := seen + {polls[i].id};
      }
      assert polls[..|polls|] == polls;
    }
  }
}
