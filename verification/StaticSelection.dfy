/**
 The static feed selection: bus routes, their trips, stop times and shapes, and the stops
 they use together with every parent station above them.
 */
module StaticSelection {
  import opened Wrappers
  import opened StaticRows

  // ---- Stops and their parents ----

  type Parents = map<string, Option<string>>

  function ParentsOf(stops: seq<Stop>): Parents {
    if stops == [] then map[]
    else
      var last := stops[|stops| - 1];
      ParentsOf(stops[..|stops| - 1])[last.id := last.parent]
  }

  /** Every stop is known and so is its parent, which belongs to the set as well. */
  ghost predicate IsClosed(parents: Parents, stops: set<string>) {
    forall s | s in stops :: s in parents && (parents[s].Some? ==> parents[s].value in stops)
  }

  /** The smallest closed set above the stops in use. */
  ghost predicate IsClosure(parents: Parents, used: set<string>, stops: set<string>) {
    && used <= stops && IsClosed(parents, stops)
    && forall other: set<string> | used <= other && IsClosed(parents, other) :: stops <= other
  }

  lemma ClosureIsUnique(parents: Parents, used: set<string>, a: set<string>, b: set<string>)
    requires IsClosure(parents, used, a) && IsClosure(parents, used, b)
    ensures a == b
  {}

  /**
   The worklist over parent stations. It ends even when parents form a cycle; it fails exactly
   when a needed parent is missing, so that no closed set exists.
   */
  method CloseUnderParents(parents: Parents, used: set<string>) returns (r: Result<set<string>, Error>)
    requires used <= parents.Keys
    ensures r.Success? ==> IsClosure(parents, used, r.value)
    ensures r.Failure? ==>
              && r.error.MissingParent? && r.error.stop in parents
              && parents[r.error.stop] == Some(r.error.parent) && r.error.parent !in parents
              && forall other: set<string> | used <= other && IsClosed(parents, other) :: false
  {
    var pending := ListOf(used);
    var selected := used;
    while pending != []
      invariant used <= selected <= parents.Keys
      invariant forall s | s in pending :: s in selected
      invariant forall s | s in selected && s !in pending :: parents[s].Some? ==> parents[s].value in selected
      invariant forall other: set<string> | used <= other && IsClosed(parents, other) :: selected <= other
      decreases |parents.Keys - selected|, |pending|
    {
      var stop := pending[|pending| - 1];
      assert pending == pending[..|pending| - 1] + [stop];
      pending := pending[..|pending| - 1];
      if parents[stop].None? {
        continue;
      }
      var parent := parents[stop].value;
      if parent !in parents {
        return Failure(MissingParent(stop, parent));
      }
      if parent !in selected {
        ghost var left := parents.Keys - selected;
        selected := selected + {parent};
        pending := pending + [parent];
        assert parents.Keys - selected == left - {parent};
      }
    }
    return Success(selected);
  }

  method ListOf(s: set<string>) returns (list: seq<string>)
    ensures forall x :: x in list <==> x in s
  {
    list := [];
    var left := s;
    while left != {}
      invariant left <= s
      invariant forall x :: x in list <==> x in s - left
      decreases left
    {
      var x :| x in left;
      list := list + [x];
      left := left - {x};
    }
  }

  // ---- The whole selection ----

  function NormalId(id: Option<string>): string {
    if id.Some? then id.value else DEFAULT_AGENCY_ID
  }

  function DistinctAgencies(ids: seq<Option<string>>): Result<seq<string>, Error> {
    if ids == [] then Success([])
    else
      match DistinctAgencies(ids[..|ids| - 1])
      case Failure(error) => Failure(error)
      case Success(names) =>
        var id := NormalId(ids[|ids| - 1]);
        if id in names then Failure(RepeatedAgency(id)) else Success(names + [id])
  }

  function ScanAgencies(rows: seq<AgencyRow>): Result<seq<string>, Error> {
    match Collected(ReadAgencies(rows))
    case Failure(error) => Failure(error)
    case Success(ids) =>
      if ids == [] then Failure(NoAgencies)
      else if None in ids && |ids| != 1 then Failure(AgencyIdRequired)
      else DistinctAgencies(ids)
  }

  function Sole(agencies: seq<string>): Option<string> {
    if |agencies| == 1 then Some(agencies[0]) else None
  }

  function AgencyIds(routes: seq<Route>): set<string> { set r | r in routes :: r.agency }

  function RouteIds(routes: seq<Route>): set<string> { set r | r in routes :: r.id }

  function TripIds(trips: seq<Trip>): set<string> { set t | t in trips :: t.id }

  function ShapeIds(trips: seq<Trip>): set<string> { set t | t in trips && t.shape.Some? :: t.shape.value }

  function UsedStops(stopTimes: seq<StopTime>): set<string> { set s | s in stopTimes :: s.stop }

  function FoundShapes(points: seq<ShapePoint>): set<string> { set p | p in points :: p.shape }

  function SetOf(ids: seq<string>): set<string> { set id | id in ids }

  function ScanRoutes(rows: seq<RouteRow>, agencies: seq<string>): Result<seq<Route>, Error> {
    match Collected(ReadRoutes(rows, Sole(agencies)))
    case Failure(error) => Failure(error)
    case Success(routes) =>
      if routes == [] then Failure(NoBusRoutes)
      else if !(AgencyIds(routes) <= SetOf(agencies)) then Failure(MissingAgencies)
      else Success(routes)
  }

  function ScanTrips(rows: seq<TripRow>, routes: set<string>): Result<seq<Trip>, Error> {
    match Collected(ReadTrips(rows, routes))
    case Failure(error) => Failure(error)
    case Success(trips) => if trips == [] then Failure(NoTrips) else Success(trips)
  }

  function ScanStopTimes(rows: seq<StopTimeRow>, trips: set<string>): Result<seq<StopTime>, Error> {
    match Collected(ReadStopTimes(rows, trips))
    case Failure(error) => Failure(error)
    case Success(stopTimes) => if stopTimes == [] then Failure(NoStopTimes) else Success(stopTimes)
  }

  function ScanShapePoints(rows: seq<ShapeRow>, shapes: set<string>): Result<seq<ShapePoint>, Error> {
    match Collected(ReadShapePoints(rows, shapes))
    case Failure(error) => Failure(error)
    case Success(points) => if shapes <= FoundShapes(points) then Success(points) else Failure(MissingShapes)
  }

  function ScanStops(rows: seq<StopRow>, used: set<string>): Result<Parents, Error> {
    match Collected(ReadStops(rows))
    case Failure(error) => Failure(error)
    case Success(stops) => if used <= ParentsOf(stops).Keys then Success(ParentsOf(stops)) else Failure(MissingStops)
  }

  datatype Scan = Scan(
    agencies: seq<string>,
    routes: seq<Route>,
    trips: seq<Trip>,
    stopTimes: seq<StopTime>,
    points: seq<ShapePoint>,
    parents: Parents)

  /** Everything the selection reads, or the first error in reading order. */
  function Scanned(archive: Archive): Result<Scan, Error> {
    match ScanAgencies(archive.agencies)
    case Failure(error) => Failure(error)
    case Success(agencies) =>
      match ScanRoutes(archive.routes, agencies)
      case Failure(error) => Failure(error)
      case Success(routes) =>
        match ScanTrips(archive.trips, RouteIds(routes))
        case Failure(error) => Failure(error)
        case Success(trips) =>
          match ScanStopTimes(archive.stopTimes, TripIds(trips))
          case Failure(error) => Failure(error)
          case Success(stopTimes) =>
            match ScanShapePoints(archive.shapes, ShapeIds(trips))
            case Failure(error) => Failure(error)
            case Success(points) =>
              match ScanStops(archive.stops, UsedStops(stopTimes))
              case Failure(error) => Failure(error)
              case Success(parents) => Success(Scan(agencies, routes, trips, stopTimes, points, parents))
  }

  datatype Selection = Selection(
    agencies: set<string>,
    routes: seq<Route>,
    stops: set<string>,
    trips: seq<Trip>,
    tripIds: set<string>,
    shapeIds: set<string>,
    stopTimeCount: nat,
    shapePointCount: nat)

  ghost predicate IsSelection(scan: Scan, s: Selection) {
    && s.agencies == AgencyIds(scan.routes) && s.routes == scan.routes
    && s.trips == scan.trips && s.tripIds == TripIds(scan.trips) && s.shapeIds == ShapeIds(scan.trips)
    && s.stopTimeCount == |scan.stopTimes| && s.shapePointCount == |scan.points|
    && IsClosure(scan.parents, UsedStops(scan.stopTimes), s.stops)
  }

  /** What makes a selection self-contained. */
  ghost predicate Resolves(s: Selection, stopTimes: seq<StopTime>, points: seq<ShapePoint>) {
    && (forall r | r in s.routes :: r.agency in s.agencies)
    && (forall t | t in s.trips :: t.route in RouteIds(s.routes))
    && (forall t | t in s.trips && t.shape.Some? :: t.shape.value in FoundShapes(points))
    && (forall p | p in points :: p.shape in ShapeIds(s.trips))
    && (forall x | x in stopTimes :: x.trip in TripIds(s.trips) && x.stop in s.stops)
  }

  lemma SelectedTrips(rows: seq<TripRow>, routes: set<string>, t: Trip)
    requires Collected(ReadTrips(rows, routes)).Success?
    ensures t in Collected(ReadTrips(rows, routes)).value <==>
            exists i :: 0 <= i < |rows| && ReadTrip(LineOf(i), rows[i], routes) == Success(Some(t))
  {
    CollectedRows(ReadTrips(rows, routes));
    assert forall i | 0 <= i < |rows| :: ReadTrips(rows, routes)[i] == ReadTrip(LineOf(i), rows[i], routes);
  }

  lemma SelectedStopTimes(rows: seq<StopTimeRow>, trips: set<string>, x: StopTime)
    requires Collected(ReadStopTimes(rows, trips)).Success?
    ensures x in Collected(ReadStopTimes(rows, trips)).value <==>
            exists i :: 0 <= i < |rows| && ReadStopTime(LineOf(i), rows[i], trips) == Success(Some(x))
  {
    CollectedRows(ReadStopTimes(rows, trips));
    assert forall i | 0 <= i < |rows| :: ReadStopTimes(rows, trips)[i] == ReadStopTime(LineOf(i), rows[i], trips);
  }

  lemma SelectedShapePoints(rows: seq<ShapeRow>, shapes: set<string>, p: ShapePoint)
    requires Collected(ReadShapePoints(rows, shapes)).Success?
    ensures p in Collected(ReadShapePoints(rows, shapes)).value <==>
            exists i :: 0 <= i < |rows| && ReadShapePoint(LineOf(i), rows[i], shapes) == Success(Some(p))
  {
    CollectedRows(ReadShapePoints(rows, shapes));
    if shapes != {} {
      assert forall i | 0 <= i < |rows| :: ReadShapePoints(rows, shapes)[i] ==
               ReadShapePoint(LineOf(i), rows[i], shapes);
    }
  }

  lemma TripsKeepRoutes(rows: seq<TripRow>, routes: set<string>, t: Trip)
    requires Collected(ReadTrips(rows, routes)).Success? && t in Collected(ReadTrips(rows, routes)).value
    ensures t.route in routes
  {
    SelectedTrips(rows, routes, t);
  }

  lemma StopTimesKeepTrips(rows: seq<StopTimeRow>, trips: set<string>, x: StopTime)
    requires Collected(ReadStopTimes(rows, trips)).Success? && x in Collected(ReadStopTimes(rows, trips)).value
    ensures x.trip in trips
  {
    SelectedStopTimes(rows, trips, x);
  }

  lemma PointsKeepShapes(rows: seq<ShapeRow>, shapes: set<string>, p: ShapePoint)
    requires Collected(ReadShapePoints(rows, shapes)).Success? && p in Collected(ReadShapePoints(rows, shapes)).value
    ensures p.shape in shapes
  {
    SelectedShapePoints(rows, shapes, p);
  }

  lemma ScanSteps(archive: Archive)
    requires Scanned(archive).Success?
    ensures var scan := Scanned(archive).value;
            && ScanAgencies(archive.agencies) == Success(scan.agencies)
            && AgencyIds(scan.routes) <= SetOf(scan.agencies)
            && Collected(ReadRoutes(archive.routes, Sole(scan.agencies))) == Success(scan.routes)
            && Collected(ReadTrips(archive.trips, RouteIds(scan.routes))) == Success(scan.trips)
            && Collected(ReadStopTimes(archive.stopTimes, TripIds(scan.trips))) == Success(scan.stopTimes)
            && Collected(ReadShapePoints(archive.shapes, ShapeIds(scan.trips))) == Success(scan.points)
            && ShapeIds(scan.trips) <= FoundShapes(scan.points)
  {}

  /** Every reference of a selection leads to a row of it, and the second pass yields the counted rows. */
  lemma SelectionResolves(archive: Archive, s: Selection)
    requires Scanned(archive).Success? && IsSelection(Scanned(archive).value, s)
    ensures s.agencies <= SetOf(Scanned(archive).value.agencies)
    ensures Collected(ReadStopTimes(archive.stopTimes, s.tripIds)).Success?
    ensures Collected(ReadShapePoints(archive.shapes, s.shapeIds)).Success?
    ensures var stopTimes := Collected(ReadStopTimes(archive.stopTimes, s.tripIds)).value;
            var points := Collected(ReadShapePoints(archive.shapes, s.shapeIds)).value;
            |stopTimes| == s.stopTimeCount && |points| == s.shapePointCount && Resolves(s, stopTimes, points)
  {
    var scan := Scanned(archive).value;
    ScanSteps(archive);
    forall t | t in s.trips
      ensures t.route in RouteIds(s.routes)
    {
      TripsKeepRoutes(archive.trips, RouteIds(s.routes), t);
    }
    forall x | x in scan.stopTimes
      ensures x.trip in TripIds(s.trips) && x.stop in s.stops
    {
      StopTimesKeepTrips(archive.stopTimes, s.tripIds, x);
      assert x.stop in UsedStops(scan.stopTimes);
    }
    forall p | p in scan.points
      ensures p.shape in ShapeIds(s.trips)
    {
      PointsKeepShapes(archive.shapes, s.shapeIds, p);
    }
    forall t | t in s.trips && t.shape.Some?
      ensures t.shape.value in FoundShapes(scan.points)
    {
      assert t.shape.value in ShapeIds(s.trips);
    }
  }

  // ---- What a selection takes from the rows ----

  /** The names of the agencies: a missing one is allowed if it is the only one, and none repeats. */
  predicate AreAgenciesOf(rows: seq<AgencyRow>, names: seq<string>) {
    && rows != [] && |names| == |rows|
    && (forall i | 0 <= i < |rows| ::
          rows[i].name.Some? && names[i] == if rows[i].id.Some? then rows[i].id.value else "__default_agency__")
    && (|rows| > 1 ==> forall i | 0 <= i < |rows| :: rows[i].id.Some?)
    && forall i, j | 0 <= i < j < |names| :: names[i] != names[j]
  }

  lemma {:induction false} AgencyIdsAreRead(rows: seq<AgencyRow>)
    ensures Collected(ReadAgencies(rows)).Success? <==> forall i | 0 <= i < |rows| :: rows[i].name.Some?
    ensures Collected(ReadAgencies(rows)).Success? ==>
              var ids := Collected(ReadAgencies(rows)).value;
              |ids| == |rows| && forall i | 0 <= i < |rows| :: ids[i] == rows[i].id
    decreases |rows|
  {
    if rows == [] {
    } else {
      var n := |rows| - 1;
      assert ReadAgencies(rows)[..n] == ReadAgencies(rows[..n]);
      AgencyIdsAreRead(rows[..n]);
    }
  }

  /** Each identifier has its name, and no name repeats. */
  predicate AreNames(ids: seq<Option<string>>, names: seq<string>) {
    && |names| == |ids| && (forall i | 0 <= i < |ids| :: names[i] == NormalId(ids[i]))
    && forall i, j | 0 <= i < j < |names| :: names[i] != names[j]
  }

  lemma OneMoreName(ids: seq<Option<string>>, id: Option<string>, names: seq<string>, name: string)
    ensures AreNames(ids + [id], names + [name]) <==> AreNames(ids, names) && name == NormalId(id) && name !in names
  {
    var all, more := ids + [id], names + [name];
    assert |more| == |all| ==> all[|ids|] == id && more[|ids|] == name;
    if AreNames(all, more) {
      forall i | 0 <= i < |names|
        ensures names[i] == NormalId(ids[i]) && names[i] != name
      {
        assert names[i] == more[i] && ids[i] == all[i];
      }
      forall i, j | 0 <= i < j < |names|
        ensures names[i] != names[j]
      {
        assert names[i] == more[i] && names[j] == more[j];
      }
    }
  }

  lemma {:induction false} DistinctIsDistinct(ids: seq<Option<string>>, names: seq<string>)
    ensures DistinctAgencies(ids) == Success(names) <==> AreNames(ids, names)
    decreases |ids|
  {
    if ids == [] {
    } else {
      var n := |ids| - 1;
      assert ids == ids[..n] + [ids[n]];
      if names != [] {
        var m := |names| - 1;
        assert names == names[..m] + [names[m]];
        DistinctIsDistinct(ids[..n], names[..m]);
        OneMoreName(ids[..n], ids[n], names[..m], names[m]);
      }
    }
  }

  lemma AgenciesAreRead(rows: seq<AgencyRow>, names: seq<string>)
    ensures ScanAgencies(rows) == Success(names) <==> AreAgenciesOf(rows, names)
  {
    AgencyIdsAreRead(rows);
    if Collected(ReadAgencies(rows)).Success? {
      DistinctIsDistinct(Collected(ReadAgencies(rows)).value, names);
    }
  }

  predicate IsLastStop(rows: seq<StopRow>, id: string, i: int) {
    0 <= i < |rows| && rows[i].id == Some(id) && forall j | i < j < |rows| :: rows[j].id != Some(id)
  }

  predicate HasStop(rows: seq<StopRow>, id: string) {
    exists i | 0 <= i < |rows| :: rows[i].id == Some(id)
  }

  /** The stop is known if some row has it, with the parent its last row names. */
  ghost predicate IsParentOf(rows: seq<StopRow>, parents: Parents, id: string) {
    && (id in parents <==> HasStop(rows, id))
    && forall i | IsLastStop(rows, id, i) :: id in parents && parents[id] == rows[i].parent
  }

  ghost predicate AreParentsOf(rows: seq<StopRow>, parents: Parents) {
    forall id :: IsParentOf(rows, parents, id)
  }

  lemma OneMoreStop(rows: seq<StopRow>, parents: Parents, row: StopRow, id: string)
    requires IsParentOf(rows, parents, id) && row.id.Some?
    ensures IsParentOf(rows + [row], parents[row.id.value := row.parent], id)
  {
    var more := rows + [row];
    assert more[|rows|] == row && forall i | 0 <= i < |rows| :: more[i] == rows[i];
    assert HasStop(more, id) <==> HasStop(rows, id) || row.id == Some(id);
    if row.id != Some(id) {
      assert forall i | IsLastStop(more, id, i) :: IsLastStop(rows, id, i);
    }
  }

  lemma {:induction false} StopsAreRead(rows: seq<StopRow>)
    ensures Collected(ReadStops(rows)).Success? <==> forall row | row in rows :: row.id.Some? && row.coordinatesValid
    ensures Collected(ReadStops(rows)).Success? ==> AreParentsOf(rows, ParentsOf(Collected(ReadStops(rows)).value))
    decreases |rows|
  {
    if rows == [] {
    } else {
      var n := |rows| - 1;
      var past, last := rows[..n], rows[n];
      assert rows == past + [last];
      assert ReadStops(rows)[..n] == ReadStops(past);
      StopsAreRead(past);
      if Collected(ReadStops(rows)).Success? {
        var xs := Collected(ReadStops(past)).value;
        assert (xs + [Stop(last.id.value, last.parent)])[..|xs|] == xs;
        var parents := ParentsOf(xs)[last.id.value := last.parent];
        forall id
          ensures IsParentOf(rows, parents, id)
        {
          OneMoreStop(past, ParentsOf(xs), last, id);
        }
      }
    }
  }

  /** The agencies, routes and trips of a selection come from the rows, field by field. */
  lemma TripsAreOfRows(archive: Archive, s: Selection) returns (names: seq<string>)
    requires Scanned(archive).Success? && IsSelection(Scanned(archive).value, s)
    ensures AreAgenciesOf(archive.agencies, names) && (forall r | r in s.routes :: r.agency in names)
    ensures AreRoutesOf(archive.routes, if |names| == 1 then Some(names[0]) else None, s.routes)
    ensures AreTripsOf(archive.trips, set r | r in s.routes :: r.id, s.trips)
    ensures s.routes != [] && s.trips != [] && s.agencies == set r | r in s.routes :: r.agency
    ensures s.tripIds == set t | t in s.trips :: t.id
    ensures s.shapeIds == set t | t in s.trips && t.shape.Some? :: t.shape.value
  {
    ScanSteps(archive);
    names := Scanned(archive).value.agencies;
    AgenciesAreRead(archive.agencies, names);
    RoutesAreRead(archive.routes, Sole(names));
    TripsAreRead(archive.trips, RouteIds(s.routes));
    forall r | r in s.routes
      ensures r.agency in names
    {
      assert r.agency in AgencyIds(s.routes);
    }
  }

  /** The stop times, points and stops of a selection come from the rows, field by field. */
  lemma StopsAreOfRows(archive: Archive, s: Selection)
    returns (stopTimes: seq<StopTime>, points: seq<ShapePoint>, parents: Parents)
    requires Scanned(archive).Success? && IsSelection(Scanned(archive).value, s)
    ensures AreStopTimesOf(archive.stopTimes, s.tripIds, stopTimes) && |stopTimes| == s.stopTimeCount > 0
    ensures AreShapePointsOf(archive.shapes, s.shapeIds, points) && |points| == s.shapePointCount
    ensures s.shapeIds <= set p | p in points :: p.shape
    ensures AreParentsOf(archive.stops, parents)
    ensures forall row | row in archive.stops :: row.id.Some? && row.coordinatesValid
    ensures IsClosure(parents, set x | x in stopTimes :: x.stop, s.stops)
  {
    var scan := Scanned(archive).value;
    ScanSteps(archive);
    stopTimes, points, parents := scan.stopTimes, scan.points, scan.parents;
    StopTimesAreRead(archive.stopTimes, s.tripIds);
    ShapePointsAreRead(archive.shapes, s.shapeIds);
    StopsAreRead(archive.stops);
  }

  // ---- The passes over the files ----

  method LoadAgencies(rows: seq<AgencyRow>) returns (r: Result<seq<string>, Error>)
    ensures r == ScanAgencies(rows)
  {
    var ids: seq<Option<string>> := [];
    for i := 0 to |rows|
      invariant Collected(ReadAgencies(rows)[..i]) == Success(ids)
    {
      NextRow(ReadAgencies(rows), i);
      if rows[i].name.None? {
        return Failure(MissingField("agency.txt", LineOf(i), "agency_name"));
      }
      ids := ids + [rows[i].id];
    }
    AllRows(ReadAgencies(rows));
    if ids == [] {
      return Failure(NoAgencies);
    }
    if None in ids && |ids| != 1 {
      return Failure(AgencyIdRequired);
    }
    var names: seq<string> := [];
    for i := 0 to |ids|
      invariant DistinctAgencies(ids[..i]) == Success(names)
    {
      assert ids[..i + 1][..i] == ids[..i];
      var name := NormalId(ids[i]);
      if name in names {
        RepeatDecides(ids, i + 1);
        return Failure(RepeatedAgency(name));
      }
      names := names + [name];
    }
    assert ids[..|ids|] == ids;
    return Success(names);
  }

  lemma {:induction false} RepeatDecides(ids: seq<Option<string>>, i: nat)
    requires i <= |ids| && DistinctAgencies(ids[..i]).Failure?
    ensures DistinctAgencies(ids) == DistinctAgencies(ids[..i])
    decreases |ids|
  {
    if i < |ids| {
      assert ids[..|ids| - 1][..i] == ids[..i];
      RepeatDecides(ids[..|ids| - 1], i);
    } else {
      assert ids[..i] == ids;
    }
  }

  /** Reading one more row extends the rows read so far or decides the file's error. */
  lemma NextRow<T>(entries: seq<Read<T>>, i: nat)
    requires i < |entries| && Collected(entries[..i]).Success?
    ensures entries[i].Failure? ==> Collected(entries) == Failure(entries[i].error)
    ensures entries[i] == Success(None) ==> Collected(entries[..i + 1]) == Collected(entries[..i])
    ensures entries[i].Success? && entries[i].value.Some? ==>
              Collected(entries[..i + 1]) == Success(Collected(entries[..i]).value + [entries[i].value.value])
  {
    assert entries[..i + 1][..i] == entries[..i];
    if entries[i].Failure? {
      FirstErrorDecides(entries, i + 1);
    }
  }

  lemma AllRows<T>(entries: seq<Read<T>>)
    ensures entries[..|entries|] == entries
  {}

  method SelectRoutes(rows: seq<RouteRow>, agencies: seq<string>) returns (r: Result<seq<Route>, Error>)
    ensures r == ScanRoutes(rows, agencies)
  {
    var routes: seq<Route> := [];
    var agencyIds: set<string> := {};
    var sole := if |agencies| == 1 then Some(agencies[0]) else None;
    for i := 0 to |rows|
      invariant Collected(ReadRoutes(rows, sole)[..i]) == Success(routes)
      invariant agencyIds == AgencyIds(routes)
    {
      NextRow(ReadRoutes(rows, sole), i);
      var row := rows[i];
      if row.routeType.None? {
        return Failure(InvalidField("routes.txt", LineOf(i), "route_type"));
      }
      if !IsBusRouteType(row.routeType.value) {
        continue;
      }
      if row.id.None? {
        return Failure(MissingField("routes.txt", LineOf(i), "route_id"));
      }
      var agency := if row.agency.Some? then row.agency else sole;
      if agency.None? {
        return Failure(RouteWithoutAgency(LineOf(i)));
      }
      agencyIds := agencyIds + {agency.value};
      routes := routes + [Route(row.id.value, agency.value, row.routeType.value)];
    }
    AllRows(ReadRoutes(rows, sole));
    if routes == [] {
      return Failure(NoBusRoutes);
    }
    if exists a | a in agencyIds :: a !in agencies {
      return Failure(MissingAgencies);
    }
    return Success(routes);
  }

  method SelectTrips(rows: seq<TripRow>, routeIds: set<string>)
    returns (r: Result<seq<Trip>, Error>, tripIds: set<string>, shapeIds: set<string>)
    ensures r == ScanTrips(rows, routeIds)
    ensures r.Success? ==> tripIds == TripIds(r.value) && shapeIds == ShapeIds(r.value)
  {
    var trips: seq<Trip> := [];
    tripIds, shapeIds := {}, {};
    for i := 0 to |rows|
      invariant Collected(ReadTrips(rows, routeIds)[..i]) == Success(trips)
      invariant tripIds == TripIds(trips) && shapeIds == ShapeIds(trips)
    {
      NextRow(ReadTrips(rows, routeIds), i);
      var row := rows[i];
      if row.route.None? || row.route.value !in routeIds {
        continue;
      }
      if row.id.None? {
        return Failure(MissingField("trips.txt", LineOf(i), "trip_id")), {}, {};
      }
      if row.service.None? {
        return Failure(MissingField("trips.txt", LineOf(i), "service_id")), {}, {};
      }
      if row.direction.Malformed? {
        return Failure(InvalidField("trips.txt", LineOf(i), "direction_id")), {}, {};
      }
      tripIds := tripIds + {row.id.value};
      if row.shape.Some? {
        shapeIds := shapeIds + {row.shape.value};
      }
      trips := trips + [Trip(row.id.value, row.route.value, row.service.value, Cell(row.direction), row.shape)];
    }
    AllRows(ReadTrips(rows, routeIds));
    if trips == [] {
      return Failure(NoTrips), {}, {};
    }
    return Success(trips), tripIds, shapeIds;
  }

  /** The first pass checks and counts the stop times without keeping them. */
  method CountStopTimes(rows: seq<StopTimeRow>, tripIds: set<string>) returns (r: Result<nat, Error>, used: set<string>)
    ensures ScanStopTimes(rows, tripIds).Failure? ==> r == Failure(ScanStopTimes(rows, tripIds).error)
    ensures ScanStopTimes(rows, tripIds).Success? ==>
              && r == Success(|ScanStopTimes(rows, tripIds).value|)
              && used == UsedStops(ScanStopTimes(rows, tripIds).value)
  {
    var count := 0;
    used := {};
    for i := 0 to |rows|
      invariant Collected(ReadStopTimes(rows, tripIds)[..i]).Success?
      invariant count == |Collected(ReadStopTimes(rows, tripIds)[..i]).value|
      invariant used == UsedStops(Collected(ReadStopTimes(rows, tripIds)[..i]).value)
    {
      NextRow(ReadStopTimes(rows, tripIds), i);
      var row := rows[i];
      if row.trip.None? || row.trip.value !in tripIds {
        continue;
      }
      if row.stop.None? {
        return Failure(MissingField("stop_times.txt", LineOf(i), "stop_id")), {};
      }
      if row.sequence.None? {
        return Failure(InvalidField("stop_times.txt", LineOf(i), "stop_sequence")), {};
      }
      if row.arrival.Malformed? {
        return Failure(InvalidField("stop_times.txt", LineOf(i), "arrival_time")), {};
      }
      if row.departure.Malformed? {
        return Failure(InvalidField("stop_times.txt", LineOf(i), "departure_time")), {};
      }
      used := used + {row.stop.value};
      count := count + 1;
    }
    AllRows(ReadStopTimes(rows, tripIds));
    if count == 0 {
      return Failure(NoStopTimes), {};
    }
    return Success(count), used;
  }

  /** The second pass reads the stop times themselves. */
  method IterBusStopTimes(rows: seq<StopTimeRow>, tripIds: set<string>) returns (r: Result<seq<StopTime>, Error>)
    ensures r == Collected(ReadStopTimes(rows, tripIds))
    ensures r.Success? ==> AreStopTimesOf(rows, tripIds, r.value)
    ensures r.Failure? ==> IsFirstStopTimeFault(rows, tripIds, r.error)
  {
    StopTimesAreRead(rows, tripIds);
    var stopTimes: seq<StopTime> := [];
    for i := 0 to |rows|
      invariant Collected(ReadStopTimes(rows, tripIds)[..i]) == Success(stopTimes)
    {
      NextRow(ReadStopTimes(rows, tripIds), i);
      var entry := ReadStopTime(LineOf(i), rows[i], tripIds);
      if entry.Failure? {
        return Failure(entry.error);
      }
      if entry.value.Some? {
        stopTimes := stopTimes + [entry.value.value];
      }
    }
    AllRows(ReadStopTimes(rows, tripIds));
    return Success(stopTimes);
  }

  /** Both passes read the shape points the same way. */
  method IterBusShapePoints(rows: seq<ShapeRow>, shapeIds: set<string>) returns (r: Result<seq<ShapePoint>, Error>)
    ensures r == Collected(ReadShapePoints(rows, shapeIds))
    ensures r.Success? ==> AreShapePointsOf(rows, shapeIds, r.value)
    ensures r.Failure? ==> IsFirstShapePointFault(rows, shapeIds, r.error)
  {
    ShapePointsAreRead(rows, shapeIds);
    if shapeIds == {} {
      return Success([]);
    }
    var points: seq<ShapePoint> := [];
    for i := 0 to |rows|
      invariant Collected(ReadShapePoints(rows, shapeIds)[..i]) == Success(points)
    {
      NextRow(ReadShapePoints(rows, shapeIds), i);
      var entry := ReadShapePoint(LineOf(i), rows[i], shapeIds);
      if entry.Failure? {
        return Failure(entry.error);
      }
      if entry.value.Some? {
        points := points + [entry.value.value];
      }
    }
    AllRows(ReadShapePoints(rows, shapeIds));
    return Success(points);
  }

  method LoadStops(rows: seq<StopRow>) returns (r: Result<Parents, Error>)
    ensures Collected(ReadStops(rows)).Failure? ==> r == Failure(Collected(ReadStops(rows)).error)
    ensures Collected(ReadStops(rows)).Success? ==> r == Success(ParentsOf(Collected(ReadStops(rows)).value))
  {
    var parents: Parents := map[];
    for i := 0 to |rows|
      invariant Collected(ReadStops(rows)[..i]).Success?
      invariant parents == ParentsOf(Collected(ReadStops(rows)[..i]).value)
    {
      NextRow(ReadStops(rows), i);
      ghost var before := Collected(ReadStops(rows)[..i]).value;
      if rows[i].id.None? {
        return Failure(MissingField("stops.txt", LineOf(i), "stop_id"));
      }
      if !rows[i].coordinatesValid {
        return Failure(InvalidField("stops.txt", LineOf(i), "coordinates"));
      }
      ghost var stop := Stop(rows[i].id.value, rows[i].parent);
      assert (before + [stop])[..|before|] == before;
      parents := parents[rows[i].id.value := rows[i].parent];
    }
    AllRows(ReadStops(rows));
    return Success(parents);
  }

  /** The selection succeeds exactly when the files read and some closed set of stops exists. */
  method SelectStaticFeed(archive: Archive) returns (r: Result<Selection, Error>)
    ensures Scanned(archive).Failure? ==> r == Failure(Scanned(archive).error)
    ensures r.Success? ==> Scanned(archive).Success? && IsSelection(Scanned(archive).value, r.value)
    ensures r.Failure? && Scanned(archive).Success? ==>
              var scan := Scanned(archive).value;
              && r.error.MissingParent? && r.error.parent !in scan.parents
              && forall stops: set<string> | UsedStops(scan.stopTimes) <= stops ::
                   !IsClosed(scan.parents, stops)
  {
    var agencies := LoadAgencies(archive.agencies);
    if agencies.Failure? {
      return Failure(agencies.error);
    }
    var routes := SelectRoutes(archive.routes, agencies.value);
    if routes.Failure? {
      return Failure(routes.error);
    }
    var trips, tripIds, shapeIds := SelectTrips(archive.trips, RouteIds(routes.value));
    if trips.Failure? {
      return Failure(trips.error);
    }
    var stopTimeCount, used := CountStopTimes(archive.stopTimes, tripIds);
    if stopTimeCount.Failure? {
      return Failure(stopTimeCount.error);
    }
    var points := IterBusShapePoints(archive.shapes, shapeIds);
    if points.Failure? {
      return Failure(points.error);
    }
    if !(shapeIds <= FoundShapes(points.value)) {
      return Failure(MissingShapes);
    }
    var parents := LoadStops(archive.stops);
    if parents.Failure? {
      return Failure(parents.error);
    }
    if !(used <= parents.value.Keys) {
      return Failure(MissingStops);
    }
    var stops := CloseUnderParents(parents.value, used);
    if stops.Failure? {
      return Failure(stops.error);
    }
    return Success(Selection(AgencyIds(routes.value), routes.value, stops.value, trips.value, tripIds, shapeIds,
                             stopTimeCount.value, |points.value|));
  }
}
