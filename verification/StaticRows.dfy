/**
 The rows of a static feed: what is read from each, in what order they are kept, and which row
 a file's error is about.
 */
module StaticRows {
  import opened Wrappers
  import opened Picks

  // ---- Parsed rows; a blank cell is None ----

  datatype Parsed = Blank | Malformed | Number(value: int)

  datatype AgencyRow = AgencyRow(id: Option<string>, name: Option<string>)
  datatype RouteRow = RouteRow(routeType: Option<int>, id: Option<string>, agency: Option<string>)
  datatype TripRow = TripRow(route: Option<string>, id: Option<string>, shape: Option<string>, service: Option<string>,
                             direction: Parsed)
  datatype StopTimeRow = StopTimeRow(trip: Option<string>, stop: Option<string>, sequence: Option<int>,
                                     arrival: Parsed, departure: Parsed)
  datatype ShapeRow = ShapeRow(shape: Option<string>, sequence: Option<int>, lat: Option<real>, lon: Option<real>,
                               distance: Option<Option<real>>)
  datatype StopRow = StopRow(id: Option<string>, coordinatesValid: bool, parent: Option<string>)

  datatype Archive = Archive(
    agencies: seq<AgencyRow>,
    routes: seq<RouteRow>,
    trips: seq<TripRow>,
    stopTimes: seq<StopTimeRow>,
    shapes: seq<ShapeRow>,
    stops: seq<StopRow>)

  datatype Error =
    | MissingField(file: string, line: nat, field: string)
    | InvalidField(file: string, line: nat, field: string)
    | NoAgencies
    | AgencyIdRequired
    | RepeatedAgency(agency: string)
    | RouteWithoutAgency(line: nat)
    | NoBusRoutes
    | MissingAgencies
    | NoTrips
    | NoStopTimes
    | MissingShapes
    | MissingStops
    | MissingParent(stop: string, parent: string)

  type Read<T> = Result<Option<T>, Error>

  // ---- One row ----

  const DEFAULT_AGENCY_ID := "__default_agency__"

  datatype Route = Route(id: string, agency: string, routeType: int)
  datatype Trip = Trip(id: string, route: string, service: string, direction: Option<int>, shape: Option<string>)
  datatype StopTime = StopTime(trip: string, sequence: int, stop: string, arrival: Option<int>, departure: Option<int>)
  datatype ShapePoint = ShapePoint(shape: string, sequence: int, lat: real, lon: real, distance: Option<real>)
  datatype Stop = Stop(id: string, parent: Option<string>)

  predicate IsBusRouteType(t: int) {
    t == 3 || t == 11 || t == 800 || 200 <= t < 210 || 700 <= t < 717
  }

  function LineOf(i: nat): nat {
    i + 2
  }

  function Cell(p: Parsed): Option<int> {
    if p.Number? then Some(p.value) else None
  }

  function ReadAgency(line: nat, row: AgencyRow): Read<Option<string>> {
    if row.name.None? then Failure(MissingField("agency.txt", line, "agency_name"))
    else Success(Some(row.id))
  }

  function ReadRoute(line: nat, row: RouteRow, sole: Option<string>): Read<Route> {
    if row.routeType.None? then Failure(InvalidField("routes.txt", line, "route_type"))
    else if !IsBusRouteType(row.routeType.value) then Success(None)
    else if row.id.None? then Failure(MissingField("routes.txt", line, "route_id"))
    else
      var agency := if row.agency.Some? then row.agency else sole;
      if agency.None? then Failure(RouteWithoutAgency(line))
      else Success(Some(Route(row.id.value, agency.value, row.routeType.value)))
  }

  function ReadTrip(line: nat, row: TripRow, routes: set<string>): Read<Trip> {
    if row.route.None? || row.route.value !in routes then Success(None)
    else if row.id.None? then Failure(MissingField("trips.txt", line, "trip_id"))
    else if row.service.None? then Failure(MissingField("trips.txt", line, "service_id"))
    else if row.direction.Malformed? then Failure(InvalidField("trips.txt", line, "direction_id"))
    else Success(Some(Trip(row.id.value, row.route.value, row.service.value, Cell(row.direction), row.shape)))
  }

  function ReadStopTime(line: nat, row: StopTimeRow, trips: set<string>): Read<StopTime> {
    if row.trip.None? || row.trip.value !in trips then Success(None)
    else if row.stop.None? then Failure(MissingField("stop_times.txt", line, "stop_id"))
    else if row.sequence.None? then Failure(InvalidField("stop_times.txt", line, "stop_sequence"))
    else if row.arrival.Malformed? then Failure(InvalidField("stop_times.txt", line, "arrival_time"))
    else if row.departure.Malformed? then Failure(InvalidField("stop_times.txt", line, "departure_time"))
    else Success(Some(StopTime(row.trip.value, row.sequence.value, row.stop.value, Cell(row.arrival),
                               Cell(row.departure))))
  }

  /** A distance of None is malformed, Some(None) blank. */
  function ReadShapePoint(line: nat, row: ShapeRow, shapes: set<string>): Read<ShapePoint> {
    if row.shape.None? || row.shape.value !in shapes then Success(None)
    else if row.sequence.None? then Failure(InvalidField("shapes.txt", line, "shape_pt_sequence"))
    else if row.lat.None? then Failure(InvalidField("shapes.txt", line, "shape_pt_lat"))
    else if row.lon.None? then Failure(InvalidField("shapes.txt", line, "shape_pt_lon"))
    else if row.distance.None? then Failure(InvalidField("shapes.txt", line, "shape_dist_traveled"))
    else if row.sequence.value < 0 then Failure(InvalidField("shapes.txt", line, "shape_pt_sequence"))
    else if !(-90.0 <= row.lat.value <= 90.0) then Failure(InvalidField("shapes.txt", line, "shape_pt_lat"))
    else if !(-180.0 <= row.lon.value <= 180.0) then Failure(InvalidField("shapes.txt", line, "shape_pt_lon"))
    else if row.distance.value.Some? && row.distance.value.value < 0.0
      then Failure(InvalidField("shapes.txt", line, "shape_dist_traveled"))
    else Success(Some(ShapePoint(row.shape.value, row.sequence.value, row.lat.value, row.lon.value,
                                 row.distance.value)))
  }

  function ReadStop(line: nat, row: StopRow): Read<Stop> {
    if row.id.None? then Failure(MissingField("stops.txt", line, "stop_id"))
    else if !row.coordinatesValid then Failure(InvalidField("stops.txt", line, "coordinates"))
    else Success(Some(Stop(row.id.value, row.parent)))
  }

  // ---- One file ----

  function ReadAgencies(rows: seq<AgencyRow>): seq<Read<Option<string>>> {
    seq(|rows|, i requires 0 <= i < |rows| => ReadAgency(LineOf(i), rows[i]))
  }

  function ReadRoutes(rows: seq<RouteRow>, sole: Option<string>): seq<Read<Route>> {
    seq(|rows|, i requires 0 <= i < |rows| => ReadRoute(LineOf(i), rows[i], sole))
  }

  function ReadTrips(rows: seq<TripRow>, routes: set<string>): seq<Read<Trip>> {
    seq(|rows|, i requires 0 <= i < |rows| => ReadTrip(LineOf(i), rows[i], routes))
  }

  function ReadStopTimes(rows: seq<StopTimeRow>, trips: set<string>): seq<Read<StopTime>> {
    seq(|rows|, i requires 0 <= i < |rows| => ReadStopTime(LineOf(i), rows[i], trips))
  }

  /** Without shapes to look for, the file is not even opened. */
  function ReadShapePoints(rows: seq<ShapeRow>, shapes: set<string>): seq<Read<ShapePoint>> {
    if shapes == {} then []
    else seq(|rows|, i requires 0 <= i < |rows| => ReadShapePoint(LineOf(i), rows[i], shapes))
  }

  function ReadStops(rows: seq<StopRow>): seq<Read<Stop>> {
    seq(|rows|, i requires 0 <= i < |rows| => ReadStop(LineOf(i), rows[i]))
  }

  /** A file's selected rows in order, or the error of its first bad row. */
  function Collected<T>(entries: seq<Read<T>>): Result<seq<T>, Error> {
    if entries == [] then Success([])
    else
      match Collected(entries[..|entries| - 1])
      case Failure(error) => Failure(error)
      case Success(rows) =>
        match entries[|entries| - 1]
        case Failure(error) => Failure(error)
        case Success(None) => Success(rows)
        case Success(Some(row)) => Success(rows + [row])
  }

  lemma {:induction false} FirstErrorDecides<T>(entries: seq<Read<T>>, i: nat)
    requires i <= |entries|
    requires Collected(entries[..i]).Failure?
    ensures Collected(entries) == Collected(entries[..i])
    decreases |entries|
  {
    if i < |entries| {
      assert entries[..|entries| - 1][..i] == entries[..i];
      FirstErrorDecides(entries[..|entries| - 1], i);
    } else {
      assert entries[..i] == entries;
    }
  }

  /** A file is accepted exactly when each row is, and then holds exactly the selected rows. */
  lemma {:induction false} CollectedRows<T>(entries: seq<Read<T>>)
    ensures Collected(entries).Success? <==> forall i | 0 <= i < |entries| :: entries[i].Success?
    ensures Collected(entries).Success? ==>
              forall x :: x in Collected(entries).value <==> Success(Some(x)) in entries
    decreases |entries|
  {
    if entries == [] {
    } else {
      var before, last := entries[..|entries| - 1], entries[|entries| - 1];
      assert entries == before + [last];
      CollectedRows(before);
      assert forall i | 0 <= i < |before| :: before[i] == entries[i];
    }
  }

  /** The rows kept are those that were selected, in the order of the file. */
  lemma {:induction false} CollectedInOrder<T>(entries: seq<Read<T>>) returns (picks: seq<int>)
    requires Collected(entries).Success?
    ensures ArePicks(picks, |entries|, |Collected(entries).value|)
    ensures forall i | 0 <= i < |entries| :: entries[i].Success? && (i in picks <==> entries[i].value.Some?)
    ensures forall k | 0 <= k < |picks| :: entries[picks[k]] == Success(Some(Collected(entries).value[k]))
    decreases |entries|
  {
    picks := [];
    if entries == [] {
    } else {
      var n := |entries| - 1;
      picks := CollectedInOrder(entries[..n]);
      assert forall i | 0 <= i < n :: entries[..n][i] == entries[i];
      if entries[n].value.Some? {
        picks := picks + [n];
      }
    }
  }

  lemma {:induction false} FailureIsFirst<T>(entries: seq<Read<T>>) returns (i: nat)
    requires Collected(entries).Failure?
    ensures i < |entries| && entries[i] == Failure(Collected(entries).error)
    ensures forall j | 0 <= j < i :: entries[j].Success?
    decreases |entries|
  {
    var n := |entries| - 1;
    assert forall j | 0 <= j < n :: entries[..n][j] == entries[j];
    if Collected(entries[..n]).Failure? {
      i := FailureIsFirst(entries[..n]);
    } else {
      i := n;
      CollectedRows(entries[..n]);
    }
  }

  // ---- What the rows become ----

  predicate IsCell(p: Parsed, cell: Option<int>) {
    match p
    case Blank => cell == None
    case Malformed => false
    case Number(n) => cell == Some(n)
  }

  predicate WantsRoute(row: RouteRow) {
    row.routeType.Some? && (row.routeType.value in {3, 11, 800} || 200 <= row.routeType.value <= 209 ||
                            700 <= row.routeType.value <= 716)
  }

  /** The route of a row; without an agency of its own it belongs to the only one there is. */
  predicate IsRouteOf(row: RouteRow, sole: Option<string>, route: Route) {
    && row.id == Some(route.id) && row.routeType == Some(route.routeType)
    && Some(route.agency) == if row.agency.Some? then row.agency else sole
  }

  /** In order, one route for each row of a bus route; every row has a type. */
  ghost predicate AreRoutesOf(rows: seq<RouteRow>, sole: Option<string>, routes: seq<Route>) {
    && (forall row | row in rows :: row.routeType.Some?)
    && exists picks :: ArePicks(picks, |rows|, |routes|) &&
         (forall i | 0 <= i < |rows| :: i in picks <==> WantsRoute(rows[i])) &&
         forall k | 0 <= k < |routes| :: IsRouteOf(rows[picks[k]], sole, routes[k])
  }

  predicate IsRouteFault(row: RouteRow, sole: Option<string>, i: nat, e: Error) {
    || (row.routeType.None? && e == InvalidField("routes.txt", i + 2, "route_type"))
    || (WantsRoute(row) && row.id.None? && e == MissingField("routes.txt", i + 2, "route_id"))
    || (WantsRoute(row) && row.agency.None? && sole.None? && e == RouteWithoutAgency(i + 2))
  }

  ghost predicate TellsRoute(entry: Read<Route>, i: nat, row: RouteRow, sole: Option<string>) {
    match entry
    case Failure(e) => IsRouteFault(row, sole, i, e)
    case Success(found) =>
      && (forall e :: !IsRouteFault(row, sole, i, e))
      && (found.Some? <==> WantsRoute(row)) && (found.Some? ==> IsRouteOf(row, sole, found.value))
  }

  lemma RouteIsRead(i: nat, row: RouteRow, sole: Option<string>)
    ensures TellsRoute(ReadRoute(i + 2, row, sole), i, row, sole)
  {}

  lemma RoutesAreRead(rows: seq<RouteRow>, sole: Option<string>)
    ensures match Collected(ReadRoutes(rows, sole))
            case Success(routes) => AreRoutesOf(rows, sole, routes)
            case Failure(e) => exists i: nat :: i < |rows| && IsRouteFault(rows[i], sole, i, e) &&
                                 forall j: nat, other | j < i :: !IsRouteFault(rows[j], sole, j, other)
  {
    var entries := ReadRoutes(rows, sole);
    forall i: nat | i < |entries|
      ensures TellsRoute(entries[i], i, rows[i], sole)
    {
      RouteIsRead(i, rows[i], sole);
    }
    if Collected(entries).Success? {
      var picks := CollectedInOrder(entries);
    } else {
      var i := FailureIsFirst(entries);
    }
  }

  predicate WantsTrip(row: TripRow, routes: set<string>) {
    row.route.Some? && row.route.value in routes
  }

  predicate IsTripOf(row: TripRow, trip: Trip) {
    && row.id == Some(trip.id) && row.route == Some(trip.route) && row.service == Some(trip.service)
    && IsCell(row.direction, trip.direction) && trip.shape == row.shape
  }

  /** In order, one trip for each row on one of the routes. */
  ghost predicate AreTripsOf(rows: seq<TripRow>, routes: set<string>, trips: seq<Trip>) {
    exists picks :: ArePicks(picks, |rows|, |trips|) &&
      (forall i | 0 <= i < |rows| :: i in picks <==> WantsTrip(rows[i], routes)) &&
      forall k | 0 <= k < |trips| :: IsTripOf(rows[picks[k]], trips[k])
  }

  predicate IsTripFault(row: TripRow, routes: set<string>, i: nat, e: Error) {
    && WantsTrip(row, routes)
    && (|| (row.id.None? && e == MissingField("trips.txt", i + 2, "trip_id"))
        || (row.service.None? && e == MissingField("trips.txt", i + 2, "service_id"))
        || (row.direction.Malformed? && e == InvalidField("trips.txt", i + 2, "direction_id")))
  }

  ghost predicate TellsTrip(entry: Read<Trip>, i: nat, row: TripRow, routes: set<string>) {
    match entry
    case Failure(e) => IsTripFault(row, routes, i, e)
    case Success(found) =>
      && (forall e :: !IsTripFault(row, routes, i, e))
      && (found.Some? <==> WantsTrip(row, routes)) && (found.Some? ==> IsTripOf(row, found.value))
  }

  lemma TripIsRead(i: nat, row: TripRow, routes: set<string>)
    ensures TellsTrip(ReadTrip(i + 2, row, routes), i, row, routes)
  {}

  lemma TripsAreRead(rows: seq<TripRow>, routes: set<string>)
    ensures match Collected(ReadTrips(rows, routes))
            case Success(trips) => AreTripsOf(rows, routes, trips)
            case Failure(e) => exists i: nat :: i < |rows| && IsTripFault(rows[i], routes, i, e) &&
                                 forall j: nat, other | j < i :: !IsTripFault(rows[j], routes, j, other)
  {
    var entries := ReadTrips(rows, routes);
    forall i: nat | i < |entries|
      ensures TellsTrip(entries[i], i, rows[i], routes)
    {
      TripIsRead(i, rows[i], routes);
    }
    if Collected(entries).Success? {
      var picks := CollectedInOrder(entries);
    } else {
      var i := FailureIsFirst(entries);
    }
  }

  predicate WantsStopTime(row: StopTimeRow, trips: set<string>) {
    row.trip.Some? && row.trip.value in trips
  }

  predicate IsStopTimeOf(row: StopTimeRow, x: StopTime) {
    && row.trip == Some(x.trip) && row.sequence == Some(x.sequence) && row.stop == Some(x.stop)
    && IsCell(row.arrival, x.arrival) && IsCell(row.departure, x.departure)
  }

  /** In order, one stop time for each row of one of the trips. */
  ghost predicate AreStopTimesOf(rows: seq<StopTimeRow>, trips: set<string>, stopTimes: seq<StopTime>) {
    exists picks :: ArePicks(picks, |rows|, |stopTimes|) &&
      (forall i | 0 <= i < |rows| :: i in picks <==> WantsStopTime(rows[i], trips)) &&
      forall k | 0 <= k < |stopTimes| :: IsStopTimeOf(rows[picks[k]], stopTimes[k])
  }

  predicate IsStopTimeFault(row: StopTimeRow, trips: set<string>, i: nat, e: Error) {
    && WantsStopTime(row, trips)
    && (|| (row.stop.None? && e == MissingField("stop_times.txt", i + 2, "stop_id"))
        || (row.sequence.None? && e == InvalidField("stop_times.txt", i + 2, "stop_sequence"))
        || (row.arrival.Malformed? && e == InvalidField("stop_times.txt", i + 2, "arrival_time"))
        || (row.departure.Malformed? && e == InvalidField("stop_times.txt", i + 2, "departure_time")))
  }

  /** The error is about the first faulty row. */
  ghost predicate IsFirstStopTimeFault(rows: seq<StopTimeRow>, trips: set<string>, e: Error) {
    exists i: nat :: i < |rows| && IsStopTimeFault(rows[i], trips, i, e) &&
      forall j: nat, other | j < i :: !IsStopTimeFault(rows[j], trips, j, other)
  }

  ghost predicate TellsStopTime(entry: Read<StopTime>, i: nat, row: StopTimeRow, trips: set<string>) {
    match entry
    case Failure(e) => IsStopTimeFault(row, trips, i, e)
    case Success(found) =>
      && (forall e :: !IsStopTimeFault(row, trips, i, e))
      && (found.Some? <==> WantsStopTime(row, trips)) && (found.Some? ==> IsStopTimeOf(row, found.value))
  }

  lemma StopTimeIsRead(i: nat, row: StopTimeRow, trips: set<string>)
    ensures TellsStopTime(ReadStopTime(i + 2, row, trips), i, row, trips)
  {}

  lemma StopTimesAreRead(rows: seq<StopTimeRow>, trips: set<string>)
    ensures match Collected(ReadStopTimes(rows, trips))
            case Success(stopTimes) => AreStopTimesOf(rows, trips, stopTimes)
            case Failure(e) => IsFirstStopTimeFault(rows, trips, e)
  {
    var entries := ReadStopTimes(rows, trips);
    forall i: nat | i < |entries|
      ensures TellsStopTime(entries[i], i, rows[i], trips)
    {
      StopTimeIsRead(i, rows[i], trips);
    }
    if Collected(entries).Success? {
      var picks := CollectedInOrder(entries);
    } else {
      var i := FailureIsFirst(entries);
    }
  }

  predicate WantsShapePoint(row: ShapeRow, shapes: set<string>) {
    row.shape.Some? && row.shape.value in shapes
  }

  predicate IsShapePointOf(row: ShapeRow, p: ShapePoint) {
    && row.shape == Some(p.shape) && row.sequence == Some(p.sequence)
    && row.lat == Some(p.lat) && row.lon == Some(p.lon) && row.distance == Some(p.distance)
    && p.sequence >= 0 && -90.0 <= p.lat <= 90.0 && -180.0 <= p.lon <= 180.0
    && (p.distance.Some? ==> p.distance.value >= 0.0)
  }

  /** In order, one point for each row of one of the shapes. */
  ghost predicate AreShapePointsOf(rows: seq<ShapeRow>, shapes: set<string>, points: seq<ShapePoint>) {
    exists picks :: ArePicks(picks, |rows|, |points|) &&
      (forall i | 0 <= i < |rows| :: i in picks <==> WantsShapePoint(rows[i], shapes)) &&
      forall k | 0 <= k < |points| :: IsShapePointOf(rows[picks[k]], points[k])
  }

  predicate IsShapePointFault(row: ShapeRow, shapes: set<string>, i: nat, e: Error) {
    && WantsShapePoint(row, shapes)
    && e.InvalidField? && e.file == "shapes.txt" && e.line == i + 2
    && match e.field
       case "shape_pt_sequence" => row.sequence.None? || row.sequence.value < 0
       case "shape_pt_lat" => row.lat.None? || !(-90.0 <= row.lat.value <= 90.0)
       case "shape_pt_lon" => row.lon.None? || !(-180.0 <= row.lon.value <= 180.0)
       case "shape_dist_traveled" =>
         row.distance.None? || (row.distance.value.Some? && row.distance.value.value < 0.0)
       case _ => false
  }

  ghost predicate IsFirstShapePointFault(rows: seq<ShapeRow>, shapes: set<string>, e: Error) {
    exists i: nat :: i < |rows| && IsShapePointFault(rows[i], shapes, i, e) &&
      forall j: nat, other | j < i :: !IsShapePointFault(rows[j], shapes, j, other)
  }

  ghost predicate TellsShapePoint(entry: Read<ShapePoint>, i: nat, row: ShapeRow, shapes: set<string>) {
    match entry
    case Failure(e) => IsShapePointFault(row, shapes, i, e)
    case Success(found) =>
      && (forall e :: !IsShapePointFault(row, shapes, i, e))
      && (found.Some? <==> WantsShapePoint(row, shapes)) && (found.Some? ==> IsShapePointOf(row, found.value))
  }

  lemma ShapePointIsRead(i: nat, row: ShapeRow, shapes: set<string>)
    ensures TellsShapePoint(ReadShapePoint(i + 2, row, shapes), i, row, shapes)
  {}

  lemma ShapePointsAreRead(rows: seq<ShapeRow>, shapes: set<string>)
    ensures match Collected(ReadShapePoints(rows, shapes))
            case Success(points) => AreShapePointsOf(rows, shapes, points)
            case Failure(e) => IsFirstShapePointFault(rows, shapes, e)
  {
    var entries := ReadShapePoints(rows, shapes);
    forall i: nat | i < |entries|
      ensures TellsShapePoint(entries[i], i, rows[i], shapes)
    {
      ShapePointIsRead(i, rows[i], shapes);
    }
    if shapes == {} {
      assert ArePicks([], |rows|, 0);
    } else if Collected(entries).Success? {
      var picks := CollectedInOrder(entries);
    } else {
      var i := FailureIsFirst(entries);
    }
  }
}
