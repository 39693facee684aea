/**
 Snapping stations to track vertices: a search over growing rings of grid cells,
 standing in for a scan of all vertices.
 */
module NearestVertex {
  import opened Wrappers
  import opened Plane

  const CELL_SIZE := 2000.0
  const STATION_VERTEX_MAX_METERS := 4000.0
  const RINGS: nat := 8

  datatype Cell = Cell(i: int, j: int)

  function CellOf(p: Point): Cell {
    Cell((p.x / CELL_SIZE).Floor, (p.y / CELL_SIZE).Floor)
  }

  /** Cells are two kilometres wide. */
  lemma CellSpans(p: Point)
    ensures var c := CellOf(p);
            && c.i as real * 2000.0 <= p.x < (c.i + 1) as real * 2000.0
            && c.j as real * 2000.0 <= p.y < (c.j + 1) as real * 2000.0
  {
    assert (p.x / CELL_SIZE).Floor as real <= p.x / CELL_SIZE < (p.x / CELL_SIZE).Floor as real + 1.0;
    assert (p.y / CELL_SIZE).Floor as real <= p.y / CELL_SIZE < (p.y / CELL_SIZE).Floor as real + 1.0;
  }

  function Abs(k: int): nat {
    if k < 0 then -k else k
  }

  /** How many rings of cells lie between two cells. */
  function Ring(c: Cell, d: Cell): nat {
    var di, dj := Abs(d.i - c.i), Abs(d.j - c.j);
    if di < dj then dj else di
  }

  function Square(r: real): real {
    r * r
  }

  // ---- The grid ----

  /** The vertices of one cell, in the order they were given. */
  function InCell(vertices: seq<Point>, c: Cell): seq<Point> {
    if vertices == [] then []
    else
      var rest := InCell(vertices[..|vertices| - 1], c);
      var last := vertices[|vertices| - 1];
      if CellOf(last) == c then rest + [last] else rest
  }

  lemma {:induction false} InCellMembers(vertices: seq<Point>, c: Cell, v: Point)
    ensures v in InCell(vertices, c) <==> v in vertices && CellOf(v) == c
    decreases |vertices|
  {
    if vertices == [] {
    } else {
      InCellMembers(vertices[..|vertices| - 1], c, v);
      assert vertices == vertices[..|vertices| - 1] + [vertices[|vertices| - 1]];
    }
  }

  ghost predicate IsIndex(vertices: seq<Point>, grid: map<Cell, seq<Point>>) {
    forall c :: (if c in grid then grid[c] else []) == InCell(vertices, c)
  }

  method BuildVertexSpatialIndex(vertices: seq<Point>) returns (grid: map<Cell, seq<Point>>)
    ensures IsIndex(vertices, grid)
  {
    grid := map[];
    for k := 0 to |vertices|
      invariant IsIndex(vertices[..k], grid)
    {
      var c := CellOf(vertices[k]);
      assert vertices[..k + 1][..k] == vertices[..k];
      grid := grid[c := (if c in grid then grid[c] else []) + [vertices[k]]];
    }
    assert vertices[..|vertices|] == vertices;
  }

  // ---- What the ring search answers ----

  /** best is a nearest of the vertices in s. */
  ghost predicate Nearest(p: Point, s: iset<Point>, best: Option<Point>) {
    match best
    case None => s == iset{}
    case Some(b) => b in s && forall v | v in s :: SqDist(p, b) <= SqDist(p, v)
  }

  ghost function Listed(vertices: seq<Point>): iset<Point> {
    iset v | v in vertices
  }

  /** The vertices in rings 0 to r - 1 around p. */
  ghost function Seen(p: Point, vertices: seq<Point>, r: nat): iset<Point> {
    iset v | v in vertices && Ring(CellOf(p), CellOf(v)) < r
  }

  /** Ring r holds a vertex, and some vertex of rings 0 to r is within r + 1 cells. */
  ghost predicate Settles(p: Point, vertices: seq<Point>, r: nat) {
    && (exists v :: v in vertices && Ring(CellOf(p), CellOf(v)) == r)
    && (exists v :: v in Seen(p, vertices, r + 1) && SqDist(p, v) <= Square((r + 1) as real * CELL_SIZE))
  }

  /** The search stopped at ring r, or ran out of rings when r is RINGS. */
  ghost predicate StopsAt(p: Point, vertices: seq<Point>, r: nat) {
    && r <= RINGS && (r < RINGS ==> Settles(p, vertices, r))
    && forall q: nat | q < r :: !Settles(p, vertices, q)
  }

  /** The vertices the search looked at when it ended at r. */
  ghost function Examined(p: Point, vertices: seq<Point>, r: nat): iset<Point> {
    if r < RINGS then Seen(p, vertices, r + 1)
    else if Seen(p, vertices, RINGS) == iset{} then Listed(vertices)
    else Seen(p, vertices, RINGS)
  }

  /** At most eight rings are looked at, up to the one that settles; all vertices if the eight are empty. */
  lemma ExaminesEightRings(p: Point, vertices: seq<Point>, stop: nat, v: Point)
    requires StopsAt(p, vertices, stop)
    ensures stop <= 8
    ensures v in Examined(p, vertices, stop) <==>
            && v in vertices
            && (|| Ring(CellOf(p), CellOf(v)) <= (if stop < 8 then stop else 7)
                || (stop == 8 && forall w | w in vertices :: Ring(CellOf(p), CellOf(w)) >= 8))
  {
    if stop == 8 {
      assert Seen(p, vertices, 8) == iset{} <==> forall w | w in vertices :: Ring(CellOf(p), CellOf(w)) >= 8 by {
        if w :| w in vertices && Ring(CellOf(p), CellOf(w)) < 8 {
          assert w in Seen(p, vertices, 8);
        }
      }
    }
  }

  // ---- The search ----

  ghost predicate NoFarther(p: Point, best: Option<Point>, v: Point) {
    best.Some? && SqDist(p, best.value) <= SqDist(p, v)
  }

  /** best' is best, or one of the listed points that is strictly closer. */
  ghost predicate Improves(p: Point, coords: seq<Point>, best: Option<Point>, best': Option<Point>) {
    || best' == best
    || (best'.Some? && best'.value in coords && (best.Some? ==> SqDist(p, best'.value) < SqDist(p, best.value)))
  }

  /** Keeps the nearest point while a list is read. */
  method Scan(p: Point, coords: seq<Point>, best: Option<Point>) returns (best': Option<Point>)
    ensures Improves(p, coords, best, best')
    ensures forall v | v in coords :: NoFarther(p, best', v)
  {
    best' := best;
    for k := 0 to |coords|
      invariant Improves(p, coords, best, best')
      invariant forall i | 0 <= i < k :: NoFarther(p, best', coords[i])
    {
      if best'.None? || SqDist(p, coords[k]) < SqDist(p, best'.value) {
        best' := Some(coords[k]);
      }
    }
  }

  ghost predicate InColumn(p: Point, v: Point, ring: nat, dx: int, dyEnd: int) {
    var c, d := CellOf(p), CellOf(v);
    Ring(c, d) == ring && d.i - c.i == dx && d.j - c.j < dyEnd
  }

  /** The part of ring r in columns before dxEnd. */
  ghost predicate InRing(p: Point, v: Point, ring: nat, dxEnd: int) {
    Ring(CellOf(p), CellOf(v)) == ring && CellOf(v).i - CellOf(p).i < dxEnd
  }

  /** best' is best or a closer vertex of ring r. */
  ghost predicate ImprovesInRing(p: Point, vertices: seq<Point>, ring: nat, best: Option<Point>, best': Option<Point>) {
    || best' == best
    || (&& best'.Some? && best'.value in vertices && Ring(CellOf(p), CellOf(best'.value)) == ring
        && (best.Some? ==> SqDist(p, best'.value) < SqDist(p, best.value)))
  }

  method ScanColumn(p: Point, ghost vertices: seq<Point>, grid: map<Cell, seq<Point>>, ring: nat, dx: int,
                    best: Option<Point>, found: bool)
    returns (best': Option<Point>, found': bool)
    requires IsIndex(vertices, grid) && Abs(dx) <= ring
    ensures ImprovesInRing(p, vertices, ring, best, best')
    ensures forall v | v in vertices && InColumn(p, v, ring, dx, ring + 1) :: NoFarther(p, best', v)
    ensures found' <==> found || exists v :: v in vertices && InColumn(p, v, ring, dx, ring + 1)
  {
    var center := CellOf(p);
    best', found' := best, found;
    for dy: int := -(ring as int) to ring + 1
      invariant ImprovesInRing(p, vertices, ring, best, best')
      invariant forall v | v in vertices && InColumn(p, v, ring, dx, dy) :: NoFarther(p, best', v)
      invariant found' <==> found || exists v :: v in vertices && InColumn(p, v, ring, dx, dy)
    {
      var coords := [];
      if !(ring > 0 && Abs(dx) != ring && Abs(dy) != ring) {
        var cell := Cell(center.i + dx, center.j + dy);
        coords := if cell in grid then grid[cell] else [];
      }
      ColumnGrows(p, vertices, grid, ring, dx, dy, coords);
      best' := Scan(p, coords, best');
      if coords != [] {
        assert coords[0] in coords;
        found' := true;
      }
    }
  }

  /** The next cell of a column holds exactly the vertices that extend it. */
  lemma ColumnGrows(p: Point, vertices: seq<Point>, grid: map<Cell, seq<Point>>, ring: nat, dx: int, dy: int,
                    coords: seq<Point>)
    requires IsIndex(vertices, grid) && Abs(dx) <= ring && Abs(dy) <= ring
    requires var cell := Cell(CellOf(p).i + dx, CellOf(p).j + dy);
             coords == if ring > 0 && Abs(dx) != ring && Abs(dy) != ring then []
                       else if cell in grid then grid[cell] else []
    ensures forall v :: v in vertices && InColumn(p, v, ring, dx, dy + 1) <==>
                        v in coords || (v in vertices && InColumn(p, v, ring, dx, dy))
    ensures forall v | v in coords :: v in vertices && Ring(CellOf(p), CellOf(v)) == ring
  {
    var cell := Cell(CellOf(p).i + dx, CellOf(p).j + dy);
    forall v
      ensures v in vertices && InColumn(p, v, ring, dx, dy + 1) <==>
              v in coords || (v in vertices && InColumn(p, v, ring, dx, dy))
      ensures v in coords ==> v in vertices && Ring(CellOf(p), CellOf(v)) == ring
    {
      InCellMembers(vertices, cell, v);
    }
  }

  lemma RingGrows(p: Point, v: Point, ring: nat, dx: int)
    ensures InRing(p, v, ring, dx + 1) <==> InRing(p, v, ring, dx) || InColumn(p, v, ring, dx, ring + 1)
    ensures InRing(p, v, ring, ring + 1) <==> Ring(CellOf(p), CellOf(v)) == ring
    ensures !InRing(p, v, ring, -(ring as int))
  {}

  method ScanRing(p: Point, ghost vertices: seq<Point>, grid: map<Cell, seq<Point>>, ring: nat, best: Option<Point>)
    returns (best': Option<Point>, found: bool)
    requires IsIndex(vertices, grid)
    ensures ImprovesInRing(p, vertices, ring, best, best')
    ensures forall v | v in vertices && Ring(CellOf(p), CellOf(v)) == ring :: NoFarther(p, best', v)
    ensures found <==> exists v :: v in vertices && Ring(CellOf(p), CellOf(v)) == ring
  {
    best', found := best, false;
    for dx: int := -(ring as int) to ring + 1
      invariant ImprovesInRing(p, vertices, ring, best, best')
      invariant forall v | v in vertices && InRing(p, v, ring, dx) :: NoFarther(p, best', v)
      invariant found <==> exists v :: v in vertices && InRing(p, v, ring, dx)
    {
      best', found := ScanColumn(p, vertices, grid, ring, dx, best', found);
      forall v
        ensures InRing(p, v, ring, dx + 1) <==> InRing(p, v, ring, dx) || InColumn(p, v, ring, dx, ring + 1)
      {
        RingGrows(p, v, ring, dx);
      }
    }
    forall v
      ensures InRing(p, v, ring, ring + 1) <==> Ring(CellOf(p), CellOf(v)) == ring
    {
      RingGrows(p, v, ring, 0);
    }
  }

  lemma SeenGrows(p: Point, vertices: seq<Point>, ring: nat, best: Option<Point>, best': Option<Point>)
    requires Nearest(p, Seen(p, vertices, ring), best) && ImprovesInRing(p, vertices, ring, best, best')
    requires forall v | v in vertices && Ring(CellOf(p), CellOf(v)) == ring :: NoFarther(p, best', v)
    ensures Nearest(p, Seen(p, vertices, ring + 1), best')
  {
    forall v | v in Seen(p, vertices, ring + 1)
      ensures NoFarther(p, best', v)
    {
      if Ring(CellOf(p), CellOf(v)) != ring {
        assert v in Seen(p, vertices, ring);
      }
    }
    if best'.None? {
      assert Seen(p, vertices, ring + 1) <= iset{};
    } else {
      assert best' == best ==> best.value in Seen(p, vertices, ring);
      assert best'.value in Seen(p, vertices, ring + 1);
      forall v | v in Seen(p, vertices, ring + 1)
        ensures SqDist(p, best'.value) <= SqDist(p, v)
      {
        assert NoFarther(p, best', v);
      }
    }
  }

  lemma SettlesWhen(p: Point, vertices: seq<Point>, ring: nat, best: Option<Point>)
    requires Nearest(p, Seen(p, vertices, ring + 1), best)
    ensures Settles(p, vertices, ring) <==>
            && (exists v :: v in vertices && Ring(CellOf(p), CellOf(v)) == ring)
            && best.Some? && SqDist(p, best.value) <= Square((ring + 1) as real * CELL_SIZE)
  {}

  // ---- Rings and distances ----

  lemma AxisFar(a: real, b: real, k: nat)
    requires (b / CELL_SIZE).Floor - (a / CELL_SIZE).Floor > k
    ensures b - a > k as real * CELL_SIZE
  {
    assert b / CELL_SIZE >= (b / CELL_SIZE).Floor as real;
    assert a / CELL_SIZE < (a / CELL_SIZE).Floor as real + 1.0;
  }

  lemma AxisSquareFar(a: real, b: real, k: nat)
    requires Abs((b / CELL_SIZE).Floor - (a / CELL_SIZE).Floor) > k
    ensures (a - b) * (a - b) > Square(k as real * CELL_SIZE)
  {
    if (b / CELL_SIZE).Floor > (a / CELL_SIZE).Floor {
      AxisFar(a, b, k);
      SquareGrows(k as real * CELL_SIZE, b - a);
      assert a - b == -(b - a);
    } else {
      AxisFar(b, a, k);
      SquareGrows(k as real * CELL_SIZE, a - b);
    }
  }

  lemma FarColumn(p: Point, v: Point, k: nat)
    requires Abs(CellOf(v).i - CellOf(p).i) > k
    ensures SqDist(p, v) > Square(k as real * CELL_SIZE)
  {
    SqDistOnAxes(p, v);
    AxisSquareFar(p.x, v.x, k);
  }

  lemma FarRow(p: Point, v: Point, k: nat)
    requires Abs(CellOf(v).j - CellOf(p).j) > k
    ensures SqDist(p, v) > Square(k as real * CELL_SIZE)
  {
    SqDistOnAxes(p, v);
    AxisSquareFar(p.y, v.y, k);
  }

  /** A vertex more than k rings away is more than k cells away. */
  lemma FarRing(p: Point, v: Point, k: nat)
    requires Ring(CellOf(p), CellOf(v)) > k
    ensures SqDist(p, v) > Square(k as real * CELL_SIZE)
  {
    if Abs(CellOf(v).i - CellOf(p).i) > k {
      FarColumn(p, v, k);
    } else {
      FarRow(p, v, k);
    }
  }

  lemma AxisNear(a: real, b: real, k: nat)
    requires (b / CELL_SIZE).Floor - (a / CELL_SIZE).Floor <= k
    ensures b - a < (k + 1) as real * CELL_SIZE
  {
    assert b / CELL_SIZE < (b / CELL_SIZE).Floor as real + 1.0;
    assert a / CELL_SIZE >= (a / CELL_SIZE).Floor as real;
  }

  lemma WithinSquare(d: real, r: real)
    requires -r < d < r
    ensures d * d <= Square(r)
  {
    assert (r - d) * (r + d) >= 0.0;
    assert (r - d) * (r + d) == r * r - d * d;
  }

  lemma AxisSquareNear(a: real, b: real)
    requires Abs((b / CELL_SIZE).Floor - (a / CELL_SIZE).Floor) < RINGS
    ensures (a - b) * (a - b) <= Square(8.0 * CELL_SIZE)
  {
    AxisNear(a, b, RINGS - 1);
    AxisNear(b, a, RINGS - 1);
    WithinSquare(a - b, 8.0 * CELL_SIZE);
  }

  /** A vertex of the eight rings is less than 12 cells away. */
  lemma NearRing(p: Point, v: Point)
    requires Ring(CellOf(p), CellOf(v)) < RINGS
    ensures SqDist(p, v) < Square(12.0 * CELL_SIZE)
  {
    AxisSquareNear(p.x, v.x);
    AxisSquareNear(p.y, v.y);
    SqDistWithin(p, v, Square(8.0 * CELL_SIZE));
    EightByEight();
  }

  lemma EightByEight()
    ensures Square(8.0 * CELL_SIZE) + Square(8.0 * CELL_SIZE) < Square(12.0 * CELL_SIZE)
  {}

  // ---- What the search gets right ----

  ghost predicate Answers(p: Point, vertices: seq<Point>, stop: nat, best: Option<Point>) {
    StopsAt(p, vertices, stop) && Nearest(p, Examined(p, vertices, stop), best)
  }

  predicate Close(p: Point, v: Point) {
    SqDist(p, v) <= Square(STATION_VERTEX_MAX_METERS)
  }

  ghost predicate HasNearVertex(p: Point, vertices: seq<Point>) {
    exists v :: v in vertices && Close(p, v)
  }

  lemma EarlyStopIsClose(stop: nat)
    requires stop < 2
    ensures Square((stop + 1) as real * CELL_SIZE) <= Square(STATION_VERTEX_MAX_METERS)
  {}

  lemma CloseIsNearby(p: Point, v: Point)
    requires Close(p, v)
    ensures Ring(CellOf(p), CellOf(v)) <= 2
  {
    if Ring(CellOf(p), CellOf(v)) > 2 {
      FarRing(p, v, 2);
    }
  }

  /** The snapping decision is exactly that of a scan of all vertices. */
  lemma SnapsExactly(p: Point, vertices: seq<Point>, stop: nat, best: Option<Point>)
    requires Answers(p, vertices, stop, best)
    ensures (best.Some? && best.value in vertices && Close(p, best.value)) <==> HasNearVertex(p, vertices)
  {
    if v :| v in vertices && Close(p, v) {
      CloseIsNearby(p, v);
      if stop < 2 {
        var w :| w in Seen(p, vertices, stop + 1) && SqDist(p, w) <= Square((stop + 1) as real * CELL_SIZE);
        EarlyStopIsClose(stop);
      } else {
        assert v in Examined(p, vertices, stop);
      }
    }
  }

  /**
   When the search stops at ring r its answer is at most r + 1 cells away, and every
   vertex it did not look at is more than r cells away.
   */
  lemma StopBounds(p: Point, vertices: seq<Point>, stop: nat, best: Option<Point>, v: Point)
    requires Answers(p, vertices, stop, best) && stop < RINGS && v in vertices
    ensures best.Some? && SqDist(p, best.value) <= Square((stop + 1) as real * CELL_SIZE)
    ensures v in Examined(p, vertices, stop) || SqDist(p, v) > Square(stop as real * CELL_SIZE)
  {
    var w :| w in Seen(p, vertices, stop + 1) && SqDist(p, w) <= Square((stop + 1) as real * CELL_SIZE);
    if v !in Examined(p, vertices, stop) {
      FarRing(p, v, stop);
    }
  }

  /** The last ring that can hold a vertex closer than all examined ones. */
  function LastDoubtfulRing(stop: nat): nat {
    if stop < RINGS then stop + 1 else 12
  }

  /** An unexamined vertex near enough to be closer than all examined ones. */
  ghost predicate IsDoubtful(p: Point, vertices: seq<Point>, stop: nat, v: Point) {
    v in vertices && v !in Examined(p, vertices, stop) && Ring(CellOf(p), CellOf(v)) <= LastDoubtfulRing(stop)
  }

  /** An examined vertex is at least as close as v. */
  ghost predicate IsMatched(p: Point, vertices: seq<Point>, stop: nat, v: Point) {
    exists u :: u in Examined(p, vertices, stop) && SqDist(p, u) <= SqDist(p, v)
  }

  /**
   The answer need not be the nearest vertex. It is, if and only if each doubtful vertex
   has its match among the examined ones: when the search stops early, the
   vertices of one more ring decide.
   */
  lemma ExactWhen(p: Point, vertices: seq<Point>, stop: nat, best: Option<Point>)
    requires Answers(p, vertices, stop, best)
    ensures vertices != [] ==> best.Some?
    ensures Nearest(p, Listed(vertices), best) <==>
            forall v | IsDoubtful(p, vertices, stop, v) :: IsMatched(p, vertices, stop, v)
  {
    if Nearest(p, Listed(vertices), best) {
      forall v | v in vertices
        ensures best.Some? && IsMatched(p, vertices, stop, v)
      {
        assert v in Listed(vertices);
      }
      assert vertices != [] ==> vertices[0] in vertices;
    } else {
      assert best.Some? && best.value in Listed(vertices);
      var v :| v in Listed(vertices) && SqDist(p, v) < SqDist(p, best.value);
      if stop < RINGS {
        StopBounds(p, vertices, stop, best, best.value);
      } else {
        NearRing(p, best.value);
      }
      if Ring(CellOf(p), CellOf(v)) > LastDoubtfulRing(stop) {
        FarRing(p, v, LastDoubtfulRing(stop));
      }
      assert IsDoubtful(p, vertices, stop, v) && !IsMatched(p, vertices, stop, v);
    }
  }

  /** A vertex 1800 m away in the same cell hides one 101 m away across the cell border. */
  lemma NotAlwaysNearest()
    ensures var p, far, near := Point(1900.0, 1000.0), Point(100.0, 1000.0), Point(2001.0, 1000.0);
            Answers(p, [far, near], 0, Some(far)) && SqDist(p, near) < SqDist(p, far)
  {
    var p, far, near := Point(1900.0, 1000.0), Point(100.0, 1000.0), Point(2001.0, 1000.0);
    assert CellOf(p) == Cell(0, 0) == CellOf(far);
    assert CellOf(near) == Cell(1, 0);
    assert far in [far, near] && far in Seen(p, [far, near], 1);
  }

  method FindNearestVertex(p: Point, vertices: seq<Point>, grid: map<Cell, seq<Point>>)
    returns (best: Option<Point>, ghost stop: nat)
    requires IsIndex(vertices, grid)
    ensures Answers(p, vertices, stop, best)
    ensures best.Some? ==> best.value in vertices
    ensures best.Some? && Close(p, best.value) <==> HasNearVertex(p, vertices)
  {
    best, stop := None, 0;
    var ring := 0;
    while ring < RINGS
      invariant ring <= RINGS
      invariant Nearest(p, Seen(p, vertices, ring), best)
      invariant forall q: nat | q < ring :: !Settles(p, vertices, q)
    {
      ghost var was := best;
      var found;
      best, found := ScanRing(p, vertices, grid, ring, best);
      SeenGrows(p, vertices, ring, was, best);
      SettlesWhen(p, vertices, ring, best);
      if found && best.Some? && SqDist(p, best.value) <= Square((ring + 1) as real * CELL_SIZE) {
        stop := ring;
        SnapsExactly(p, vertices, stop, best);
        return;
      }
      ring := ring + 1;
    }
    stop := RINGS;
    if best.None? {
      best := Scan(p, vertices, None);
      if vertices != [] {
        assert vertices[0] in vertices;
      }
    }
    SnapsExactly(p, vertices, stop, best);
  }

  datatype Station = Station(code: string, projected: Point)

  /** What the mapping takes from the search at p: its answer, or nothing when no vertex is near. */
  ghost predicate IsAccepted(p: Point, vertices: seq<Point>, answer: Option<Point>) {
    match answer
    case None => !HasNearVertex(p, vertices)
    case Some(v) => Close(p, v) && exists stop :: Answers(p, vertices, stop, answer)
  }

  /** Each code maps to the last answer taken for one of its stations. */
  function Mapped(stations: seq<Station>, answers: seq<Option<Point>>): map<string, Point>
    requires |answers| == |stations|
  {
    if stations == [] then map[]
    else
      var n := |stations| - 1;
      var before := Mapped(stations[..n], answers[..n]);
      if answers[n].Some? then before[stations[n].code := answers[n].value] else before
  }

  lemma {:induction false} MappedIsLast(stations: seq<Station>, answers: seq<Option<Point>>, code: string)
    returns (k: nat)
    requires |answers| == |stations| && code in Mapped(stations, answers)
    ensures k < |stations| && stations[k].code == code && answers[k] == Some(Mapped(stations, answers)[code])
    ensures forall j | k < j < |stations| && stations[j].code == code :: answers[j].None?
    decreases |stations|
  {
    k := |stations| - 1;
    if answers[k].Some? && stations[k].code == code {
    } else {
      k := MappedIsLast(stations[..k], answers[..k], code);
    }
  }

  lemma AcceptedIsNear(p: Point, vertices: seq<Point>, answer: Option<Point>)
    requires IsAccepted(p, vertices, answer)
    ensures answer.Some? <==> HasNearVertex(p, vertices)
    ensures answer.Some? ==> answer.value in vertices && Close(p, answer.value)
  {}

  lemma {:induction false} AnsweredIsMapped(stations: seq<Station>, answers: seq<Option<Point>>, k: nat)
    requires |answers| == |stations| && k < |stations| && answers[k].Some?
    ensures stations[k].code in Mapped(stations, answers)
    decreases |stations|
  {
    var n := |stations| - 1;
    if k >= n {
    } else {
      AnsweredIsMapped(stations[..n], answers[..n], k);
    }
  }

  ghost predicate AreAccepted(stations: seq<Station>, vertices: seq<Point>, answers: seq<Option<Point>>) {
    |answers| == |stations| && forall k | 0 <= k < |stations| :: IsAccepted(stations[k].projected, vertices, answers[k])
  }

  /** answer is the one for station k, the last station of the code that has a near vertex. */
  ghost predicate IsLastAnswer(stations: seq<Station>, answers: seq<Option<Point>>, code: string, answer: Point, k: nat)
    requires |answers| == |stations|
  {
    && k < |stations| && stations[k].code == code && answers[k] == Some(answer)
    && forall j | k < j < |stations| && stations[j].code == code :: answers[j].None?
  }

  lemma CloseInCoordinates(p: Point, v: Point)
    ensures Close(p, v) <==> (p.x - v.x) * (p.x - v.x) + (p.y - v.y) * (p.y - v.y) <= 4000.0 * 4000.0
  {
    assert SqDist(p, v) == (p.x - v.x) * (p.x - v.x) + (p.y - v.y) * (p.y - v.y);
  }

  lemma MappedExactly(stations: seq<Station>, vertices: seq<Point>, answers: seq<Option<Point>>, code: string)
    requires AreAccepted(stations, vertices, answers)
    ensures code in Mapped(stations, answers) <==>
              exists s, v :: s in stations && s.code == code && v in vertices && Close(s.projected, v)
    ensures code in Mapped(stations, answers) ==>
              && Mapped(stations, answers)[code] in vertices
              && exists k :: IsLastAnswer(stations, answers, code, Mapped(stations, answers)[code], k)
  {
    if code in Mapped(stations, answers) {
      var k := MappedIsLast(stations, answers, code);
      assert IsLastAnswer(stations, answers, code, Mapped(stations, answers)[code], k);
      AcceptedIsNear(stations[k].projected, vertices, answers[k]);
      assert stations[k] in stations;
    }
    if s, v :| s in stations && s.code == code && v in vertices && Close(s.projected, v) {
      var k :| 0 <= k < |stations| && stations[k] == s;
      AcceptedIsNear(s.projected, vertices, answers[k]);
      AnsweredIsMapped(stations, answers, k);
    }
  }

  method MapStationsToVertices(stations: seq<Station>, vertices: seq<Point>)
    returns (mapping: map<string, Point>, ghost answers: seq<Option<Point>>)
    ensures AreAccepted(stations, vertices, answers) && mapping == Mapped(stations, answers)
    ensures forall code :: code in mapping <==>
              exists s, v :: s in stations && s.code == code && v in vertices &&
                (s.projected.x - v.x) * (s.projected.x - v.x) +
                (s.projected.y - v.y) * (s.projected.y - v.y) <= 4000.0 * 4000.0
    ensures forall code | code in mapping ::
              && mapping[code] in vertices
              && exists k :: IsLastAnswer(stations, answers, code, mapping[code], k)
  {
    var grid := BuildVertexSpatialIndex(vertices);
    mapping, answers := map[], [];
    for n := 0 to |stations|
      invariant AreAccepted(stations[..n], vertices, answers)
      invariant mapping == Mapped(stations[..n], answers)
    {
      var station := stations[n];
      var coord, stop := FindNearestVertex(station.projected, vertices, grid);
      ghost var answer := if coord.Some? && Close(station.projected, coord.value) then coord else None;
      assert IsAccepted(station.projected, vertices, answer);
      assert stations[..n + 1][..n] == stations[..n] && (answers + [answer])[..n] == answers;
      answers := answers + [answer];
      if coord.Some? && Close(station.projected, coord.value) {
        mapping := mapping[station.code := coord.value];
      }
    }
    assert stations[..|stations|] == stations;
    forall s: Station, v: Point {
      CloseInCoordinates(s.projected, v);
    }
    forall code {
      MappedExactly(stations, vertices, answers, code);
    }
  }
}
