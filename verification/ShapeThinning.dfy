/** Route shapes for the map: thinning long ones to a limit, and grouping their points. */
module ShapeThinning {
  import opened Wrappers

  // ---- Thinning; the limit is 500 points for live shapes and 300 for scheduled ones ----

  /** The quotient rounded up. */
  function Ceiling(a: nat, b: nat): nat
    requires b > 0
  {
    (a + b - 1) / b
  }

  function Step(count: nat, limit: nat): nat
    requires count >= 1 && limit >= 2
  {
    var step := Ceiling(count - 1, limit - 1);
    if step < 1 then 1 else step
  }

  predicate IsKept(number: nat, count: nat, limit: nat)
    requires 1 <= number <= count && limit >= 2
  {
    count <= limit || number == 1 || number == count || (number - 1) % Step(count, limit) == 0
  }

  /** The numbers of the kept points among the first k, in order. */
  function KeptUpTo(k: nat, count: nat, limit: nat): seq<nat>
    requires k <= count && limit >= 2
  {
    if k == 0 then [] else KeptUpTo(k - 1, count, limit) + if IsKept(k, count, limit) then [k] else []
  }

  /** A shape of one point is not shown at all. */
  function Kept(count: nat, limit: nat): seq<nat>
    requires limit >= 2
  {
    if count < 2 then [] else KeptUpTo(count, count, limit)
  }

  lemma Distributes(x: int, y: int, b: int)
    ensures (x - y) * b == x * b - y * b
  {}

  lemma {:induction false} AtLeastOnce(x: int, b: int)
    requires x >= 1 && b >= 0
    ensures x * b >= b
  {
    Distributes(x, 1, b);
    if x <= 1 {
    } else {
      AtLeastOnce(x - 1, b);
    }
  }

  lemma DivisionParts(a: nat, b: nat)
    requires b > 0
    ensures a == a / b * b + a % b && 0 <= a % b < b
  {}

  /** The quotient and remainder are the only ones. */
  lemma Division(a: nat, b: nat, q: nat, r: nat)
    requires b > 0 && a == q * b + r && r < b
    ensures a / b == q && a % b == r
  {
    DivisionParts(a, b);
    var d := a / b;
    Distributes(d, q, b);
    Distributes(q, d, b);
    if d < q {
      AtLeastOnce(q - d, b);
    } else if d > q {
      AtLeastOnce(d - q, b);
    }
  }

  /** The least c with a <= c * b. */
  lemma CeilingIsLeast(a: nat, b: nat, c: nat)
    requires b > 0
    ensures a <= Ceiling(a, b) * b
    ensures a <= c * b ==> Ceiling(a, b) <= c
  {
    DivisionParts(a + b - 1, b);
    var q := Ceiling(a, b);
    if a <= c * b && c < q {
      Distributes(q, c, b);
      AtLeastOnce(q - c, b);
    }
  }

  /** Before the last point, the kept numbers are those of q whole steps. */
  lemma {:induction false} KeptBeforeLast(k: nat, count: nat, limit: nat, q: nat, r: nat)
    requires 1 <= k < count && limit >= 2 && limit < count
    requires k - 1 == q * Step(count, limit) + r && r < Step(count, limit)
    ensures var kept := KeptUpTo(k, count, limit);
            |kept| == q + 1 && kept[q] == k - r && kept[0] == 1
            && forall i | 0 <= i < q :: kept[i + 1] == kept[i] + Step(count, limit)
  {
    var step := Step(count, limit);
    Division(k - 1, step, q, r);
    if k > 1 {
      if r > 0 {
        KeptBeforeLast(k - 1, count, limit, q, r - 1);
      } else {
        Distributes(q, 1, step);
        KeptBeforeLast(k - 1, count, limit, q - 1, step - 1);
      }
    } else {
      assert KeptUpTo(0, count, limit) == [];
    }
  }

  lemma {:induction false} AllKept(k: nat, count: nat, limit: nat)
    requires k <= count <= limit && limit >= 2
    ensures |KeptUpTo(k, count, limit)| == k && forall i | 0 <= i < k :: KeptUpTo(k, count, limit)[i] == i + 1
  {
    if k == 0 {
    } else {
      AllKept(k - 1, count, limit);
    }
  }

  /** A selection that runs from the first point to the last in steps of at most gap. */
  predicate Covers(kept: seq<nat>, count: nat, gap: nat) {
    && |kept| >= 2 && kept[0] == 1 && kept[|kept| - 1] == count
    && forall i | 0 <= i < |kept| - 1 :: kept[i] < kept[i + 1] <= kept[i] + gap
  }

  /** Thinning keeps at most the limit, both ends, and leaves no gap wider than one step. */
  lemma ThinningCovers(count: nat, limit: nat)
    requires count >= 2 && limit >= 2
    ensures |Kept(count, limit)| <= limit
    ensures Covers(Kept(count, limit), count, Step(count, limit))
    ensures count <= limit ==> |Kept(count, limit)| == count
  {
    if count <= limit {
      AllKept(count, count, limit);
    } else {
      var step := Step(count, limit);
      DivisionParts(count - 2, step);
      var q, r := (count - 2) / step, (count - 2) % step;
      KeptBeforeLast(count - 1, count, limit, q, r);
      CeilingIsLeast(count - 1, limit - 1, 0);
      FewSteps(q, r, count, limit);
    }
  }

  lemma FewSteps(q: nat, r: nat, count: nat, limit: nat)
    requires limit >= 2 && limit < count && count - 2 == q * Step(count, limit) + r
    ensures q + 2 <= limit
  {
    var step := Step(count, limit);
    CeilingIsLeast(count - 1, limit - 1, 0);
    assert count - 1 <= step * (limit - 1);
    if q >= limit - 1 {
      Distributes(q, limit - 1, step);
      if q > limit - 1 {
        AtLeastOnce(q - (limit - 1), step);
      }
    }
  }

  lemma {:induction false} Reach(kept: seq<nat>, count: nat, gap: nat, i: nat)
    requires Covers(kept, count, gap) && i < |kept|
    ensures kept[i] <= 1 + i * gap
  {
    if i == 0 {
    } else {
      Reach(kept, count, gap, i - 1);
      Distributes(i, 1, gap);
    }
  }

  /** No selection within the limit gets by with smaller gaps. */
  lemma StepIsLeast(kept: seq<nat>, count: nat, limit: nat, gap: nat)
    requires limit >= 2 && |kept| <= limit && Covers(kept, count, gap)
    ensures count >= 2 && Step(count, limit) <= gap
  {
    Reach(kept, count, gap, |kept| - 1);
    assert kept[0] < kept[1] <= kept[0] + gap;
    Increases(kept, count, gap, |kept| - 1);
    Distributes(limit - 1, |kept| - 1, gap);
    if limit > |kept| {
      AtLeastOnce(limit - |kept|, gap);
    }
    CeilingIsLeast(count - 1, limit - 1, gap);
    assert gap * (limit - 1) == (limit - 1) * gap;
  }

  lemma {:induction false} Increases(kept: seq<nat>, count: nat, gap: nat, i: nat)
    requires Covers(kept, count, gap) && 1 <= i < |kept|
    ensures kept[i] > 1
  {
    if i <= 1 {
    } else {
      Increases(kept, count, gap, i - 1);
    }
  }

  // ---- Grouping ----

  datatype Point = Point(latitude: real, longitude: real, sequence: int)

  datatype PointRow = PointRow(route: string, shortName: Option<string>, shape: string, color: Option<string>,
                               point: Point)

  datatype RouteShape = RouteShape(route: string, shortName: Option<string>, shape: string, color: Option<string>,
                                   points: seq<Point>)

  /** A point with what identifies its shape. */
  datatype Cell = Cell(route: string, shape: string, point: Point)

  function CellsOf(rows: seq<PointRow>): seq<Cell> {
    seq(|rows|, i requires 0 <= i < |rows| => Cell(rows[i].route, rows[i].shape, rows[i].point))
  }

  function PointsOf(s: RouteShape): seq<Cell> {
    seq(|s.points|, i requires 0 <= i < |s.points| => Cell(s.route, s.shape, s.points[i]))
  }

  function Flattened(shapes: seq<RouteShape>): seq<Cell> {
    if shapes == [] then [] else Flattened(shapes[..|shapes| - 1]) + PointsOf(shapes[|shapes| - 1])
  }

  predicate SameShape(a: RouteShape, b: RouteShape) {
    a.route == b.route && a.shape == b.shape
  }

  predicate IsGrouped(shapes: seq<RouteShape>) {
    && (forall i | 0 <= i < |shapes| :: shapes[i].points != [])
    && forall i | 0 <= i < |shapes| - 1 :: !SameShape(shapes[i], shapes[i + 1])
  }

  /** The shape carries the name and color of its first row. */
  predicate IsHeaded(rows: seq<PointRow>, before: seq<RouteShape>, s: RouteShape) {
    var first := |Flattened(before)|;
    first < |rows| && rows[first].shortName == s.shortName && rows[first].color == s.color
  }

  method GroupBusRouteShapes(rows: seq<PointRow>) returns (shapes: seq<RouteShape>)
    ensures Flattened(shapes) == CellsOf(rows) && IsGrouped(shapes)
    ensures forall i | 0 <= i < |shapes| :: IsHeaded(rows, shapes[..i], shapes[i])
  {
    shapes := [];
    for i := 0 to |rows|
      invariant Flattened(shapes) == CellsOf(rows[..i]) && IsGrouped(shapes)
      invariant forall j | 0 <= j < |shapes| :: IsHeaded(rows, shapes[..j], shapes[j])
    {
      var row := rows[i];
      assert CellsOf(rows[..i + 1]) == CellsOf(rows[..i]) + [Cell(row.route, row.shape, row.point)];
      if shapes == [] || shapes[|shapes| - 1].route != row.route || shapes[|shapes| - 1].shape != row.shape {
        var shape := RouteShape(row.route, row.shortName, row.shape, row.color, [row.point]);
        PushShape(rows, shapes, shape);
        shapes := shapes + [shape];
      } else {
        var last := shapes[|shapes| - 1];
        PushPoint(rows, shapes, row.point);
        shapes := shapes[..|shapes| - 1] + [last.(points := last.points + [row.point])];
      }
    }
    assert rows[..|rows|] == rows;
  }

  lemma PushShape(rows: seq<PointRow>, shapes: seq<RouteShape>, shape: RouteShape)
    requires IsGrouped(shapes) && |shape.points| == 1 && IsHeaded(rows, shapes, shape)
    requires shapes != [] ==> !SameShape(shapes[|shapes| - 1], shape)
    requires forall j | 0 <= j < |shapes| :: IsHeaded(rows, shapes[..j], shapes[j])
    ensures var after := shapes + [shape];
            && IsGrouped(after)
            && Flattened(after) == Flattened(shapes) + [Cell(shape.route, shape.shape, shape.points[0])]
            && forall j | 0 <= j < |after| :: IsHeaded(rows, after[..j], after[j])
  {
    var after := shapes + [shape];
    assert after[..|shapes|] == shapes;
    assert forall j | 0 <= j < |shapes| :: after[..j] == shapes[..j];
  }

  lemma PushPoint(rows: seq<PointRow>, shapes: seq<RouteShape>, point: Point)
    requires shapes != [] && IsGrouped(shapes)
    requires forall j | 0 <= j < |shapes| :: IsHeaded(rows, shapes[..j], shapes[j])
    ensures var last := shapes[|shapes| - 1];
            var after := shapes[..|shapes| - 1] + [last.(points := last.points + [point])];
            && IsGrouped(after) && Flattened(after) == Flattened(shapes) + [Cell(last.route, last.shape, point)]
            && forall j | 0 <= j < |after| :: IsHeaded(rows, after[..j], after[j])
  {
    var last := shapes[|shapes| - 1];
    var more := last.(points := last.points + [point]);
    ReplaceLast(shapes, more);
    PointsOfMore(last, point);
    var after := shapes[..|shapes| - 1] + [more];
    forall j | 0 <= j < |after|
      ensures IsHeaded(rows, after[..j], after[j])
    {
      assert after[..j] == shapes[..j];
      assert IsHeaded(rows, shapes[..j], shapes[j]);
    }
  }

  lemma PointsOfMore(s: RouteShape, point: Point)
    ensures PointsOf(s.(points := s.points + [point])) == PointsOf(s) + [Cell(s.route, s.shape, point)]
  {}

  lemma ReplaceLast(shapes: seq<RouteShape>, last: RouteShape)
    requires shapes != [] && IsGrouped(shapes) && last.points != [] && SameShape(last, shapes[|shapes| - 1])
    ensures var after := shapes[..|shapes| - 1] + [last];
            IsGrouped(after) && Flattened(after) == Flattened(shapes[..|shapes| - 1]) + PointsOf(last)
  {
    var after := shapes[..|shapes| - 1] + [last];
    assert after[..|shapes| - 1] == shapes[..|shapes| - 1];
  }

  // ---- The grouping is the only one ----

  /** The groups without their last point. */
  function Popped(shapes: seq<RouteShape>): seq<RouteShape>
    requires shapes != [] && IsGrouped(shapes)
  {
    var n := |shapes| - 1;
    var last := shapes[n];
    if |last.points| == 1 then shapes[..n] else shapes[..n] + [last.(points := last.points[..|last.points| - 1])]
  }

  lemma PoppedCells(shapes: seq<RouteShape>)
    requires shapes != [] && IsGrouped(shapes)
    ensures var last := shapes[|shapes| - 1];
            && IsGrouped(Popped(shapes))
            && Flattened(shapes) == Flattened(Popped(shapes)) +
                 [Cell(last.route, last.shape, last.points[|last.points| - 1])]
  {
    var n := |shapes| - 1;
    var last := shapes[n];
    if |last.points| > 1 {
      var less := last.(points := last.points[..|last.points| - 1]);
      ReplaceLast(shapes, less);
      PointsOfMore(less, last.points[|last.points| - 1]);
      assert less.points + [last.points[|last.points| - 1]] == last.points;
    }
  }

  predicate SameGroups(a: seq<RouteShape>, b: seq<RouteShape>) {
    |a| == |b| && forall i | 0 <= i < |a| :: SameShape(a[i], b[i]) && a[i].points == b[i].points
  }

  /** Groups of the same cells are the same groups. */
  lemma {:induction false} GroupingIsUnique(a: seq<RouteShape>, b: seq<RouteShape>)
    requires IsGrouped(a) && IsGrouped(b) && Flattened(a) == Flattened(b)
    ensures SameGroups(a, b)
    decreases |Flattened(a)|
  {
    if a == [] || b == [] {
      if a != [] {
        PoppedCells(a);
      }
      if b != [] {
        PoppedCells(b);
      }
    } else {
      PoppedCells(a);
      PoppedCells(b);
      var n := |Flattened(a)| - 1;
      assert Flattened(a)[n] == Flattened(b)[n];
      assert Flattened(Popped(a)) == Flattened(a)[..n] == Flattened(Popped(b));
      GroupingIsUnique(Popped(a), Popped(b));
      PoppedAgree(a, b);
    }
  }

  lemma PoppedAgree(a: seq<RouteShape>, b: seq<RouteShape>)
    requires a != [] && b != [] && IsGrouped(a) && IsGrouped(b)
    requires SameGroups(Popped(a), Popped(b))
    requires SameShape(a[|a| - 1], b[|b| - 1])
    requires a[|a| - 1].points[|a[|a| - 1].points| - 1] == b[|b| - 1].points[|b[|b| - 1].points| - 1]
    ensures SameGroups(a, b)
  {
    var x, y := a[|a| - 1], b[|b| - 1];
    var p, q := Popped(a), Popped(b);
    if p != [] {
      assert SameShape(p[|p| - 1], q[|p| - 1]);
    }
    assert (|x.points| == 1) == (|y.points| == 1);
    if |x.points| > 1 {
      assert p[|p| - 1].points == q[|q| - 1].points;
      assert x.points == p[|p| - 1].points + [x.points[|x.points| - 1]];
      assert y.points == q[|q| - 1].points + [y.points[|y.points| - 1]];
    }
    forall i | 0 <= i < |a| - 1
      ensures SameShape(a[i], b[i]) && a[i].points == b[i].points
    {
      assert p[i] == a[i] && q[i] == b[i];
    }
  }
}
