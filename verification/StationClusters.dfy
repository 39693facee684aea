/**
 Grouping rail points into stations: a breadth-first search over a grid index that must
 find exactly the groups joined by hops of at most 200 metres.
 */
module StationClusters {
  import opened Wrappers
  import opened Graph
  import opened Plane

  const DISTANCE_THRESHOLD := 200.0
  const GRID_SIZE := 1000.0

  datatype Feature = Feature(id: Node, coords: Point)

  datatype Cell = Cell(i: int, j: int)

  /** Conversion to an integer drops the fraction: it rounds towards zero. */
  function Truncate(r: real): int {
    if r >= 0.0 then r.Floor else -(-r).Floor
  }

  function CellOf(p: Point): Cell {
    Cell(Truncate(p.x / GRID_SIZE), Truncate(p.y / GRID_SIZE))
  }

  /** Cells are a kilometre wide, except that the cells around zero reach out to both sides. */
  lemma CellSpans(p: Point)
    ensures var c := CellOf(p);
            && (p.x >= 0.0 ==> c.i >= 0 && c.i as real * 1000.0 <= p.x < (c.i + 1) as real * 1000.0)
            && (p.x <= 0.0 ==> c.i <= 0 && (c.i - 1) as real * 1000.0 < p.x <= c.i as real * 1000.0)
            && (p.y >= 0.0 ==> c.j >= 0 && c.j as real * 1000.0 <= p.y < (c.j + 1) as real * 1000.0)
            && (p.y <= 0.0 ==> c.j <= 0 && (c.j - 1) as real * 1000.0 < p.y <= c.j as real * 1000.0)
  {
    Truncates(p.x / GRID_SIZE);
    Truncates(p.y / GRID_SIZE);
  }

  lemma Truncates(r: real)
    ensures r >= 0.0 ==> Truncate(r) >= 0 && Truncate(r) as real <= r < (Truncate(r) + 1) as real
    ensures r <= 0.0 ==> Truncate(r) <= 0 && (Truncate(r) - 1) as real < r <= Truncate(r) as real
  {
    var up := (-r).Floor;
    assert up as real <= -r < up as real + 1.0 && (-up) as real == -(up as real);
  }

  predicate Near(p: Point, q: Point) {
    SqDist(p, q) <= DISTANCE_THRESHOLD * DISTANCE_THRESHOLD
  }

  lemma NearInCoordinates(p: Point, q: Point)
    ensures Near(p, q) <==> (p.x - q.x) * (p.x - q.x) + (p.y - q.y) * (p.y - q.y) <= 200.0 * 200.0
  {
    assert SqDist(p, q) == (p.x - q.x) * (p.x - q.x) + (p.y - q.y) * (p.y - q.y);
  }

  // ---- The points and their grid ----

  /** The points in order of first appearance; a repeated id keeps its last coordinates. */
  ghost predicate AreExtracted(features: seq<Feature>, order: seq<Node>, points: map<Node, Point>) {
    && points.Keys == Ids(features) && Distinct(order) && (forall id :: id in points <==> id in order)
    && (forall id | id in points :: IsLast(features, id, points[id]))
    && forall p, q | 0 <= p <= q < |order| :: ComesFirst(features, order[p], order[q])
  }

  method ExtractPoints(features: seq<Feature>) returns (order: seq<Node>, points: map<Node, Point>)
    ensures AreExtracted(features, order, points)
  {
    order, points := [], map[];
    for k := 0 to |features|
      invariant AreExtracted(features[..k], order, points)
    {
      var f := features[k];
      assert features[..k + 1] == features[..k] + [f];
      ExtractOne(features[..k], f, order, points);
      if f.id !in points {
        order := order + [f.id];
      }
      points := points[f.id := f.coords];
    }
    assert features[..|features|] == features;
  }

  lemma ExtractOne(features: seq<Feature>, f: Feature, order: seq<Node>, points: map<Node, Point>)
    requires AreExtracted(features, order, points)
    ensures AreExtracted(features + [f], if f.id in points then order else order + [f.id], points[f.id := f.coords])
  {
    LastMoves(features, f, points);
    FirstStays(features, f, order);
    IdsGrow(features, f);
    var more := if f.id in points then order else order + [f.id];
    forall p, q | 0 <= p <= q < |more|
      ensures ComesFirst(features + [f], more[p], more[q])
    {
      if q < |order| {
        assert ComesFirst(features, order[p], order[q]);
      } else {
        assert more[p] in order + [f.id];
      }
    }
  }

  function Ids(features: seq<Feature>): set<Node> {
    set f | f in features :: f.id
  }

  lemma IdsGrow(features: seq<Feature>, f: Feature)
    ensures Ids(features + [f]) == Ids(features) + {f.id}
  {
    assert f in features + [f] && forall g | g in features :: g in features + [f];
  }

  predicate Distinct(s: seq<Node>) {
    forall i, j | 0 <= i < j < |s| :: s[i] != s[j]
  }

  /** The last feature with this id has these coordinates. */
  ghost predicate IsLast(features: seq<Feature>, id: Node, coords: Point) {
    exists k | 0 <= k < |features| ::
      features[k] == Feature(id, coords) && forall j | k < j < |features| :: features[j].id != id
  }

  /** a appears no later than b. */
  ghost predicate ComesFirst(features: seq<Feature>, a: Node, b: Node) {
    exists i | 0 <= i < |features| :: features[i].id == a && forall j | 0 <= j < i :: features[j].id != b
  }

  lemma FirstStays(features: seq<Feature>, f: Feature, order: seq<Node>)
    requires forall id :: id in order <==> id in Ids(features)
    ensures forall a, b | ComesFirst(features, a, b) :: ComesFirst(features + [f], a, b)
    ensures f.id !in order ==> forall a | a in order + [f.id] :: ComesFirst(features + [f], a, f.id)
  {
    var more := features + [f];
    assert more[|features|] == f;
    forall a, b | ComesFirst(features, a, b)
      ensures ComesFirst(more, a, b)
    {
      var i :| 0 <= i < |features| && features[i].id == a && forall j | 0 <= j < i :: features[j].id != b;
      assert more[i].id == a && forall j | 0 <= j < i :: more[j].id != b;
    }
    if f.id !in order {
      forall a | a in order
        ensures ComesFirst(more, a, f.id)
      {
        var i :| 0 <= i < |features| && features[i].id == a;
        assert more[i].id == a && forall j | 0 <= j < i :: more[j] == features[j];
      }
    }
  }

  lemma LastMoves(features: seq<Feature>, f: Feature, points: map<Node, Point>)
    requires forall id | id in points :: IsLast(features, id, points[id])
    ensures forall id | id in points && id != f.id :: IsLast(features + [f], id, points[id])
    ensures IsLast(features + [f], f.id, f.coords)
  {
    var more := features + [f];
    assert more[|features|] == f;
    forall id | id in points && id != f.id
      ensures IsLast(more, id, points[id])
    {
      var k :| 0 <= k < |features| && features[k] == Feature(id, points[id]) &&
               forall j | k < j < |features| :: features[j].id != id;
      assert more[k] == features[k] && forall j | k < j < |more| :: more[j].id != id;
    }
  }

  type Grid = map<Cell, seq<Node>>

  function Lookup(grid: Grid, c: Cell): seq<Node> {
    if c in grid then grid[c] else []
  }

  /** Each cell lists, once each, the points that fall in it. */
  ghost predicate IsIndex(points: map<Node, Point>, ids: set<Node>, grid: Grid) {
    && ids <= points.Keys
    && (forall c, id :: id in Lookup(grid, c) <==> id in ids && CellOf(points[id]) == c)
    && (forall c | c in grid :: Distinct(grid[c]))
  }

  lemma IndexGrows(points: map<Node, Point>, ids: set<Node>, grid: Grid, id: Node)
    requires IsIndex(points, ids, grid) && id in points && id !in ids
    ensures var c := CellOf(points[id]); IsIndex(points, ids + {id}, grid[c := Lookup(grid, c) + [id]])
  {
    var c := CellOf(points[id]);
    var grid' := grid[c := Lookup(grid, c) + [id]];
    assert id !in Lookup(grid, c);
    forall d, x
      ensures x in Lookup(grid', d) <==> x in ids + {id} && CellOf(points[x]) == d
    {
      assert x in Lookup(grid, d) <==> x in ids && CellOf(points[x]) == d;
    }
  }

  method CreateSpatialIndex(order: seq<Node>, points: map<Node, Point>) returns (grid: Grid)
    requires Distinct(order) && forall id :: id in points <==> id in order
    ensures IsIndex(points, points.Keys, grid)
  {
    grid := map[];
    ghost var ids: set<Node> := {};
    for k := 0 to |order|
      invariant ids == set id | id in order[..k]
      invariant IsIndex(points, ids, grid)
    {
      var id := order[k];
      assert id in order;
      assert order[..k + 1] == order[..k] + [id];
      var c := CellOf(points[id]);
      IndexGrows(points, ids, grid, id);
      grid := grid[c := Lookup(grid, c) + [id]];
      ids := ids + {id};
    }
    assert order[..|order|] == order;
  }

  // ---- Neighbouring cells lose no neighbour ----

  lemma AxisNear(a: real, b: real)
    requires (a - b) * (a - b) <= DISTANCE_THRESHOLD * DISTANCE_THRESHOLD
    ensures -1 <= Truncate(a / GRID_SIZE) - Truncate(b / GRID_SIZE) <= 1
  {
    var d := a - b;
    assert (-d) * (-d) == d * d;
    if d > DISTANCE_THRESHOLD {
      SquareGrows(DISTANCE_THRESHOLD, d);
    }
    if -d > DISTANCE_THRESHOLD {
      SquareGrows(DISTANCE_THRESHOLD, -d);
    }
    assert -1.0 < a / GRID_SIZE - b / GRID_SIZE < 1.0;
  }

  /** Near points lie in the same or in adjacent cells, also across zero where a cell is twice as wide. */
  lemma NearIsAdjacent(p: Point, q: Point)
    requires Near(p, q)
    ensures -1 <= CellOf(q).i - CellOf(p).i <= 1 && -1 <= CellOf(q).j - CellOf(p).j <= 1
  {
    var dx, dy := q.x - p.x, q.y - p.y;
    assert SqDist(p, q) == dx * dx + dy * dy && dx * dx >= 0.0 && dy * dy >= 0.0;
    AxisNear(q.x, p.x);
    AxisNear(q.y, p.y);
  }

  // ---- The search ----

  /** The pairs of points one hop apart. */
  ghost function Hops(points: map<Node, Point>): Edges {
    set a, b | a in points && b in points && Near(points[a], points[b]) :: (a, b)
  }

  lemma HopsAreMutual(points: map<Node, Point>)
    ensures Within(Hops(points), points.Keys)
    ensures forall e | e in Hops(points) :: (e.1, e.0) in Hops(points)
  {
    forall e | e in Hops(points)
      ensures (e.1, e.0) in Hops(points)
    {
      SqDistSymmetric(points[e.0], points[e.1]);
    }
  }

  /** The points of one cell that are near the current one and not visited yet. */
  method ScanCell(points: map<Node, Point>, bucket: seq<Node>, current: Node, visited: set<Node>)
    returns (added: seq<Node>)
    requires current in points && forall id | id in bucket :: id in points
    ensures Distinct(added)
    ensures forall id :: id in added <==> id in bucket && id !in visited && (current, id) in Hops(points)
  {
    added := [];
    for k := 0 to |bucket|
      invariant Distinct(added)
      invariant forall id :: id in added <==> id in bucket[..k] && id !in visited && (current, id) in Hops(points)
    {
      assert bucket[..k + 1] == bucket[..k] + [bucket[k]];
      if bucket[k] !in visited && bucket[k] !in added && Near(points[current], points[bucket[k]]) {
        added := added + [bucket[k]];
      }
    }
    assert bucket[..|bucket|] == bucket;
  }

  /** The cells of the 3 by 3 block around c that come before (dx, dy). */
  predicate Before(c: Cell, d: Cell, dx: int, dy: int) {
    var di, dj := d.i - c.i, d.j - c.j;
    -1 <= di <= 1 && -1 <= dj <= 1 && (di < dx || (di == dx && dj < dy))
  }

  /** The unvisited hops from the current point into the cells before (dx, dy). */
  ghost function HopsBefore(points: map<Node, Point>, current: Node, visited: set<Node>, dx: int, dy: int): set<Node>
    requires current in points
  {
    set id | id in points && id !in visited && (current, id) in Hops(points) &&
      Before(CellOf(points[current]), CellOf(points[id]), dx, dy)
  }

  method VisitNeighbours(points: map<Node, Point>, grid: Grid, current: Node, visited: set<Node>)
    returns (found: seq<Node>)
    requires IsIndex(points, points.Keys, grid) && current in points
    ensures Distinct(found)
    ensures Members(found) == set id | id in points && id !in visited && (current, id) in Hops(points)
  {
    var c := CellOf(points[current]);
    found := [];
    for dx := -1 to 2
      invariant Distinct(found) && Members(found) == HopsBefore(points, current, visited, dx, -1)
    {
      for dy := -1 to 2
        invariant Distinct(found) && Members(found) == HopsBefore(points, current, visited, dx, dy)
      {
        var bucket := Lookup(grid, Cell(c.i + dx, c.j + dy));
        var added := ScanCell(points, bucket, current, visited);
        BlockGrows(points, grid, current, visited, dx, dy, added);
        DistinctConcat(found, added);
        found := found + added;
      }
      assert HopsBefore(points, current, visited, dx, 2) == HopsBefore(points, current, visited, dx + 1, -1);
    }
    forall id | id in points && (current, id) in Hops(points)
      ensures Before(c, CellOf(points[id]), 2, -1)
    {
      NearIsAdjacent(points[current], points[id]);
    }
  }

  lemma BlockGrows(points: map<Node, Point>, grid: Grid, current: Node, visited: set<Node>, dx: int, dy: int,
                   added: seq<Node>)
    requires IsIndex(points, points.Keys, grid) && current in points && -1 <= dx <= 1 && -1 <= dy <= 1
    requires var c := CellOf(points[current]);
             forall id :: id in added <==>
               id in Lookup(grid, Cell(c.i + dx, c.j + dy)) && id !in visited && (current, id) in Hops(points)
    ensures HopsBefore(points, current, visited, dx, dy + 1) ==
              HopsBefore(points, current, visited, dx, dy) + Members(added)
    ensures HopsBefore(points, current, visited, dx, dy) !! Members(added)
  {}

  function Members(s: seq<Node>): set<Node> {
    set id | id in s
  }

  lemma DistinctConcat(s: seq<Node>, t: seq<Node>)
    requires Distinct(s) && Distinct(t) && Members(s) !! Members(t)
    ensures Distinct(s + t) && Members(s + t) == Members(s) + Members(t)
  {
    forall i, j | 0 <= i < j < |s + t|
      ensures (s + t)[i] != (s + t)[j]
    {
      if i < |s| <= j {
        assert s[i] in Members(s) && t[j - |s|] in Members(t);
      }
    }
  }

  /** Everything in members belongs to limit, and the hops of done lead nowhere new. */
  ghost predicate Searching(es: Edges, limit: set<Node>, visited: set<Node>, members: set<Node>, done: set<Node>) {
    && done <= members <= limit && members !! visited
    && (forall e | e in es && e.0 in done :: e.1 in visited + members)
  }

  lemma SearchStep(es: Edges, nodes: set<Node>, limit: set<Node>, visited: set<Node>, members: set<Node>,
                   done: set<Node>, current: Node, found: set<Node>)
    requires Searching(es, limit, visited, members, done) && current in members
    requires Within(es, nodes) && Closed(es, limit)
    requires found == set id | id in nodes && id !in visited + members && (current, id) in es
    ensures Searching(es, limit, visited, members + found, done + {current})
  {}

  lemma SearchEnds(es: Edges, limit: set<Node>, visited: set<Node>, members: set<Node>)
    requires Searching(es, limit, visited, members, members)
    requires Closed(es, visited) && forall e | e in es :: (e.1, e.0) in es
    ensures Closed(es, members) && Closed(es, visited + members)
  {
    forall e | e in es
      ensures e.0 in members <==> e.1 in members
    {
      assert (e.1, e.0) in es;
    }
  }

  /** One breadth-first search from an unvisited point: it stays inside every closed set around the point. */
  method GrowCluster(points: map<Node, Point>, grid: Grid, start: Node, visited: set<Node>, ghost limit: set<Node>)
    returns (cluster: seq<Node>, visited': set<Node>)
    requires IsIndex(points, points.Keys, grid) && start in points && start !in visited
    requires visited <= points.Keys && Closed(Hops(points), visited)
    requires start in limit && limit <= points.Keys && Closed(Hops(points), limit)
    ensures Distinct(cluster) && start in Members(cluster) && Members(cluster) <= limit &&
            Closed(Hops(points), Members(cluster))
    ensures visited' == visited + Members(cluster) && Members(cluster) !! visited && Closed(Hops(points), visited')
  {
    ghost var hops := Hops(points);
    HopsAreMutual(points);
    cluster, visited' := [start], visited + {start};
    var queue := [start];
    ghost var done: set<Node> := {};
    while queue != []
      invariant Distinct(cluster) && start in Members(cluster) && visited' == visited + Members(cluster)
      invariant Searching(hops, limit, visited, Members(cluster), done)
      invariant done + Members(queue) == Members(cluster)
      decreases |points.Keys - visited'|, |queue|
    {
      var current := queue[0];
      assert current in Members(queue);
      var found := VisitNeighbours(points, grid, current, visited');
      SearchStep(hops, points.Keys, limit, visited, Members(cluster), done, current, Members(found));
      ShrinksUnless(points.Keys, visited', found);
      DistinctConcat(cluster, found);
      QueueMembers(queue, found);
      Advance(visited, done, Members(queue), Members(cluster), current, Members(found), Members(queue[1..] + found));
      cluster := cluster + found;
      visited' := visited' + Members(found);
      queue := queue[1..] + found;
      done := done + {current};
    }
    assert done == Members(cluster);
    SearchEnds(hops, limit, visited, Members(cluster));
  }

  lemma Advance(visited: set<Node>, done: set<Node>, queued: set<Node>, members: set<Node>,
                current: Node, found: set<Node>, queued': set<Node>)
    requires done + queued == members && queued' + {current} == queued + found
    ensures done + {current} + queued' == members + found
    ensures visited + members + found == visited + (members + found)
  {}

  lemma QueueMembers(queue: seq<Node>, found: seq<Node>)
    requires queue != []
    ensures Members(queue[1..] + found) + {queue[0]} == Members(queue) + Members(found)
  {
    assert queue == [queue[0]] + queue[1..];
  }

  lemma ShrinksUnless(nodes: set<Node>, visited: set<Node>, found: seq<Node>)
    requires Members(found) <= nodes - visited
    ensures if found == [] then visited + Members(found) == visited
            else |nodes - (visited + Members(found))| < |nodes - visited|
  {
    if found != [] {
      assert found[0] in Members(found);
      Smaller(nodes - (visited + Members(found)), nodes - visited);
    }
  }

  ghost predicate Covered(parts: map<Node, set<Node>>, clusters: map<Node, seq<Node>>, id: Node) {
    exists r :: r in clusters && r in parts && id in parts[r]
  }

  /** The clusters so far partition the visited points into the given parts. */
  ghost predicate ClusteredSoFar(parts: map<Node, set<Node>>, visited: set<Node>, clusters: map<Node, seq<Node>>) {
    && clusters.Keys <= visited <= parts.Keys
    && (forall r | r in clusters :: Distinct(clusters[r]) && Members(clusters[r]) == parts[r] && parts[r] <= visited)
    && (forall id {:trigger Covered(parts, clusters, id)} | id in visited :: Covered(parts, clusters, id))
    && (forall r, r' | r in clusters && r' in clusters && r != r' :: parts[r] !! parts[r'])
  }

  lemma OneMoreCluster(parts: map<Node, set<Node>>, visited: set<Node>, clusters: map<Node, seq<Node>>, start: Node,
                       cluster: seq<Node>)
    requires ClusteredSoFar(parts, visited, clusters) && start in parts
    requires start in parts[start] && parts[start] <= parts.Keys && Distinct(cluster) &&
             Members(cluster) == parts[start] && parts[start] !! visited
    ensures ClusteredSoFar(parts, visited + parts[start], clusters[start := cluster])
  {
    var clusters' := clusters[start := cluster];
    forall id | id in visited + parts[start]
      ensures Covered(parts, clusters', id)
    {
      if id in parts[start] {
        assert start in clusters' && id in parts[start];
      } else {
        assert Covered(parts, clusters, id);
        var r :| r in clusters && id in parts[r];
        assert r in clusters' && id in parts[r];
      }
    }
  }

  /** c is the least set around v that no edge leaves. */
  ghost predicate LeastClosed(es: Edges, v: Node, c: set<Node>) {
    v in c && Closed(es, c) && forall s | v in s && Closed(es, s) :: c <= s
  }

  ghost function ComponentOf(nodes: set<Node>, es: Edges): map<Node, set<Node>> {
    map v | v in nodes :: Component(nodes, es, v)
  }

  lemma ComponentsAreLeastClosed(nodes: set<Node>, es: Edges, v: Node)
    requires Within(es, nodes) && v in nodes
    ensures LeastClosed(es, v, Component(nodes, es, v))
  {
    Reflexive(es, v);
    ComponentClosed(nodes, es, v);
    forall s | v in s && Closed(es, s)
      ensures Component(nodes, es, v) <= s
    {
      forall u | u in Component(nodes, es, v)
        ensures u in s
      {
        ClosedHolds(es, s, v, u);
      }
    }
  }

  ghost predicate Precedes(order: seq<Node>, a: Node, b: Node) {
    exists p, q | 0 <= p <= q < |order| :: order[p] == a && order[q] == b
  }

  /** Each cluster goes by its first point. */
  ghost predicate AreLed(order: seq<Node>, clusters: map<Node, seq<Node>>) {
    forall r, m | r in clusters && m in clusters[r] :: Precedes(order, r, m)
  }

  lemma UnvisitedFollow(order: seq<Node>, k: nat, visited: set<Node>, clusters: map<Node, seq<Node>>,
                        cluster: seq<Node>)
    requires k < |order| && (forall i | 0 <= i < k :: order[i] in visited) && AreLed(order, clusters)
    requires Members(cluster) !! visited && forall m | m in Members(cluster) :: m in order
    ensures AreLed(order, clusters[order[k] := cluster])
  {
    forall m | m in cluster
      ensures Precedes(order, order[k], m)
    {
      assert m in Members(cluster);
      var q :| 0 <= q < |order| && order[q] == m;
    }
  }

  method ClusterAll(order: seq<Node>, points: map<Node, Point>, grid: Grid, ghost parts: map<Node, set<Node>>)
    returns (clusters: map<Node, seq<Node>>)
    requires (forall id :: id in points <==> id in order) && IsIndex(points, points.Keys, grid)
    requires parts.Keys == points.Keys
    requires forall v | v in parts :: parts[v] <= points.Keys && LeastClosed(Hops(points), v, parts[v])
    ensures ClusteredSoFar(parts, points.Keys, clusters)
    ensures AreLed(order, clusters)
  {
    clusters := map[];
    var visited: set<Node> := {};
    for k := 0 to |order|
      invariant ClusteredSoFar(parts, visited, clusters) && Closed(Hops(points), visited)
      invariant forall i | 0 <= i < k :: order[i] in visited
      invariant AreLed(order, clusters)
    {
      if order[k] !in visited {
        assert order[k] in order;
        var cluster, visited' := GrowCluster(points, grid, order[k], visited, parts[order[k]]);
        OneMoreCluster(parts, visited, clusters, order[k], cluster);
        UnvisitedFollow(order, k, visited, clusters, cluster);
        clusters := clusters[order[k] := cluster];
        visited := visited';
      }
    }
    assert visited == points.Keys;
  }

  /** Every point is in exactly one cluster, and each cluster is the component of its representative. */
  ghost predicate IsClustering(nodes: set<Node>, hops: Edges, clusters: map<Node, seq<Node>>) {
    ClusteredSoFar(ComponentOf(nodes, hops), nodes, clusters)
  }

  method FindStationClusters(features: seq<Feature>) returns (clusters: map<Node, seq<Node>>, points: map<Node, Point>)
    ensures points.Keys == Ids(features)
    ensures forall id | id in points :: IsLast(features, id, points[id])
    ensures IsClustering(points.Keys, Hops(points), clusters)
    ensures forall r, m | r in clusters && m in clusters[r] :: ComesFirst(features, r, m)
    ensures forall a, b | a in points && b in points ::
              (a, b) in Hops(points) <==>
                (points[a].x - points[b].x) * (points[a].x - points[b].x) +
                (points[a].y - points[b].y) * (points[a].y - points[b].y) <= 200.0 * 200.0
  {
    var order;
    order, points := ExtractPoints(features);
    var grid := CreateSpatialIndex(order, points);
    ghost var parts := ComponentOf(points.Keys, Hops(points));
    HopsAreMutual(points);
    forall v | v in points
      ensures LeastClosed(Hops(points), v, parts[v])
    {
      ComponentsAreLeastClosed(points.Keys, Hops(points), v);
    }
    clusters := ClusterAll(order, points, grid, parts);
    forall r, m | r in clusters && m in clusters[r]
      ensures ComesFirst(features, r, m)
    {
      assert Precedes(order, r, m);
    }
    forall a, b | a in points && b in points {
      NearInCoordinates(points[a], points[b]);
    }
  }

  lemma PartShared(parts: map<Node, set<Node>>, clusters: map<Node, seq<Node>>, a: Node, b: Node)
    requires ClusteredSoFar(parts, parts.Keys, clusters) && a in parts && b in parts
    requires forall r | r in parts ::
               && (a in parts[r] <==> parts[a] == parts[r])
               && (b in parts[r] <==> parts[b] == parts[r])
    ensures (exists r :: r in clusters && a in clusters[r] && b in clusters[r]) <==> parts[a] == parts[b]
  {
    assert Covered(parts, clusters, a);
    var r :| r in clusters && r in parts && a in parts[r];
    if parts[a] == parts[b] {
      assert a in Members(clusters[r]) && b in Members(clusters[r]);
    }
    if r' :| r' in clusters && a in clusters[r'] && b in clusters[r'] {
      assert a in Members(clusters[r']) && b in Members(clusters[r']);
    }
  }

  /** Two points share a cluster exactly when a chain of hops of at most 200 metres joins them. */
  lemma SharedClusterMeansChain(nodes: set<Node>, hops: Edges, clusters: map<Node, seq<Node>>, a: Node, b: Node)
    requires IsClustering(nodes, hops, clusters) && a in nodes && b in nodes
    ensures (exists r :: r in clusters && a in clusters[r] && b in clusters[r]) <==> Connected(hops, a, b)
  {
    var parts := ComponentOf(nodes, hops);
    forall r | r in nodes
      ensures (a in parts[r] <==> parts[a] == parts[r]) && (b in parts[r] <==> parts[b] == parts[r])
    {
      SameComponent(nodes, hops, r, a);
      SameComponent(nodes, hops, r, b);
    }
    PartShared(parts, clusters, a, b);
    SameComponent(nodes, hops, a, b);
  }
}
