/**
 The rail network builder's last step: join the components of the physical graph,
 first by the shortest straight bridges, then by observed services.
 */
module ComponentBridges {
  import opened Wrappers
  import opened Graph
  import opened Kruskal
  import opened Plane

  const BRIDGE_MAX_METRES := 120_000.0
  const SERVICE_MIN_TRIPS := 20

  datatype Station = Station(code: Node, projected: Point)

  datatype Derivation = SegmentAdjacency | TopologyFallback | GeometryComponentBridge | ServiceBridge

  datatype Edge = Edge(fromCode: Node, toCode: Node, derivedFrom: Derivation)

  type EdgeTable = map<Pair, Edge>

  /** The dictionary of projected positions; a repeated code keeps its last station. */
  function ByCode(stations: seq<Station>): map<Node, Point> {
    if stations == [] then map[]
    else
      var last := stations[|stations| - 1];
      ByCode(stations[..|stations| - 1])[last.code := last.projected]
  }

  /** The dictionary holds the codes of all stations, each with the position of its last station. */
  lemma {:induction false} ByCodeHoldsLast(stations: seq<Station>, code: Node)
    ensures code in ByCode(stations) <==> exists s :: s in stations && s.code == code
    ensures code in ByCode(stations) ==>
              exists k :: 0 <= k < |stations| && stations[k] == Station(code, ByCode(stations)[code]) &&
                          forall j | k < j < |stations| :: stations[j].code != code
    decreases |stations|
  {
    if stations == [] {
    } else {
      var n := |stations| - 1;
      ByCodeHoldsLast(stations[..n], code);
      assert stations == stations[..n] + [stations[n]];
      if stations[n].code == code {
        assert stations[n] == Station(code, ByCode(stations)[code]);
      } else if code in ByCode(stations) {
        var k :| 0 <= k < n && stations[..n][k] == Station(code, ByCode(stations)[code]) &&
                 forall j | k < j < n :: stations[..n][j].code != code;
        assert stations[k] == Station(code, ByCode(stations)[code]);
        assert forall j | k < j < n :: stations[j] == stations[..n][j];
      }
    }
  }

  predicate LexLess(a: string, b: string) {
    if b == [] then false
    else if a == [] then true
    else if a[0] == b[0] then LexLess(a[1..], b[1..])
    else a[0] < b[0]
  }

  /** The edge key: both codes in order. */
  function Key(a: Node, b: Node): Pair {
    if LexLess(b, a) then (b, a) else (a, b)
  }

  /** At the first place where they differ, a ends or has the smaller character. */
  lemma {:induction false} LexLessMeans(a: string, b: string)
    ensures LexLess(a, b) <==>
            exists n :: 0 <= n < |b| && n <= |a| && a[..n] == b[..n] && (n == |a| || a[n] < b[n])
    decreases |a|
  {
    if a == "" || b == "" || a[0] != b[0] {
      if b != "" && (a == "" || a[0] < b[0]) {
        assert a[..0] == b[..0];
      }
      if n :| 0 <= n < |b| && n <= |a| && a[..n] == b[..n] && (n == |a| || a[n] < b[n]) {
        if n > 0 {
          SameStart(a, b, n);
        }
      }
    } else {
      LexLessMeans(a[1..], b[1..]);
      if n :| 0 <= n < |b[1..]| && n <= |a[1..]| && a[1..][..n] == b[1..][..n] &&
              (n == |a[1..]| || a[1..][n] < b[1..][n]) {
        assert a[..n + 1] == [a[0]] + a[1..][..n] && b[..n + 1] == [b[0]] + b[1..][..n];
      }
      if n :| 0 <= n < |b| && n <= |a| && a[..n] == b[..n] && (n == |a| || a[n] < b[n]) {
        assert n > 0 && a[1..][..n - 1] == a[..n][1..] && b[1..][..n - 1] == b[..n][1..];
      }
    }
  }

  lemma SameStart(a: string, b: string, n: nat)
    requires n <= |a| && n <= |b| && a[..n] == b[..n] && n > 0
    ensures a[0] == b[0]
  {
    assert a[..n][0] == a[0] && b[..n][0] == b[0];
  }

  lemma {:induction false} LexLessIsTotal(a: string, b: string)
    ensures a != b ==> (LexLess(a, b) <==> !LexLess(b, a))
    ensures a == b ==> !LexLess(a, b)
    decreases |a|
  {
    if a != "" && b != "" && a[0] == b[0] {
      LexLessIsTotal(a[1..], b[1..]);
      assert a == [a[0]] + a[1..] && b == [b[0]] + b[1..];
    }
  }

  /** A key holds the two codes in order, whichever way round they come. */
  lemma KeyIsSorted(a: Node, b: Node)
    ensures Key(a, b) == Key(b, a) && (Key(a, b) == (a, b) || Key(a, b) == (b, a))
    ensures a != b ==> LexLess(Key(a, b).0, Key(a, b).1)
  {
    LexLessIsTotal(a, b);
  }

  /** Every row sits under its own two codes, and both are stations. */
  ghost predicate WellKeyed(table: EdgeTable, nodes: set<Node>) {
    && Within(table.Keys, nodes)
    && forall k | k in table :: (table[k].fromCode, table[k].toCode) == k
  }

  /** The pairs a geometry bridge may join, with their squared lengths. */
  function BridgeCosts(pos: map<Node, Point>, mapped: set<Node>): Costs
    requires mapped <= pos.Keys
  {
    map e | e in (set a, b | a in mapped && b in mapped :: (a, b)) &&
            SqDist(pos[e.0], pos[e.1]) <= BRIDGE_MAX_METRES * BRIDGE_MAX_METRES :: SqDist(pos[e.0], pos[e.1])
  }

  /** The pairs a service bridge may join; more trips make a pair cheaper. */
  function ServiceCosts(evidence: map<Pair, nat>, nodes: set<Node>): Costs {
    map e | e in evidence && e.0 in nodes && e.1 in nodes && evidence[e] >= SERVICE_MIN_TRIPS :: -(evidence[e] as real)
  }

  // ---- Choosing the closest bridge ----

  ghost predicate Candidate(table: EdgeTable, costs: Costs, left: set<Node>, right: set<Node>, e: Pair) {
    e in costs && e.0 in left && e.1 in right && Key(e.0, e.1) !in table
  }

  /** best is no dearer than any candidate between left and right. */
  ghost predicate Covers(table: EdgeTable, costs: Costs, left: set<Node>, right: set<Node>, best: Option<Pair>) {
    forall a, b | Candidate(table, costs, left, right, (a, b)) ::
      best.Some? && best.value in costs && costs[best.value] <= costs[(a, b)]
  }

  /** best' is best, or a strictly cheaper candidate between left and right. */
  ghost predicate Improves(table: EdgeTable, costs: Costs, left: set<Node>, right: set<Node>, best: Option<Pair>,
                           best': Option<Pair>) {
    best' == best ||
    (&& best'.Some? && Candidate(table, costs, left, right, best'.value)
     && (best.Some? && best.value in costs ==> costs[best'.value] < costs[best.value]))
  }

  lemma StillCovers(table: EdgeTable, costs: Costs, left: set<Node>, right: set<Node>,
                    left': set<Node>, right': set<Node>, best: Option<Pair>, best': Option<Pair>)
    requires Covers(table, costs, left, right, best) && Improves(table, costs, left', right', best, best')
    ensures Covers(table, costs, left, right, best')
  {
    forall a, b | Candidate(table, costs, left, right, (a, b))
      ensures best'.Some? && best'.value in costs && costs[best'.value] <= costs[(a, b)]
    {
      assert best.Some? && best.value in costs && costs[best.value] <= costs[(a, b)];
    }
  }

  method Consider(table: EdgeTable, pos: map<Node, Point>, mapped: set<Node>, a: Node, b: Node, best: Option<Pair>)
    returns (best': Option<Pair>)
    requires a in mapped && b in mapped && mapped <= pos.Keys
    requires best.Some? ==> best.value in BridgeCosts(pos, mapped)
    ensures Improves(table, BridgeCosts(pos, mapped), {a}, {b}, best, best')
    ensures Covers(table, BridgeCosts(pos, mapped), {a}, {b}, best')
  {
    best' := best;
    if Key(a, b) in table {
      return;
    }
    var d := SqDist(pos[a], pos[b]);
    if d > BRIDGE_MAX_METRES * BRIDGE_MAX_METRES {
      return;
    }
    assert (a, b) in BridgeCosts(pos, mapped) && BridgeCosts(pos, mapped)[(a, b)] == d;
    if best.None? || d < SqDist(pos[best.value.0], pos[best.value.1]) {
      best' := Some((a, b));
    }
  }

  method ScanFrom(table: EdgeTable, pos: map<Node, Point>, mapped: set<Node>, a: Node, right: set<Node>,
                  best: Option<Pair>)
    returns (best': Option<Pair>)
    requires a in mapped && right <= mapped && mapped <= pos.Keys
    requires best.Some? ==> best.value in BridgeCosts(pos, mapped)
    ensures Improves(table, BridgeCosts(pos, mapped), {a}, right, best, best')
    ensures Covers(table, BridgeCosts(pos, mapped), {a}, right, best')
  {
    ghost var costs := BridgeCosts(pos, mapped);
    best' := best;
    var scanned := {};
    while scanned != right
      invariant scanned <= right
      invariant Improves(table, costs, {a}, right, best, best')
      invariant Covers(table, costs, {a}, scanned, best')
      decreases right - scanned
    {
      var b :| b in right && b !in scanned;
      ghost var was := best';
      best' := Consider(table, pos, mapped, a, b, best');
      StillCovers(table, costs, {a}, scanned, {a}, {b}, was, best');
      CoversMore(table, costs, {a}, scanned, {b}, best');
      scanned := scanned + {b};
    }
  }

  lemma CoversMore(table: EdgeTable, costs: Costs, left: set<Node>, right: set<Node>, more: set<Node>,
                   best: Option<Pair>)
    requires Covers(table, costs, left, right, best)
    ensures Covers(table, costs, left, more, best) ==> Covers(table, costs, left, right + more, best)
    ensures Covers(table, costs, more, right, best) ==> Covers(table, costs, left + more, right, best)
  {}

  method ScanPair(table: EdgeTable, pos: map<Node, Point>, mapped: set<Node>, left: set<Node>, right: set<Node>,
                  best: Option<Pair>)
    returns (best': Option<Pair>)
    requires left <= mapped && right <= mapped && mapped <= pos.Keys
    requires best.Some? ==> best.value in BridgeCosts(pos, mapped)
    ensures Improves(table, BridgeCosts(pos, mapped), left, right, best, best')
    ensures Covers(table, BridgeCosts(pos, mapped), left, right, best')
  {
    ghost var costs := BridgeCosts(pos, mapped);
    best' := best;
    var scanned := {};
    while scanned != left
      invariant scanned <= left
      invariant Improves(table, costs, left, right, best, best')
      invariant Covers(table, costs, scanned, right, best')
      decreases left - scanned
    {
      var a :| a in left && a !in scanned;
      ghost var was := best';
      best' := ScanFrom(table, pos, mapped, a, right, best');
      StillCovers(table, costs, scanned, right, {a}, right, was, best');
      CoversMore(table, costs, scanned, right, {a}, best');
      scanned := scanned + {a};
    }
  }

  /** The closest pair of mapped stations in two different components. */
  method ClosestBridge(table: EdgeTable, pos: map<Node, Point>, mapped: set<Node>, cs: seq<set<Node>>,
                       ghost nodes: set<Node>, ghost es: Edges)
    returns (best: Option<Pair>)
    requires mapped <= pos.Keys == nodes && Within(es, nodes) && table.Keys <= es
    requires IsComponentList(nodes, es, cs)
    ensures best.None? ==> Exhausted(BridgeCosts(pos, mapped), es)
    ensures best.Some? ==> Cheapest(BridgeCosts(pos, mapped), es, best.value)
  {
    ghost var costs := BridgeCosts(pos, mapped);
    best := None;
    for i := 0 to |cs|
      invariant ScannedUpTo(table, costs, mapped, cs, i, i + 1, best)
      invariant best.Some? ==> best.value in costs && Crosses(es, best.value)
    {
      for j := i + 1 to |cs|
        invariant ScannedUpTo(table, costs, mapped, cs, i, j, best)
        invariant best.Some? ==> best.value in costs && Crosses(es, best.value)
      {
        var left, right := cs[i] * mapped, cs[j] * mapped;
        if left != {} && right != {} {
          ghost var was := best;
          best := ScanPair(table, pos, mapped, left, right, best);
          StillScanned(table, costs, mapped, cs, i, j, left, right, was, best);
          if best != was {
            BetweenComponentsCrosses(nodes, es, cs, i, j, best.value);
          }
        }
      }
    }
    BridgeCostsMirrored(pos, mapped);
    forall e | e in costs && Crosses(es, e)
      ensures best.Some? && best.value in costs && costs[best.value] <= costs[e]
    {
      NoCheaperCrossing(table, costs, mapped, cs, nodes, es, best, e);
    }
  }

  /** The component pairs before (i, j) in the order of the two loops have been scanned. */
  ghost predicate ScannedUpTo(table: EdgeTable, costs: Costs, mapped: set<Node>, cs: seq<set<Node>>, i: nat, j: nat,
                              best: Option<Pair>) {
    forall i', j' | 0 <= i' < j' < |cs| && (i' < i || (i' == i && j' < j)) ::
      Covers(table, costs, cs[i'] * mapped, cs[j'] * mapped, best)
  }

  lemma StillScanned(table: EdgeTable, costs: Costs, mapped: set<Node>, cs: seq<set<Node>>, i: nat, j: nat,
                     left: set<Node>, right: set<Node>, best: Option<Pair>, best': Option<Pair>)
    requires ScannedUpTo(table, costs, mapped, cs, i, j, best)
    requires Improves(table, costs, left, right, best, best')
    ensures ScannedUpTo(table, costs, mapped, cs, i, j, best')
  {
    forall i', j' | 0 <= i' < j' < |cs| && (i' < i || (i' == i && j' < j))
      ensures Covers(table, costs, cs[i'] * mapped, cs[j'] * mapped, best')
    {
      StillCovers(table, costs, cs[i'] * mapped, cs[j'] * mapped, left, right, best, best');
    }
  }

  /** Costs do not depend on the order of a pair and cover mapped stations only. */
  ghost predicate Mirrored(costs: Costs, mapped: set<Node>) {
    forall e | e in costs :: e.0 in mapped && e.1 in mapped && (e.1, e.0) in costs && costs[(e.1, e.0)] == costs[e]
  }

  lemma BridgeCostsMirrored(pos: map<Node, Point>, mapped: set<Node>)
    requires mapped <= pos.Keys
    ensures Mirrored(BridgeCosts(pos, mapped), mapped)
  {}

  lemma NoCheaperCrossing(table: EdgeTable, costs: Costs, mapped: set<Node>, cs: seq<set<Node>>,
                          nodes: set<Node>, es: Edges, best: Option<Pair>, e: Pair)
    requires mapped <= nodes && Mirrored(costs, mapped) && table.Keys <= es && IsComponentList(nodes, es, cs)
    requires ScannedUpTo(table, costs, mapped, cs, |cs|, |cs| + 1, best)
    requires e in costs && Crosses(es, e)
    ensures best.Some? && best.value in costs && costs[best.value] <= costs[e]
  {
    var i, j, f := CrossingIsCandidate(table, costs, mapped, cs, nodes, es, e);
    assert Covers(table, costs, cs[i] * mapped, cs[j] * mapped, best);
    assert Candidate(table, costs, cs[i] * mapped, cs[j] * mapped, (f.0, f.1));
  }

  lemma BetweenComponentsCrosses(nodes: set<Node>, es: Edges, cs: seq<set<Node>>, i: nat, j: nat, e: Pair)
    requires IsComponentList(nodes, es, cs) && i < j < |cs|
    requires e.0 in cs[i] && e.1 in cs[j]
    ensures Crosses(es, e)
  {
    ComponentListed(nodes, es, cs, i, e.0);
    ComponentListed(nodes, es, cs, j, e.1);
    SameComponent(nodes, es, e.0, e.1);
  }

  /** The i-th listed set is the component of each of its members. */
  lemma ComponentListed(nodes: set<Node>, es: Edges, cs: seq<set<Node>>, i: nat, v: Node)
    requires IsComponentList(nodes, es, cs) && i < |cs| && v in cs[i]
    ensures v in nodes && cs[i] == Component(nodes, es, v)
  {
    assert cs[i] in Components(nodes, es);
    var u :| u in nodes && Component(nodes, es, u) == cs[i];
    SameComponent(nodes, es, u, v);
  }

  lemma CrossingIsCandidate(table: EdgeTable, costs: Costs, mapped: set<Node>, cs: seq<set<Node>>,
                            nodes: set<Node>, es: Edges, e: Pair)
    returns (i: nat, j: nat, f: Pair)
    requires mapped <= nodes && Mirrored(costs, mapped) && table.Keys <= es && IsComponentList(nodes, es, cs)
    requires e in costs && Crosses(es, e)
    ensures i < j < |cs| && Candidate(table, costs, cs[i] * mapped, cs[j] * mapped, f)
    ensures costs[f] == costs[e]
  {
    var c0, c1 := Component(nodes, es, e.0), Component(nodes, es, e.1);
    assert c0 in Components(nodes, es) && c1 in Components(nodes, es);
    i :| 0 <= i < |cs| && cs[i] == c0;
    j :| 0 <= j < |cs| && cs[j] == c1;
    Reflexive(es, e.0);
    Reflexive(es, e.1);
    if Key(e.0, e.1) in table || Key(e.1, e.0) in table {
      OneEdge(es, e.0, e.1);
    }
    SameComponent(nodes, es, e.0, e.1);
    f := e;
    if j < i {
      i, j, f := j, i, (e.1, e.0);
    }
  }

  // ---- Service candidates ----

  datatype ServiceCandidate = ServiceCandidate(trips: nat, key: Pair)

  /** The order of a reverse sort on (trips, key). */
  predicate SortsBefore(c: ServiceCandidate, d: ServiceCandidate) {
    || c.trips > d.trips
    || (c.trips == d.trips && (LexLess(d.key.0, c.key.0) || (c.key.0 == d.key.0 && LexLess(d.key.1, c.key.1))))
  }

  function Insert(c: ServiceCandidate, s: seq<ServiceCandidate>): seq<ServiceCandidate> {
    if s == [] || SortsBefore(c, s[0]) then [c] + s else [s[0]] + Insert(c, s[1..])
  }

  ghost predicate Descending(s: seq<ServiceCandidate>) {
    forall i, j | 0 <= i < j < |s| :: s[i].trips >= s[j].trips
  }

  lemma {:induction false} InsertKeepsOrder(c: ServiceCandidate, s: seq<ServiceCandidate>)
    requires Descending(s)
    ensures Descending(Insert(c, s))
    ensures forall x :: x in Insert(c, s) <==> x == c || x in s
    decreases |s|
  {
    if s == [] || SortsBefore(c, s[0]) {
    } else {
      InsertKeepsOrder(c, s[1..]);
      forall x | x in Insert(c, s[1..])
        ensures s[0].trips >= x.trips
      {}
      assert forall x | x in s :: x == s[0] || x in s[1..];
    }
  }

  /** The candidates between different components, most observed trips first. */
  method CollectServiceCandidates(table: EdgeTable, evidence: map<Pair, nat>, ids: map<Node, nat>)
    returns (candidates: seq<ServiceCandidate>)
    ensures Descending(candidates)
    ensures forall c :: c in candidates <==>
              && c.key in evidence && c.trips == evidence[c.key] && c.trips >= SERVICE_MIN_TRIPS && c.key !in table
              && c.key.0 in ids && c.key.1 in ids && ids[c.key.0] != ids[c.key.1]
  {
    candidates := [];
    var scanned: set<Pair> := {};
    while scanned != evidence.Keys
      invariant scanned <= evidence.Keys
      invariant Descending(candidates)
      invariant forall c :: c in candidates <==>
              && c.key in scanned && c.trips == evidence[c.key] && c.trips >= SERVICE_MIN_TRIPS && c.key !in table
              && c.key.0 in ids && c.key.1 in ids && ids[c.key.0] != ids[c.key.1]
      decreases evidence.Keys - scanned
    {
      var key :| key in evidence.Keys && key !in scanned;
      scanned := scanned + {key};
      if key !in table && key.0 in ids && key.1 in ids && ids[key.0] != ids[key.1] &&
        evidence[key] >= SERVICE_MIN_TRIPS {
        var c := ServiceCandidate(evidence[key], key);
        InsertKeepsOrder(c, candidates);
        candidates := Insert(c, candidates);
      }
    }
  }

  /** ids tells the components of es apart. */
  ghost predicate Labels(nodes: set<Node>, es: Edges, ids: map<Node, nat>) {
    && ids.Keys == nodes
    && forall a, b | a in nodes && b in nodes :: ids[a] == ids[b] <==> Connected(es, a, b)
  }

  method ComponentIds(nodes: set<Node>, es: Edges) returns (ids: map<Node, nat>)
    requires Within(es, nodes)
    ensures Labels(nodes, es, ids)
  {
    var cs := ConnectedComponents(nodes, es);
    ids := map[];
    for i := 0 to |cs|
      invariant forall v | v in ids :: v in nodes && ids[v] < i && v in cs[ids[v]]
      invariant forall k, v | 0 <= k < i && v in cs[k] :: v in ids
    {
      forall v | v in cs[i]
        ensures v in nodes
      {
        ComponentListed(nodes, es, cs, i, v);
      }
      ids := ids + map v | v in cs[i] :: i;
    }
    forall v | v in nodes
      ensures v in ids && cs[ids[v]] == Component(nodes, es, v)
    {
      Reflexive(es, v);
      assert Component(nodes, es, v) in Components(nodes, es);
      var i :| 0 <= i < |cs| && cs[i] == Component(nodes, es, v);
      assert v in cs[i];
      ComponentListed(nodes, es, cs, ids[v], v);
    }
    forall a, b | a in nodes && b in nodes
      ensures ids[a] == ids[b] <==> Connected(es, a, b)
    {
      SameComponent(nodes, es, a, b);
    }
  }

  // ---- The two joining loops ----

  /** The old rows unchanged, plus one new row of the given derivation for each key added. */
  ghost predicate Added(before: EdgeTable, after: EdgeTable, keys: seq<Pair>, derivedFrom: Derivation) {
    && after.Keys == With(before.Keys, keys)
    && (forall k | k in before :: after[k] == before[k])
    && (forall k | k in keys :: k !in before && after[k] == Edge(k.0, k.1, derivedFrom))
  }

  lemma AddedExtends(before: EdgeTable, after: EdgeTable, keys: seq<Pair>, key: Pair, derivedFrom: Derivation)
    requires Added(before, after, keys, derivedFrom) && key !in after
    ensures Added(before, after[key := Edge(key.0, key.1, derivedFrom)], keys + [key], derivedFrom)
  {
    var more := after[key := Edge(key.0, key.1, derivedFrom)];
    assert more.Keys == after.Keys + {key};
    forall k | k in keys + [key]
      ensures k !in before && more[k] == Edge(k.0, k.1, derivedFrom)
    {
      assert k in keys || k == key;
    }
  }

  lemma KeyIsCheapest(pos: map<Node, Point>, mapped: set<Node>, es: Edges, e: Pair)
    requires mapped <= pos.Keys && Cheapest(BridgeCosts(pos, mapped), es, e)
    ensures Cheapest(BridgeCosts(pos, mapped), es, Key(e.0, e.1))
  {
    if Connected(es, e.1, e.0) {
      Symmetric(es, e.1, e.0);
    }
    assert (e.1, e.0) in BridgeCosts(pos, mapped);
  }

  method BridgeByGeometry(physicalEdges: EdgeTable, pos: map<Node, Point>, vertexMap: map<Node, Point>)
    returns (edges: EdgeTable, ghost bridges: seq<Pair>)
    requires Within(physicalEdges.Keys, pos.Keys) && vertexMap.Keys <= pos.Keys
    ensures Added(physicalEdges, edges, bridges, GeometryComponentBridge)
    ensures Within(edges.Keys, pos.Keys)
    ensures Greedy(BridgeCosts(pos, vertexMap.Keys), physicalEdges.Keys, bridges)
    ensures Exhausted(BridgeCosts(pos, vertexMap.Keys), edges.Keys)
    ensures forall b | b in bridges :: !LexLess(b.1, b.0)
  {
    ghost var costs := BridgeCosts(pos, vertexMap.Keys);
    var nodes := pos.Keys;
    edges, bridges := physicalEdges, [];
    while true
      invariant Added(physicalEdges, edges, bridges, GeometryComponentBridge)
      invariant Within(edges.Keys, nodes)
      invariant Greedy(costs, physicalEdges.Keys, bridges)
      invariant forall b | b in bridges :: !LexLess(b.1, b.0)
      decreases |Components(nodes, edges.Keys)|
    {
      ghost var es := edges.Keys;
      var cs := ConnectedComponents(nodes, edges.Keys);
      if |cs| <= 1 {
        OneComponentExhausts(nodes, es, cs, costs);
        return;
      }
      var best := ClosestBridge(edges, pos, vertexMap.Keys, cs, nodes, es);
      if best.None? {
        return;
      }
      var key := Key(best.value.0, best.value.1);
      LexLessIsTotal(best.value.0, best.value.1);
      KeyIsCheapest(pos, vertexMap.Keys, es, best.value);
      GreedyExtends(costs, physicalEdges.Keys, bridges, key);
      NewKey(es, key);
      BridgeMerges(nodes, es, key.0, key.1);
      AddedExtends(physicalEdges, edges, bridges, key, GeometryComponentBridge);
      edges := edges[key := Edge(key.0, key.1, GeometryComponentBridge)];
      bridges := bridges + [key];
      assert edges.Keys == es + {key};
    }
  }

  lemma NewKey(es: Edges, key: Pair)
    requires Crosses(es, key)
    ensures key !in es
  {
    if key in es {
      OneEdge(es, key.0, key.1);
    }
  }

  lemma OneComponentExhausts(nodes: set<Node>, es: Edges, cs: seq<set<Node>>, costs: Costs)
    requires IsComponentList(nodes, es, cs) && |cs| <= 1
    requires forall e | e in costs :: e.0 in nodes && e.1 in nodes
    ensures Exhausted(costs, es)
  {
    forall e | e in costs
      ensures Connected(es, e.0, e.1)
    {
      assert Component(nodes, es, e.0) in Components(nodes, es) && Component(nodes, es, e.1) in Components(nodes, es);
      assert Component(nodes, es, e.0) == cs[0] == Component(nodes, es, e.1);
      SameComponent(nodes, es, e.0, e.1);
    }
  }

  method BridgeByService(physicalEdges: EdgeTable, nodes: set<Node>, evidence: map<Pair, nat>)
    returns (edges: EdgeTable, ghost services: seq<Pair>)
    requires Within(physicalEdges.Keys, nodes)
    ensures Added(physicalEdges, edges, services, ServiceBridge)
    ensures Greedy(ServiceCosts(evidence, nodes), physicalEdges.Keys, services)
    ensures Exhausted(ServiceCosts(evidence, nodes), edges.Keys)
  {
    ghost var costs := ServiceCosts(evidence, nodes);
    edges, services := physicalEdges, [];
    var ids := ComponentIds(nodes, edges.Keys);
    var candidates := CollectServiceCandidates(edges, evidence, ids);
    forall e | e in costs && Crosses(physicalEdges.Keys, e)
      ensures ServiceCandidate(evidence[e], e) in candidates
    {
      if e in physicalEdges {
        OneEdge(physicalEdges.Keys, e.0, e.1);
      }
    }
    for i := 0 to |candidates|
      invariant ServicesSoFar(physicalEdges, nodes, evidence, candidates, i, edges, services)
      invariant Labels(nodes, edges.Keys, ids)
    {
      var key := candidates[i].key;
      assert candidates[i] in candidates;
      if ids[key.0] != ids[key.1] {
        AddService(physicalEdges, nodes, evidence, candidates, i, edges, services);
        edges := edges[key := Edge(key.0, key.1, ServiceBridge)];
        services := services + [key];
        ids := ComponentIds(nodes, edges.Keys);
        if |ids.Values| <= 1 {
          forall e | e in costs
            ensures Connected(edges.Keys, e.0, e.1)
          {
            AtMostOne(ids.Values, ids[e.0], ids[e.1]);
          }
          return;
        }
      }
    }
    ServicesExhausted(evidence, nodes, physicalEdges.Keys, edges.Keys, candidates);
  }

  ghost predicate ServicesSoFar(before: EdgeTable, nodes: set<Node>, evidence: map<Pair, nat>,
                                candidates: seq<ServiceCandidate>, i: nat, edges: EdgeTable, services: seq<Pair>)
    requires i <= |candidates|
  {
    && Added(before, edges, services, ServiceBridge)
    && Within(edges.Keys, nodes)
    && Greedy(ServiceCosts(evidence, nodes), before.Keys, services)
    && forall k | 0 <= k < i :: Connected(edges.Keys, candidates[k].key.0, candidates[k].key.1)
  }

  lemma ServiceIsGreedy(before: Edges, nodes: set<Node>, evidence: map<Pair, nat>,
                        candidates: seq<ServiceCandidate>, i: nat, es: Edges, services: seq<Pair>)
    requires i < |candidates| && Descending(candidates) && AllListed(evidence, nodes, before, candidates)
    requires es == With(before, services) && Greedy(ServiceCosts(evidence, nodes), before, services)
    requires forall k | 0 <= k < i :: Connected(es, candidates[k].key.0, candidates[k].key.1)
    requires var c := candidates[i]; c.key in ServiceCosts(evidence, nodes) && c.trips == evidence[c.key]
    requires Crosses(es, candidates[i].key)
    ensures Greedy(ServiceCosts(evidence, nodes), before, services + [candidates[i].key])
  {
    NextServiceIsCheapest(evidence, nodes, before, es, candidates, i);
    GreedyExtends(ServiceCosts(evidence, nodes), before, services, candidates[i].key);
  }

  lemma ServiceConnects(nodes: set<Node>, candidates: seq<ServiceCandidate>, i: nat, es: Edges)
    requires i < |candidates| && Within(es, nodes) && candidates[i].key.0 in nodes && candidates[i].key.1 in nodes
    requires forall k | 0 <= k < i :: Connected(es, candidates[k].key.0, candidates[k].key.1)
    ensures var more := es + {candidates[i].key};
            && Within(more, nodes)
            && forall k | 0 <= k < i + 1 :: Connected(more, candidates[k].key.0, candidates[k].key.1)
  {
    var key := candidates[i].key;
    OneEdge(es + {key}, key.0, key.1);
    StayConnected(es, es + {key}, candidates, i);
  }

  lemma AddService(before: EdgeTable, nodes: set<Node>, evidence: map<Pair, nat>,
                   candidates: seq<ServiceCandidate>, i: nat, edges: EdgeTable, services: seq<Pair>)
    requires i < |candidates| && Descending(candidates) && AllListed(evidence, nodes, before.Keys, candidates)
    requires ServicesSoFar(before, nodes, evidence, candidates, i, edges, services)
    requires var c := candidates[i]; c.key in ServiceCosts(evidence, nodes) && c.trips == evidence[c.key]
    requires Crosses(edges.Keys, candidates[i].key)
    ensures var key := candidates[i].key;
            ServicesSoFar(before, nodes, evidence, candidates, i + 1, edges[key := Edge(key.0, key.1, ServiceBridge)],
                          services + [key])
  {
    var key := candidates[i].key;
    ServiceIsGreedy(before.Keys, nodes, evidence, candidates, i, edges.Keys, services);
    ServiceConnects(nodes, candidates, i, edges.Keys);
    NewKey(edges.Keys, key);
    AddedExtends(before, edges, services, key, ServiceBridge);
    assert edges[key := Edge(key.0, key.1, ServiceBridge)].Keys == edges.Keys + {key};
  }

  lemma StayConnected(es: Edges, more: Edges, candidates: seq<ServiceCandidate>, i: nat)
    requires es <= more && i <= |candidates|
    requires forall k | 0 <= k < i :: Connected(es, candidates[k].key.0, candidates[k].key.1)
    ensures forall k | 0 <= k < i :: Connected(more, candidates[k].key.0, candidates[k].key.1)
  {
    forall k | 0 <= k < i
      ensures Connected(more, candidates[k].key.0, candidates[k].key.1)
    {
      Monotone(es, more, candidates[k].key.0, candidates[k].key.1);
    }
  }

  lemma AtMostOne(s: set<nat>, x: nat, y: nat)
    requires |s| <= 1 && x in s && y in s
    ensures x == y
  {
    assert |s - {x}| == |s| - 1;
    assert y !in s - {x};
  }

  /** Every service pair that could still cross is among the candidates. */
  ghost predicate AllListed(evidence: map<Pair, nat>, nodes: set<Node>, base: Edges,
                            candidates: seq<ServiceCandidate>) {
    forall e | e in ServiceCosts(evidence, nodes) && Crosses(base, e) :: ServiceCandidate(evidence[e], e) in candidates
  }

  lemma NextServiceIsCheapest(evidence: map<Pair, nat>, nodes: set<Node>, base: Edges, es: Edges,
                              candidates: seq<ServiceCandidate>, i: nat)
    requires base <= es && i < |candidates| && Descending(candidates)
    requires AllListed(evidence, nodes, base, candidates)
    requires forall k | 0 <= k < i :: Connected(es, candidates[k].key.0, candidates[k].key.1)
    requires var c := candidates[i]; c.key in ServiceCosts(evidence, nodes) && c.trips == evidence[c.key]
    requires Crosses(es, candidates[i].key)
    ensures Cheapest(ServiceCosts(evidence, nodes), es, candidates[i].key)
  {
    var costs := ServiceCosts(evidence, nodes);
    forall e | e in costs && Crosses(es, e)
      ensures costs[candidates[i].key] <= costs[e]
    {
      if Connected(base, e.0, e.1) {
        Monotone(base, es, e.0, e.1);
      }
      var k :| 0 <= k < |candidates| && candidates[k] == ServiceCandidate(evidence[e], e);
      assert i <= k;
    }
  }

  lemma ServicesExhausted(evidence: map<Pair, nat>, nodes: set<Node>, base: Edges, es: Edges,
                          candidates: seq<ServiceCandidate>)
    requires base <= es && AllListed(evidence, nodes, base, candidates)
    requires forall k | 0 <= k < |candidates| :: Connected(es, candidates[k].key.0, candidates[k].key.1)
    ensures Exhausted(ServiceCosts(evidence, nodes), es)
  {
    forall e | e in ServiceCosts(evidence, nodes)
      ensures Connected(es, e.0, e.1)
    {
      if Connected(base, e.0, e.1) {
        Monotone(base, es, e.0, e.1);
      } else {
        var k :| 0 <= k < |candidates| && candidates[k] == ServiceCandidate(evidence[e], e);
      }
    }
  }

  /** At most 120 kilometres. */
  predicate InReach(p: Point, q: Point) {
    (p.x - q.x) * (p.x - q.x) + (p.y - q.y) * (p.y - q.y) <= 120_000.0 * 120_000.0
  }

  /** Each bridge joins two mapped stations in reach of each other across components, the closest that are left. */
  ghost predicate AreClosestBridges(pos: map<Node, Point>, mapped: set<Node>, es: Edges, bridges: seq<Pair>)
    requires mapped <= pos.Keys
  {
    forall i | 0 <= i < |bridges| ::
      var b, before := bridges[i], With(es, bridges[..i]);
      && b.0 in mapped && b.1 in mapped && InReach(pos[b.0], pos[b.1]) && !Connected(before, b.0, b.1)
      && forall c, d | c in mapped && d in mapped && !Connected(before, c, d) ::
           SqDist(pos[b.0], pos[b.1]) <= SqDist(pos[c], pos[d])
  }

  /** Each service joins two stations across components with at least 20 trips, the most that are left. */
  ghost predicate AreBusiestServices(evidence: map<Pair, nat>, nodes: set<Node>, es: Edges, services: seq<Pair>) {
    forall i | 0 <= i < |services| ::
      var s, before := services[i], With(es, services[..i]);
      && s in evidence && s.0 in nodes && s.1 in nodes && evidence[s] >= 20 && !Connected(before, s.0, s.1)
      && forall e | e in evidence && e.0 in nodes && e.1 in nodes && !Connected(before, e.0, e.1) ::
           evidence[e] <= evidence[s]
  }

  lemma GreedyBridgesAreClosest(pos: map<Node, Point>, mapped: set<Node>, es: Edges, bridges: seq<Pair>)
    requires mapped <= pos.Keys && Greedy(BridgeCosts(pos, mapped), es, bridges)
    ensures AreClosestBridges(pos, mapped, es, bridges)
  {
    var costs := BridgeCosts(pos, mapped);
    forall i | 0 <= i < |bridges|
      ensures bridges[i] in costs && Crosses(With(es, bridges[..i]), bridges[i])
      ensures InReach(pos[bridges[i].0], pos[bridges[i].1])
      ensures forall c, d | c in mapped && d in mapped && !Connected(With(es, bridges[..i]), c, d) ::
                costs[bridges[i]] <= SqDist(pos[c], pos[d])
    {
      assert Cheapest(costs, With(es, bridges[..i]), bridges[i]);
      ReachInCosts(pos, mapped, bridges[i].0, bridges[i].1);
      forall c, d | c in mapped && d in mapped && !Connected(With(es, bridges[..i]), c, d)
        ensures costs[bridges[i]] <= SqDist(pos[c], pos[d])
      {
        if (c, d) in costs {
          assert Crosses(With(es, bridges[..i]), (c, d));
        }
      }
    }
  }

  lemma ReachInCosts(pos: map<Node, Point>, mapped: set<Node>, a: Node, b: Node)
    requires mapped <= pos.Keys && a in mapped && b in mapped
    ensures (a, b) in BridgeCosts(pos, mapped) <==> InReach(pos[a], pos[b])
  {
    var p, q := pos[a], pos[b];
    assert SqDist(p, q) == (p.x - q.x) * (p.x - q.x) + (p.y - q.y) * (p.y - q.y);
  }

  lemma ReachIsConnected(pos: map<Node, Point>, mapped: set<Node>, es: Edges)
    requires mapped <= pos.Keys && Exhausted(BridgeCosts(pos, mapped), es)
    ensures forall a, b | a in mapped && b in mapped && InReach(pos[a], pos[b]) :: Connected(es, a, b)
  {
    forall a, b | a in mapped && b in mapped && InReach(pos[a], pos[b])
      ensures Connected(es, a, b)
    {
      ReachInCosts(pos, mapped, a, b);
      assert (a, b) in BridgeCosts(pos, mapped);
    }
  }

  lemma GreedyServicesAreBusiest(evidence: map<Pair, nat>, nodes: set<Node>, es: Edges, services: seq<Pair>)
    requires Greedy(ServiceCosts(evidence, nodes), es, services)
    ensures AreBusiestServices(evidence, nodes, es, services)
  {
    var costs := ServiceCosts(evidence, nodes);
    forall i | 0 <= i < |services|
      ensures services[i] in costs && Crosses(With(es, services[..i]), services[i])
      ensures var before := With(es, services[..i]);
              forall e | e in evidence && e.0 in nodes && e.1 in nodes && !Connected(before, e.0, e.1) ::
                evidence[e] <= evidence[services[i]]
    {
      var before := With(es, services[..i]);
      assert Cheapest(costs, before, services[i]);
      forall e | e in evidence && e.0 in nodes && e.1 in nodes && !Connected(before, e.0, e.1)
        ensures evidence[e] <= evidence[services[i]]
      {
        if e in costs {
          assert Crosses(before, e) && costs[services[i]] <= costs[e];
        }
      }
    }
  }

  method AddComponentBridges(physicalEdges: EdgeTable, stations: seq<Station>, evidence: map<Pair, nat>,
                             vertexMap: map<Node, Point>)
    returns (edges: EdgeTable, ghost bridged: EdgeTable, ghost bridges: seq<Pair>, ghost services: seq<Pair>)
    requires WellKeyed(physicalEdges, ByCode(stations).Keys)
    requires vertexMap.Keys <= ByCode(stations).Keys
    ensures Added(physicalEdges, bridged, bridges, GeometryComponentBridge)
    ensures Added(bridged, edges, services, ServiceBridge)
    ensures forall b | b in bridges :: !LexLess(b.1, b.0)
    ensures WellKeyed(edges, ByCode(stations).Keys)
    ensures Greedy(BridgeCosts(ByCode(stations), vertexMap.Keys), physicalEdges.Keys, bridges)
    ensures Exhausted(BridgeCosts(ByCode(stations), vertexMap.Keys), bridged.Keys)
    ensures Greedy(ServiceCosts(evidence, ByCode(stations).Keys), bridged.Keys, services)
    ensures Exhausted(ServiceCosts(evidence, ByCode(stations).Keys), edges.Keys)
    ensures AreClosestBridges(ByCode(stations), vertexMap.Keys, physicalEdges.Keys, bridges)
    ensures var pos := ByCode(stations);
            forall a, b | a in vertexMap && b in vertexMap && InReach(pos[a], pos[b]) :: Connected(bridged.Keys, a, b)
    ensures AreBusiestServices(evidence, ByCode(stations).Keys, bridged.Keys, services)
    ensures var nodes := ByCode(stations).Keys;
            forall e | e in evidence && e.0 in nodes && e.1 in nodes && evidence[e] >= 20 ::
              Connected(edges.Keys, e.0, e.1)
  {
    var pos := ByCode(stations);
    var joined;
    joined, bridges := BridgeByGeometry(physicalEdges, pos, vertexMap);
    bridged := joined;
    edges, services := BridgeByService(joined, pos.Keys, evidence);
    GreedyPicksEligible(ServiceCosts(evidence, pos.Keys), joined.Keys, services);
    GreedyBridgesAreClosest(pos, vertexMap.Keys, physicalEdges.Keys, bridges);
    ReachIsConnected(pos, vertexMap.Keys, bridged.Keys);
    GreedyServicesAreBusiest(evidence, pos.Keys, bridged.Keys, services);
    forall e | e in evidence && e.0 in pos && e.1 in pos && evidence[e] >= 20
      ensures Connected(edges.Keys, e.0, e.1)
    {
      assert e in ServiceCosts(evidence, pos.Keys);
    }
  }

  // ---- What the bridges achieve ----

  /**
   The geometry bridges have the least total length of all lists of eligible pairs that
   connect the same stations. Length may be any nondecreasing non-negative function of the
   squared distance: the distance in kilometres, or 1 for a count of bridges.
   */
  lemma BridgesAreShortest(pos: map<Node, Point>, mapped: set<Node>, length: real -> real, es: Edges,
                           bridges: seq<Pair>, rivals: seq<Pair>)
    requires mapped <= pos.Keys && Within(es, pos.Keys)
    requires (forall x, y | x <= y :: length(x) <= length(y)) && length(0.0) >= 0.0
    requires Greedy(BridgeCosts(pos, mapped), es, bridges)
    requires Rival(BridgeCosts(pos, mapped), es, bridges, rivals)
    ensures forall b | b in bridges :: b in BridgeCosts(pos, mapped)
    ensures var prices := Priced(BridgeCosts(pos, mapped), length);
            Total(prices, bridges) <= Total(prices, rivals)
  {
    var costs := BridgeCosts(pos, mapped);
    forall e | e in costs
      ensures length(costs[e]) >= 0.0
    {
      assert costs[e] >= 0.0;
    }
    GreedyMinimalAtAnyPrice(pos.Keys, costs, length, es, bridges, rivals);
  }

  /**
   The service bridges are the busiest: for every trip count t, no list of service pairs that
   connects the same stations contains fewer pairs with less than t trips.
   */
  lemma ServicesAreBusiest(evidence: map<Pair, nat>, nodes: set<Node>, t: nat, es: Edges, services: seq<Pair>,
                           rivals: seq<Pair>)
    requires Within(es, nodes)
    requires Greedy(ServiceCosts(evidence, nodes), es, services)
    requires Rival(ServiceCosts(evidence, nodes), es, services, rivals)
    ensures Quieter(evidence, services, t) <= Quieter(evidence, rivals, t)
  {
    var costs := ServiceCosts(evidence, nodes);
    var price := (c: real) => if c > -(t as real) then 1.0 else 0.0;
    GreedyMinimalAtAnyPrice(nodes, costs, price, es, services, rivals);
    QuieterIsPriced(evidence, nodes, price, services, t);
    QuieterIsPriced(evidence, nodes, price, rivals, t);
  }

  /** How many pairs of the list have fewer than t observed trips. */
  function Quieter(evidence: map<Pair, nat>, keys: seq<Pair>, t: nat): nat {
    if keys == [] then 0
    else (if keys[0] in evidence && evidence[keys[0]] < t then 1 else 0) + Quieter(evidence, keys[1..], t)
  }

  lemma {:induction false} QuieterIsPriced(evidence: map<Pair, nat>, nodes: set<Node>, price: real -> real,
                                           keys: seq<Pair>, t: nat)
    requires forall k | k in keys :: k in ServiceCosts(evidence, nodes)
    requires forall c :: price(c) == if c > -(t as real) then 1.0 else 0.0
    ensures Total(Priced(ServiceCosts(evidence, nodes), price), keys) == Quieter(evidence, keys, t) as real
    decreases |keys|
  {
    if keys == [] {
    } else {
      var costs, e := ServiceCosts(evidence, nodes), keys[0];
      assert e in costs && costs[e] == -(evidence[e] as real);
      assert Priced(costs, price)[e] == if evidence[e] < t then 1.0 else 0.0;
      QuieterIsPriced(evidence, nodes, price, keys[1..], t);
    }
  }

  /** Every pair a greedy run adds lowers the number of components by exactly one. */
  lemma {:induction false} EachAdditionMerges(nodes: set<Node>, costs: Costs, es: Edges, bs: seq<Pair>)
    requires forall e | e in costs :: e.0 in nodes && e.1 in nodes
    requires Greedy(costs, es, bs)
    ensures |Components(nodes, With(es, bs))| == |Components(nodes, es)| - |bs|
    decreases |bs|
  {
    if bs == [] {
      assert With(es, bs) == es;
    } else {
      GreedyTail(costs, es, bs);
      BridgeMerges(nodes, es, bs[0].0, bs[0].1);
      EachAdditionMerges(nodes, costs, es + {bs[0]}, bs[1..]);
      assert With(es, bs) == With(es + {bs[0]}, bs[1..]);
    }
  }
}
