/**
 Undirected graphs over named nodes: paths, connectivity, components, and the
 component computation the network scripts take from networkx.
 */
module Graph {
  type Node = string
  type Edges = set<(Node, Node)>

  predicate Adjacent(es: Edges, a: Node, b: Node) {
    (a, b) in es || (b, a) in es
  }

  ghost predicate Path(es: Edges, p: seq<Node>)
    decreases |p|
  {
    |p| > 0 && (|p| == 1 || (Adjacent(es, p[0], p[1]) && Path(es, p[1..])))
  }

  ghost predicate Joins(es: Edges, p: seq<Node>, a: Node, b: Node) {
    Path(es, p) && p[0] == a && p[|p| - 1] == b
  }

  ghost predicate Connected(es: Edges, a: Node, b: Node) {
    exists p :: Joins(es, p, a, b)
  }

  /** No edge leaves s. */
  ghost predicate Closed(es: Edges, s: set<Node>) {
    forall e | e in es :: e.0 in s <==> e.1 in s
  }

  /** The edges with no end in s. */
  function Outside(es: Edges, s: set<Node>): Edges {
    set e | e in es && e.0 !in s && e.1 !in s
  }

  ghost predicate Within(es: Edges, nodes: set<Node>) {
    forall e | e in es :: e.0 in nodes && e.1 in nodes
  }

  ghost function Component(nodes: set<Node>, es: Edges, v: Node): set<Node> {
    set u | u in nodes && Connected(es, v, u)
  }

  ghost function Components(nodes: set<Node>, es: Edges): set<set<Node>> {
    set v | v in nodes :: Component(nodes, es, v)
  }

  // ---- Connected is an equivalence, monotone in the edges ----

  lemma Reflexive(es: Edges, a: Node)
    ensures Connected(es, a, a)
  {
    assert Joins(es, [a], a, a);
  }

  lemma Prepend(es: Edges, a: Node, b: Node, c: Node)
    requires Adjacent(es, a, b) && Connected(es, b, c)
    ensures Connected(es, a, c)
  {
    var p :| Joins(es, p, b, c);
    assert ([a] + p)[1..] == p;
    assert Joins(es, [a] + p, a, c);
  }

  lemma OneEdge(es: Edges, a: Node, b: Node)
    requires Adjacent(es, a, b)
    ensures Connected(es, a, b)
  {
    Reflexive(es, b);
    Prepend(es, a, b, b);
  }

  lemma {:induction false} TransitiveAlong(es: Edges, p: seq<Node>, a: Node, b: Node, c: Node)
    requires Joins(es, p, a, b) && Connected(es, b, c)
    ensures Connected(es, a, c)
    decreases |p|
  {
    if |p| <= 1 {
    } else {
      TransitiveAlong(es, p[1..], p[1], b, c);
      Prepend(es, a, p[1], c);
    }
  }

  lemma Transitive(es: Edges, a: Node, b: Node, c: Node)
    requires Connected(es, a, b) && Connected(es, b, c)
    ensures Connected(es, a, c)
  {
    var p :| Joins(es, p, a, b);
    TransitiveAlong(es, p, a, b, c);
  }

  lemma {:induction false} SymmetricAlong(es: Edges, p: seq<Node>, a: Node, b: Node)
    requires Joins(es, p, a, b)
    ensures Connected(es, b, a)
    decreases |p|
  {
    if |p| == 1 {
      Reflexive(es, a);
    } else {
      SymmetricAlong(es, p[1..], p[1], b);
      OneEdge(es, p[1], a);
      Transitive(es, b, p[1], a);
    }
  }

  lemma Symmetric(es: Edges, a: Node, b: Node)
    requires Connected(es, a, b)
    ensures Connected(es, b, a)
  {
    var p :| Joins(es, p, a, b);
    SymmetricAlong(es, p, a, b);
  }

  lemma {:induction false} MonotoneAlong(es: Edges, es': Edges, p: seq<Node>, a: Node, b: Node)
    requires es <= es' && Joins(es, p, a, b)
    ensures Connected(es', a, b)
    decreases |p|
  {
    if |p| == 1 {
      Reflexive(es', a);
    } else {
      MonotoneAlong(es, es', p[1..], p[1], b);
      Prepend(es', a, p[1], b);
    }
  }

  lemma Monotone(es: Edges, es': Edges, a: Node, b: Node)
    requires es <= es' && Connected(es, a, b)
    ensures Connected(es', a, b)
  {
    var p :| Joins(es, p, a, b);
    MonotoneAlong(es, es', p, a, b);
  }

  // ---- Cuts ----

  /** A path out of s has a last edge that leaves s; after it the path stays off s altogether. */
  lemma {:induction false} LastExitAlong(es: Edges, p: seq<Node>, s: set<Node>, a: Node, b: Node)
    returns (u: Node, v: Node)
    requires Joins(es, p, a, b) && a in s && b !in s
    ensures u in s && v !in s && Adjacent(es, u, v) && Connected(Outside(es, s), v, b)
    decreases |p|
  {
    if c :| c in p[1..] && c in s {
      var k :| 0 <= k < |p| - 1 && p[1..][k] == c;
      SuffixJoins(es, p, a, b, k + 1);
      u, v := LastExitAlong(es, p[k + 1..], s, c, b);
    } else {
      u, v := a, p[1];
      StaysOutside(es, p[1..], s, v, b);
    }
  }

  lemma {:induction false} SuffixJoins(es: Edges, p: seq<Node>, a: Node, b: Node, k: nat)
    requires Joins(es, p, a, b) && k < |p|
    ensures Joins(es, p[k..], p[k], b)
    decreases k
  {
    if k == 0 {
    } else {
      SuffixJoins(es, p[1..], p[1], b, k - 1);
      assert p[1..][k - 1..] == p[k..];
    }
  }

  lemma {:induction false} StaysOutside(es: Edges, p: seq<Node>, s: set<Node>, a: Node, b: Node)
    requires Joins(es, p, a, b) && forall c | c in p :: c !in s
    ensures Connected(Outside(es, s), a, b)
    decreases |p|
  {
    if |p| == 1 {
      Reflexive(Outside(es, s), a);
    } else {
      StaysOutside(es, p[1..], s, p[1], b);
      assert a in p && p[1] in p;
      Prepend(Outside(es, s), a, p[1], b);
    }
  }

  lemma LastExit(es: Edges, s: set<Node>, a: Node, b: Node) returns (u: Node, v: Node)
    requires Connected(es, a, b) && a in s && b !in s
    ensures u in s && v !in s && Adjacent(es, u, v) && Connected(Outside(es, s), v, b)
  {
    var p :| Joins(es, p, a, b);
    u, v := LastExitAlong(es, p, s, a, b);
  }

  lemma ClosedHolds(es: Edges, s: set<Node>, a: Node, b: Node)
    requires Closed(es, s) && Connected(es, a, b) && a in s
    ensures b in s
  {
    if b !in s {
      var u, v := LastExit(es, s, a, b);
    }
  }

  lemma ComponentClosed(nodes: set<Node>, es: Edges, v: Node)
    requires Within(es, nodes)
    ensures Closed(es, Component(nodes, es, v))
  {
    forall e | e in es
      ensures e.0 in Component(nodes, es, v) <==> e.1 in Component(nodes, es, v)
    {
      OneEdge(es, e.0, e.1);
      OneEdge(es, e.1, e.0);
      if Connected(es, v, e.0) {
        Transitive(es, v, e.0, e.1);
      }
      if Connected(es, v, e.1) {
        Transitive(es, v, e.1, e.0);
      }
    }
  }

  // ---- Adding edges ----

  /** If every edge of es' already joins connected nodes of es, es' connects nothing new. */
  lemma {:induction false} ImpliedAlong(es: Edges, es': Edges, p: seq<Node>, a: Node, b: Node)
    requires forall e | e in es' :: Connected(es, e.0, e.1)
    requires Joins(es', p, a, b)
    ensures Connected(es, a, b)
    decreases |p|
  {
    if |p| == 1 {
      Reflexive(es, a);
    } else {
      ImpliedAlong(es, es', p[1..], p[1], b);
      if (a, p[1]) !in es' {
        Symmetric(es, p[1], a);
      }
      Transitive(es, a, p[1], b);
    }
  }

  lemma Implied(es: Edges, es': Edges, a: Node, b: Node)
    requires forall e | e in es' :: Connected(es, e.0, e.1)
    requires Connected(es', a, b)
    ensures Connected(es, a, b)
  {
    var p :| Joins(es', p, a, b);
    ImpliedAlong(es, es', p, a, b);
  }

  /** What one more edge connects: the old pairs, and the pairs it bridges. */
  lemma AddEdge(es: Edges, a: Node, b: Node, x: Node, y: Node)
    ensures Connected(es + {(a, b)}, x, y) <==>
            || Connected(es, x, y)
            || (Connected(es, x, a) && Connected(es, b, y))
            || (Connected(es, x, b) && Connected(es, a, y))
  {
    var es' := es + {(a, b)};
    if Connected(es', x, y) {
      var p :| Joins(es', p, x, y);
      AddEdgeAlong(es, a, b, p, x, y);
    }
    OneEdge(es', a, b);
    OneEdge(es', b, a);
    if Connected(es, x, y) {
      Monotone(es, es', x, y);
    }
    if Connected(es, x, a) && Connected(es, b, y) {
      Monotone(es, es', x, a);
      Monotone(es, es', b, y);
      Transitive(es', x, a, b);
      Transitive(es', x, b, y);
    }
    if Connected(es, x, b) && Connected(es, a, y) {
      Monotone(es, es', x, b);
      Monotone(es, es', a, y);
      Transitive(es', x, b, a);
      Transitive(es', x, a, y);
    }
  }

  lemma {:induction false} AddEdgeAlong(es: Edges, a: Node, b: Node, p: seq<Node>, x: Node, y: Node)
    requires Joins(es + {(a, b)}, p, x, y)
    ensures || Connected(es, x, y)
            || (Connected(es, x, a) && Connected(es, b, y))
            || (Connected(es, x, b) && Connected(es, a, y))
    decreases |p|
  {
    Reflexive(es, x);
    if |p| <= 1 {
    } else {
      var z := p[1];
      AddEdgeAlong(es, a, b, p[1..], z, y);
      if Adjacent(es, x, z) {
        OneEdge(es, x, z);
        forall w | Connected(es, z, w) ensures Connected(es, x, w) {
          Transitive(es, x, z, w);
        }
      } else if x == a && z == b {
        Reflexive(es, b);
      } else {
        Reflexive(es, a);
      }
    }
  }

  // ---- Components ----

  lemma SameComponent(nodes: set<Node>, es: Edges, a: Node, b: Node)
    requires a in nodes && b in nodes
    ensures Connected(es, a, b) <==> Component(nodes, es, a) == Component(nodes, es, b)
  {
    Reflexive(es, b);
    if Connected(es, a, b) {
      Symmetric(es, a, b);
      forall u | u in nodes
        ensures Connected(es, a, u) <==> Connected(es, b, u)
      {
        if Connected(es, a, u) {
          Transitive(es, b, a, u);
        }
        if Connected(es, b, u) {
          Transitive(es, a, b, u);
        }
      }
    } else {
      assert b in Component(nodes, es, b);
    }
  }

  /** An edge between two components merges them, leaves the others, and so lowers the count by one. */
  lemma BridgeMerges(nodes: set<Node>, es: Edges, a: Node, b: Node)
    requires a in nodes && b in nodes && !Connected(es, a, b)
    ensures |Components(nodes, es + {(a, b)})| == |Components(nodes, es)| - 1
  {
    var ca, cb := Component(nodes, es, a), Component(nodes, es, b);
    SameComponent(nodes, es, a, b);
    var rest := Components(nodes, es) - {ca, cb};
    MergedComponents(nodes, es, a, b);
    Reflexive(es, a);
    forall v | v in nodes && a in Component(nodes, es, v)
      ensures Component(nodes, es, v) == ca
    {
      SameComponent(nodes, es, v, a);
    }
    assert a in ca + cb && ca + cb !in rest;
    assert ca in Components(nodes, es) && cb in Components(nodes, es);
    assert Components(nodes, es) == rest + {ca, cb};
  }

  lemma MergedComponents(nodes: set<Node>, es: Edges, a: Node, b: Node)
    requires a in nodes && b in nodes
    ensures var ca, cb := Component(nodes, es, a), Component(nodes, es, b);
            Components(nodes, es + {(a, b)}) == Components(nodes, es) - {ca, cb} + {ca + cb}
  {
    var es', cs := es + {(a, b)}, Components(nodes, es);
    var ca, cb := Component(nodes, es, a), Component(nodes, es, b);
    forall c | c in Components(nodes, es')
      ensures c in cs - {ca, cb} + {ca + cb}
    {
      var v :| v in nodes && Component(nodes, es', v) == c;
      MergedComponent(nodes, es, a, b, v);
      assert Component(nodes, es, v) in cs;
    }
    forall c | c in cs - {ca, cb} + {ca + cb}
      ensures c in Components(nodes, es')
    {
      var v := a;
      if c != ca + cb {
        v :| v in nodes && Component(nodes, es, v) == c;
      }
      MergedComponent(nodes, es, a, b, v);
      assert Component(nodes, es', v) in Components(nodes, es');
    }
  }

  lemma MergedComponent(nodes: set<Node>, es: Edges, a: Node, b: Node, v: Node)
    requires a in nodes && b in nodes && v in nodes
    ensures var ca, cb := Component(nodes, es, a), Component(nodes, es, b);
            Component(nodes, es + {(a, b)}, v) ==
            if Component(nodes, es, v) in {ca, cb} then ca + cb else Component(nodes, es, v)
  {
    SameComponent(nodes, es, v, a);
    SameComponent(nodes, es, v, b);
    forall u | u in nodes
      ensures Connected(es + {(a, b)}, v, u) <==>
              if Connected(es, v, a) || Connected(es, v, b) then Connected(es, a, u) || Connected(es, b, u)
              else Connected(es, v, u)
    {
      AddEdge(es, a, b, v, u);
      if Connected(es, v, a) {
        SameComponent(nodes, es, v, u);
        SameComponent(nodes, es, a, u);
      }
      if Connected(es, v, b) {
        SameComponent(nodes, es, v, u);
        SameComponent(nodes, es, b, u);
      }
    }
  }

  // ---- The component computation ----

  method ReachableFrom(nodes: set<Node>, es: Edges, start: Node) returns (seen: set<Node>)
    requires start in nodes && Within(es, nodes)
    ensures seen == Component(nodes, es, start)
  {
    seen := {start};
    var frontier := {start};
    Reflexive(es, start);
    while frontier != {}
      invariant start in seen && frontier <= seen <= nodes
      invariant forall v | v in seen :: Connected(es, start, v)
      invariant forall v, u | v in seen - frontier && u in nodes && Adjacent(es, v, u) :: u in seen
      decreases |nodes - seen|, |frontier|
    {
      var v :| v in frontier;
      var discovered := set u | u in nodes && u !in seen && Adjacent(es, v, u);
      forall u | u in discovered
        ensures Connected(es, start, u)
      {
        OneEdge(es, v, u);
        Transitive(es, start, v, u);
      }
      if discovered != {} {
        Smaller(nodes - (seen + discovered), nodes - seen);
      } else {
        assert seen + discovered == seen;
        Smaller(frontier - {v}, frontier);
      }
      seen := seen + discovered;
      frontier := frontier - {v} + discovered;
    }
    assert Closed(es, seen) by {
      forall e | e in es
        ensures e.0 in seen <==> e.1 in seen
      {
        assert Adjacent(es, e.0, e.1) && Adjacent(es, e.1, e.0);
      }
    }
    forall u | u in nodes && Connected(es, start, u)
      ensures u in seen
    {
      ClosedHolds(es, seen, start, u);
    }
  }

  lemma Smaller<T>(a: set<T>, b: set<T>)
    requires a < b
    ensures |a| < |b|
  {
    assert b == a + (b - a);
    assert |b| == |a| + |b - a|;
  }

  /** The connected components, each listed once. */
  method ConnectedComponents(nodes: set<Node>, es: Edges) returns (cs: seq<set<Node>>)
    requires Within(es, nodes)
    ensures IsComponentList(nodes, es, cs)
  {
    cs := [];
    var left := nodes;
    ghost var listed: set<set<Node>> := {};
    while left != {}
      invariant left <= nodes
      invariant forall i | 0 <= i < |cs| :: cs[i] in listed
      invariant forall c | c in listed :: c in cs
      invariant forall i, j | 0 <= i < j < |cs| :: cs[i] != cs[j]
      invariant listed == set v | v in nodes - left :: Component(nodes, es, v)
      invariant forall v | v in nodes - left :: Component(nodes, es, v) <= nodes - left
      decreases left
    {
      var v :| v in left;
      var c := ReachableFrom(nodes, es, v);
      Reflexive(es, v);
      forall u | u in nodes
        ensures u in c <==> Component(nodes, es, u) == c
      {
        SameComponent(nodes, es, v, u);
      }
      assert c !in listed;
      cs := cs + [c];
      listed := listed + {c};
      left := left - c;
    }
  }

  /** cs lists every component exactly once. */
  ghost predicate IsComponentList(nodes: set<Node>, es: Edges, cs: seq<set<Node>>) {
    && (set c | c in cs) == Components(nodes, es)
    && forall i, j | 0 <= i < j < |cs| :: cs[i] != cs[j]
  }
}
