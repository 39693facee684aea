/**
 Greedy joining of components. A run that keeps adding the cheapest eligible pair
 across two components spends as little as any other way to connect them.
 */
module Kruskal {
  import opened Graph

  type Pair = (Node, Node)

  /** The eligible pairs and what each costs. */
  type Costs = map<Pair, real>

  ghost predicate Crosses(es: Edges, e: Pair) {
    !Connected(es, e.0, e.1)
  }

  function With(es: Edges, bs: seq<Pair>): Edges {
    es + set b | b in bs
  }

  /** b crosses two components of es and no eligible pair that does so is cheaper. */
  ghost predicate Cheapest(costs: Costs, es: Edges, b: Pair) {
    && b in costs && Crosses(es, b)
    && forall e | e in costs && Crosses(es, e) :: costs[b] <= costs[e]
  }

  /** Each pair of bs was a cheapest crossing pair when it was added. */
  ghost predicate Greedy(costs: Costs, es: Edges, bs: seq<Pair>) {
    forall i | 0 <= i < |bs| :: Cheapest(costs, With(es, bs[..i]), bs[i])
  }

  /** No eligible pair crosses components any more. */
  ghost predicate Exhausted(costs: Costs, es: Edges) {
    forall e | e in costs :: Connected(es, e.0, e.1)
  }

  /** fs is made of eligible pairs and connects whatever bs does. */
  ghost predicate Rival(costs: Costs, es: Edges, bs: seq<Pair>, fs: seq<Pair>) {
    && (forall f | f in fs :: f in costs)
    && forall b | b in bs :: Connected(With(es, fs), b.0, b.1)
  }

  ghost function Total(costs: Costs, bs: seq<Pair>): real
    requires forall b | b in bs :: b in costs
    decreases |bs|
  {
    if bs == [] then 0.0 else costs[bs[0]] + Total(costs, bs[1..])
  }

  function Without(bs: seq<Pair>, k: nat): seq<Pair>
    requires k < |bs|
  {
    bs[..k] + bs[k + 1..]
  }

  lemma {:induction false} TotalWithout(costs: Costs, bs: seq<Pair>, k: nat)
    requires k < |bs| && forall b | b in bs :: b in costs
    ensures Total(costs, bs) == costs[bs[k]] + Total(costs, Without(bs, k))
    decreases |bs|
  {
    if k == 0 {
      assert Without(bs, 0) == bs[1..];
    } else {
      TotalWithout(costs, bs[1..], k - 1);
      assert Without(bs, k)[0] == bs[0];
      assert Without(bs, k)[1..] == Without(bs[1..], k - 1);
    }
  }

  lemma {:induction false} TotalNonNegative(costs: Costs, bs: seq<Pair>)
    requires forall e | e in costs :: costs[e] >= 0.0
    requires forall b | b in bs :: b in costs
    ensures Total(costs, bs) >= 0.0
    decreases |bs|
  {
    if bs == [] {
    } else {
      TotalNonNegative(costs, bs[1..]);
    }
  }

  /** Appending a cheapest pair extends a greedy run. */
  lemma GreedyExtends(costs: Costs, es: Edges, bs: seq<Pair>, b: Pair)
    requires Greedy(costs, es, bs) && Cheapest(costs, With(es, bs), b)
    ensures Greedy(costs, es, bs + [b])
    ensures With(es, bs + [b]) == With(es, bs) + {b}
  {
    forall i | 0 <= i < |bs + [b]|
      ensures Cheapest(costs, With(es, (bs + [b])[..i]), (bs + [b])[i])
    {
      if i < |bs| {
        assert (bs + [b])[..i] == bs[..i];
      } else {
        assert (bs + [b])[..i] == bs;
      }
    }
  }

  /** Costs never decrease along a greedy run. */
  lemma GreedyNonDecreasing(costs: Costs, es: Edges, bs: seq<Pair>, i: nat, j: nat)
    requires Greedy(costs, es, bs) && i <= j < |bs|
    ensures costs[bs[i]] <= costs[bs[j]]
  {
    var b := bs[j];
    assert Cheapest(costs, With(es, bs[..j]), b);
    if Connected(With(es, bs[..i]), b.0, b.1) {
      assert forall x | x in bs[..i] :: x in bs[..j];
      Monotone(With(es, bs[..i]), With(es, bs[..j]), b.0, b.1);
    }
    assert Cheapest(costs, With(es, bs[..i]), bs[i]);
  }

  /** A greedy run that ended connects exactly what all eligible pairs together connect. */
  lemma ExhaustedConnects(costs: Costs, es: Edges, bs: seq<Pair>, a: Node, b: Node)
    requires (forall e | e in bs :: e in costs) && Exhausted(costs, With(es, bs))
    ensures Connected(With(es, bs), a, b) <==> Connected(es + costs.Keys, a, b)
  {
    var es' := With(es, bs);
    if Connected(es', a, b) {
      Monotone(es', es + costs.Keys, a, b);
    }
    if Connected(es + costs.Keys, a, b) {
      forall e | e in es + costs.Keys
        ensures Connected(es', e.0, e.1)
      {
        if e in es {
          OneEdge(es', e.0, e.1);
        }
      }
      Implied(es', es + costs.Keys, a, b);
    }
  }

  lemma GreedyPicksEligible(costs: Costs, es: Edges, bs: seq<Pair>)
    requires Greedy(costs, es, bs)
    ensures forall b | b in bs :: b in costs
  {
    forall b | b in bs
      ensures b in costs
    {
      var i :| 0 <= i < |bs| && bs[i] == b;
      assert Cheapest(costs, With(es, bs[..i]), bs[i]);
    }
  }

  /** A greedy run starts with a cheapest pair and goes on greedily from there. */
  lemma GreedyTail(costs: Costs, es: Edges, bs: seq<Pair>)
    requires Greedy(costs, es, bs) && bs != []
    ensures Cheapest(costs, es, bs[0]) && Greedy(costs, es + {bs[0]}, bs[1..])
  {
    WithNone(es, bs);
    assert Cheapest(costs, With(es, bs[..0]), bs[0]);
    forall i | 0 <= i < |bs[1..]|
      ensures Cheapest(costs, With(es + {bs[0]}, bs[1..][..i]), bs[1..][i])
    {
      WithTail(es, bs, i);
      assert Cheapest(costs, With(es, bs[..i + 1]), bs[i + 1]);
    }
  }

  lemma WithNone(es: Edges, bs: seq<Pair>)
    ensures With(es, bs[..0]) == es
  {}

  lemma WithTail(es: Edges, bs: seq<Pair>, i: nat)
    requires i < |bs|
    ensures With(es + {bs[0]}, bs[1..][..i]) == With(es, bs[..i + 1])
  {
    assert bs[..i + 1] == [bs[0]] + bs[1..][..i];
  }

  /** The exchange: some pair of fs can be traded for the cheapest crossing pair b. */
  lemma Exchange(nodes: set<Node>, costs: Costs, es: Edges, b: Pair, fs: seq<Pair>) returns (k: nat)
    requires Within(es, nodes) && b.0 in nodes
    requires forall e | e in costs :: e.0 in nodes && e.1 in nodes
    requires Cheapest(costs, es, b) && Rival(costs, es, [b], fs)
    ensures k < |fs| && costs[b] <= costs[fs[k]]
    ensures forall x, y | Connected(With(es, fs), x, y) :: Connected(With(es + {b}, Without(fs, k)), x, y)
  {
    var all := With(es, fs);
    var s := Component(nodes, es, b.0);
    Reflexive(es, b.0);
    ComponentClosed(nodes, es, b.0);
    assert b in [b];
    var u, v := LastExit(all, s, b.0, b.1);
    var f := if (u, v) in all then (u, v) else (v, u);
    assert f in fs;
    k :| 0 <= k < |fs| && fs[k] == f;
    if Connected(es, f.0, f.1) {
      Symmetric(es, f.0, f.1);
      ClosedHolds(es, s, u, v);
    }
    assert Crosses(es, f);
    Traded(nodes, es, b, fs, k, u, v);
    forall x, y | Connected(all, x, y)
      ensures Connected(With(es + {b}, Without(fs, k)), x, y)
    {
      Implied(With(es + {b}, Without(fs, k)), all, x, y);
    }
  }

  /** Without fs[k] but with b, the ends of every old edge still connect. */
  lemma Traded(nodes: set<Node>, es: Edges, b: Pair, fs: seq<Pair>, k: nat, u: Node, v: Node)
    requires Within(es, nodes) && b.0 in nodes && k < |fs| && (fs[k] == (u, v) || fs[k] == (v, u))
    requires u in Component(nodes, es, b.0)
    requires Connected(Outside(With(es, fs), Component(nodes, es, b.0)), v, b.1)
    ensures forall e | e in With(es, fs) :: Connected(With(es + {b}, Without(fs, k)), e.0, e.1)
  {
    var s := Component(nodes, es, b.0);
    var es' := With(es + {b}, Without(fs, k));
    var rest := Outside(With(es, fs), s);
    forall e | e in With(es, fs) && e != fs[k]
      ensures e in es'
    {
      if e !in es {
        var i :| 0 <= i < |fs| && fs[i] == e;
        assert Without(fs, k)[if i < k then i else i - 1] == e;
      }
    }
    assert rest <= es';
    Monotone(rest, es', v, b.1);
    Symmetric(es', v, b.1);
    Monotone(es, es', b.0, u);
    Symmetric(es', b.0, u);
    OneEdge(es', b.0, b.1);
    Transitive(es', u, b.0, b.1);
    Transitive(es', u, b.1, v);
    Symmetric(es', u, v);
    forall e | e in With(es, fs)
      ensures Connected(es', e.0, e.1)
    {
      if e != fs[k] {
        OneEdge(es', e.0, e.1);
      }
    }
  }

  /**
   A greedy run costs no more than any rival list of eligible pairs.
   */
  lemma {:induction false} GreedyMinimal(nodes: set<Node>, costs: Costs, es: Edges, bs: seq<Pair>, fs: seq<Pair>)
    requires Within(es, nodes)
    requires forall e | e in costs :: e.0 in nodes && e.1 in nodes && costs[e] >= 0.0
    requires Greedy(costs, es, bs) && Rival(costs, es, bs, fs)
    ensures (forall b | b in bs :: b in costs) && Total(costs, bs) <= Total(costs, fs)
    decreases |bs|
  {
    GreedyPicksEligible(costs, es, bs);
    if bs == [] {
      TotalNonNegative(costs, fs);
    } else {
      GreedyTail(costs, es, bs);
      var k := Exchange(nodes, costs, es, bs[0], fs);
      TotalWithout(costs, fs, k);
      var es', fs' := es + {bs[0]}, Without(fs, k);
      assert Rival(costs, es', bs[1..], fs') by {
        assert forall c | c in bs[1..] :: c in bs;
      }
      GreedyMinimal(nodes, costs, es', bs[1..], fs');
    }
  }

  function Priced(costs: Costs, price: real -> real): Costs {
    map e | e in costs :: price(costs[e])
  }

  /** A greedy run costs no more than any rival under every nondecreasing non-negative price. */
  lemma GreedyMinimalAtAnyPrice(nodes: set<Node>, costs: Costs, price: real -> real, es: Edges, bs: seq<Pair>,
                                fs: seq<Pair>)
    requires Within(es, nodes)
    requires forall e | e in costs :: e.0 in nodes && e.1 in nodes && price(costs[e]) >= 0.0
    requires forall x, y | x <= y :: price(x) <= price(y)
    requires Greedy(costs, es, bs) && Rival(costs, es, bs, fs)
    ensures forall b | b in bs :: b in costs
    ensures Total(Priced(costs, price), bs) <= Total(Priced(costs, price), fs)
  {
    forall i | 0 <= i < |bs|
      ensures Cheapest(Priced(costs, price), With(es, bs[..i]), bs[i])
    {
      assert Cheapest(costs, With(es, bs[..i]), bs[i]);
    }
    GreedyMinimal(nodes, Priced(costs, price), es, bs, fs);
  }
}
