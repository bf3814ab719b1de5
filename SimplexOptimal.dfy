/**
  Why the block-search solver's answer is a minimum-cost flow.  When no
  stored edge is eligible (each one is saturated or has a non-negative
  reduced cost under the tree potentials), no other feasible flow with the
  same net flow at every vertex is cheaper: the cost of a flow differs from
  its reduced cost only by a term fixed by the net flows, and edge by edge
  the reduced cost of any feasible flow is at least that of this one.

  `TotalCost` sums `flow * cost` over all stored edges, so it counts every
  pair twice; `GetValue` (`Ret::get_value`) is exactly half of it.
*/
module SimplexOptimal {
  import opened FlowNum
  import opened SimplexEdges
  import opened SimplexTree
  import opened SimplexSelect

  /** `flow * cost` summed over every stored edge. */
  function TotalCost(edges: seq<Edge>): int
  {
    if edges == [] then 0
    else TotalCost(edges[..|edges| - 1]) + edges[|edges| - 1].flow * edges[|edges| - 1].cost
  }

  /** `flow * reduced cost` summed over every stored edge. */
  function ReducedTotal(edges: seq<Edge>, vs: seq<VertexData>): int
    requires EndpointsBelow(edges, |vs|)
  {
    if edges == [] then 0
    else
      var last := edges[|edges| - 1];
      ReducedTotal(edges[..|edges| - 1], vs) + last.flow * ReducedCost(vs, last)
  }

  /** `flow * potential(src)` summed over every stored edge. */
  function SrcPotentials(edges: seq<Edge>, vs: seq<VertexData>): int
    requires EndpointsBelow(edges, |vs|)
  {
    if edges == [] then 0
    else
      var last := edges[|edges| - 1];
      SrcPotentials(edges[..|edges| - 1], vs) + last.flow * vs[last.src].potential
  }

  /** `flow * potential(dst)` summed over every stored edge. */
  function DstPotentials(edges: seq<Edge>, vs: seq<VertexData>): int
    requires EndpointsBelow(edges, |vs|)
  {
    if edges == [] then 0
    else
      var last := edges[|edges| - 1];
      DstPotentials(edges[..|edges| - 1], vs) + last.flow * vs[last.dst].potential
  }

  /** `potential(v) * Net(edges, v)` summed over the vertices below `n`. */
  function NetPotentials(edges: seq<Edge>, vs: seq<VertexData>, n: nat): int
    requires n <= |vs|
  {
    if n == 0 then 0
    else NetPotentials(edges, vs, n - 1) + vs[n - 1].potential * Net(edges, n - 1)
  }

  /** No stored edge is eligible: each is saturated or has a non-negative reduced cost. */
  ghost predicate NoneEligible(edges: seq<Edge>, vs: seq<VertexData>)
    requires EndpointsBelow(edges, |vs|)
  {
    forall i :: 0 <= i < |edges| ==> !Eligible(vs, edges[i])
  }

  /** `g` is a feasible flow on the same edges as `edges`, with the same net flow at every vertex. */
  ghost predicate Alternative(edges: seq<Edge>, g: seq<Edge>)
  {
    SameShape(edges, g) && Paired(g) && Feasible(g) && forall v: nat :: Net(g, v) == Net(edges, v)
  }

  /** No alternative flow is cheaper. */
  ghost predicate MinimumCost(edges: seq<Edge>)
  {
    forall g :: Alternative(edges, g) ==> TotalCost(edges) <= TotalCost(g)
  }

  lemma PrefixBelow(edges: seq<Edge>, n: nat, k: nat)
    requires EndpointsBelow(edges, n) && k <= |edges|
    ensures EndpointsBelow(edges[..k], n)
  {
    assert forall i :: 0 <= i < k ==> edges[..k][i] == edges[i];
  }

  /** A paired store cut after a whole number of pairs is still paired. */
  lemma PairedPrefix(edges: seq<Edge>, k: nat)
    requires Paired(edges) && k <= |edges| && k % 2 == 0
    ensures Paired(edges[..k])
  {
    forall i | 0 <= i < k
      ensures PairedAt(edges[..k], i)
    {
      assert PairedAt(edges, i);
    }
  }

  /** The cost is the reduced cost plus the potential terms: `cost = rc - potential(src) + potential(dst)`. */
  lemma {:induction false} CostSplit(edges: seq<Edge>, vs: seq<VertexData>)
    requires EndpointsBelow(edges, |vs|)
    ensures TotalCost(edges) == ReducedTotal(edges, vs) - SrcPotentials(edges, vs) + DstPotentials(edges, vs)
    decreases |edges|
  {
    if edges != [] {
      var m := |edges| - 1;
      PrefixBelow(edges, |vs|, m);
      CostSplit(edges[..m], vs);
      var e := edges[m];
      var a, b := vs[e.src].potential, vs[e.dst].potential;
      assert e.flow * ReducedCost(vs, e) == e.flow * e.cost + e.flow * a - e.flow * b by {
        assert ReducedCost(vs, e) == e.cost + a - b;
      }
    }
  }

  /** In a paired store every flow into a vertex is the negated flow out of it on the reverse edge. */
  lemma {:induction false} DstIsMinusSrc(edges: seq<Edge>, vs: seq<VertexData>)
    requires Paired(edges) && EndpointsBelow(edges, |vs|)
    ensures DstPotentials(edges, vs) == -SrcPotentials(edges, vs)
    decreases |edges|
  {
    PairedEven(edges);
    if edges != [] {
      var m := |edges| - 2;
      assert PairedAt(edges, m);
      assert Rev(m) == m + 1;
      var p := edges[..m];
      assert edges[..m + 1][..m] == p;
      PairedPrefix(edges, m);
      PrefixBelow(edges, |vs|, m);
      PrefixBelow(edges, |vs|, m + 1);
      DstIsMinusSrc(p, vs);
      var e1, e2 := edges[m], edges[m + 1];
      assert e2.flow * vs[e2.dst].potential == -(e1.flow * vs[e1.src].potential);
      assert e2.flow * vs[e2.src].potential == -(e1.flow * vs[e1.dst].potential);
    }
  }

  /** Adding one edge adds its flow times its source's potential to the vertex sum. */
  lemma {:induction false} NetPotentialsSnoc(edges: seq<Edge>, e: Edge, vs: seq<VertexData>, n: nat)
    requires n <= |vs|
    ensures NetPotentials(edges + [e], vs, n)
         == NetPotentials(edges, vs, n) + (if e.src < n then e.flow * vs[e.src].potential else 0)
  {
    if n > 0 {
      var m := n - 1;
      NetPotentialsSnoc(edges, e, vs, m);
      NetAppend(edges, e, m);
      var p, x := vs[m].potential, Net(edges, m);
      var before := NetPotentials(edges + [e], vs, m);
      assert before == NetPotentials(edges, vs, m) + (if e.src < m then e.flow * vs[e.src].potential else 0);
      assert NetPotentials(edges + [e], vs, n) == before + p * Net(edges + [e], m);
      assert NetPotentials(edges, vs, n) == NetPotentials(edges, vs, m) + p * x;
      if e.src == m {
        assert Net(edges + [e], m) == x + e.flow;
        MulAdd(p, x, e.flow);
      } else {
        assert Net(edges + [e], m) == x;
      }
    }
  }

  lemma MulAdd(p: int, x: int, f: int)
    ensures p * (x + f) == p * x + f * p
  {
  }

  /** Grouped by source vertex, the source-potential sum is the net-flow sum. */
  lemma {:induction false} SrcIsNet(edges: seq<Edge>, vs: seq<VertexData>)
    requires EndpointsBelow(edges, |vs|)
    ensures SrcPotentials(edges, vs) == NetPotentials(edges, vs, |vs|)
    decreases |edges|
  {
    if edges == [] {
      NetPotentialsEmpty(vs, |vs|);
    } else {
      var m := |edges| - 1;
      PrefixBelow(edges, |vs|, m);
      SrcIsNet(edges[..m], vs);
      assert edges[..m] + [edges[m]] == edges;
      NetPotentialsSnoc(edges[..m], edges[m], vs, |vs|);
    }
  }

  lemma {:induction false} NetPotentialsEmpty(vs: seq<VertexData>, n: nat)
    requires n <= |vs|
    ensures NetPotentials([], vs, n) == 0
  {
    if n > 0 {
      NetPotentialsEmpty(vs, n - 1);
    }
  }

  /** Flows with the same net flow at every vertex have the same net-flow sum. */
  lemma {:induction false} NetPotentialsSame(e: seq<Edge>, g: seq<Edge>, vs: seq<VertexData>, n: nat)
    requires n <= |vs| && forall v: nat :: v < n ==> Net(g, v) == Net(e, v)
    ensures NetPotentials(g, vs, n) == NetPotentials(e, vs, n)
  {
    if n > 0 {
      NetPotentialsSame(e, g, vs, n - 1);
    }
  }

  /** For one edge, any feasible flow has at least the reduced cost of a flow with no eligible edge. */
  lemma EdgeGain(e: seq<Edge>, g: seq<Edge>, vs: seq<VertexData>, i: nat)
    requires Paired(e) && Paired(g) && Feasible(g) && SameShape(e, g) && EndpointsBelow(e, |vs|)
    requires NoneEligible(e, vs) && i < |e|
    ensures e[i].flow * ReducedCost(vs, e[i]) <= g[i].flow * ReducedCost(vs, g[i])
  {
    var rc := ReducedCost(vs, e[i]);
    assert ReducedCost(vs, g[i]) == rc;
    var f, h := e[i].flow, g[i].flow;
    if rc < 0 {
      assert !Eligible(vs, e[i]);
      assert f == e[i].capacity && h <= g[i].capacity;
      assert (h - f) * rc >= 0;
    } else if rc > 0 {
      ReducedCostRev(e, vs, i);
      var r := Rev(i);
      assert !Eligible(vs, e[r]);
      assert PairedAt(e, i) && PairedAt(g, i);
      assert -f == e[r].capacity && -h <= g[r].capacity;
      assert (h - f) * rc >= 0;
    }
  }

  /** Summed over a prefix of the edges, the reduced cost of a feasible flow is at least that of `e`. */
  lemma {:induction false} GainUpTo(e: seq<Edge>, g: seq<Edge>, vs: seq<VertexData>, k: nat)
    requires Paired(e) && Paired(g) && Feasible(g) && SameShape(e, g) && EndpointsBelow(e, |vs|)
    requires NoneEligible(e, vs) && k <= |e|
    ensures EndpointsBelow(e[..k], |vs|) && EndpointsBelow(g[..k], |vs|)
    ensures ReducedTotal(e[..k], vs) <= ReducedTotal(g[..k], vs)
  {
    assert EndpointsBelow(g, |vs|);
    PrefixBelow(e, |vs|, k);
    PrefixBelow(g, |vs|, k);
    if k > 0 {
      GainUpTo(e, g, vs, k - 1);
      assert e[..k][..k - 1] == e[..k - 1];
      assert g[..k][..k - 1] == g[..k - 1];
      EdgeGain(e, g, vs, k - 1);
    }
  }

  /**
    Reduced-cost optimality: a paired flow with no eligible edge costs no
    more than any feasible flow on the same edges with the same net flows.
  */
  lemma Optimality(e: seq<Edge>, g: seq<Edge>, vs: seq<VertexData>)
    requires Paired(e) && EndpointsBelow(e, |vs|) && NoneEligible(e, vs)
    requires Alternative(e, g)
    ensures TotalCost(e) <= TotalCost(g)
  {
    assert EndpointsBelow(g, |vs|);
    CostSplit(e, vs);
    CostSplit(g, vs);
    DstIsMinusSrc(e, vs);
    DstIsMinusSrc(g, vs);
    SrcIsNet(e, vs);
    SrcIsNet(g, vs);
    NetPotentialsSame(e, g, vs, |vs|);
    GainUpTo(e, g, vs, |e|);
    assert e[..|e|] == e && g[..|g|] == g;
  }

  /** Every edge of `a` carries no flow. */
  ghost predicate Idle(a: seq<Edge>)
  {
    forall i :: 0 <= i < |a| ==> a[i].flow == 0
  }

  /** Edges without flow change neither net flows nor cost. */
  lemma {:induction false} IdleSuffix(p: seq<Edge>, a: seq<Edge>, v: nat)
    requires Idle(a)
    ensures Net(p + a, v) == Net(p, v) && TotalCost(p + a) == TotalCost(p)
    decreases |a|
  {
    if a == [] {
      assert p + a == p;
    } else {
      var m := |a| - 1;
      assert (p + a)[..|p + a| - 1] == p + a[..m];
      IdleSuffix(p, a[..m], v);
    }
  }

  /**
    Dropping idle artificial edges keeps optimality: if `o + a` has no
    eligible edge and `a` carries no flow, no feasible flow on `o` with the
    same net flows is cheaper than `o`.
  */
  lemma OptimalWithoutIdle(o: seq<Edge>, a: seq<Edge>, vs: seq<VertexData>)
    requires Paired(o + a) && Feasible(o + a) && EndpointsBelow(o + a, |vs|) && NoneEligible(o + a, vs)
    requires Idle(a) && |o| % 2 == 0
    ensures Paired(o) && MinimumCost(o)
  {
    var e := o + a;
    PairedPrefix(e, |o|);
    assert e[..|o|] == o;
    forall g | Alternative(o, g)
      ensures TotalCost(o) <= TotalCost(g)
    {
      var h := g + a;
      forall i | 0 <= i < |h|
        ensures PairedAt(h, i)
      {
        assert PairedAt(e, i);
        if i < |g| {
          assert PairedAt(g, i);
        }
      }
      assert Feasible(h) by {
        forall i | 0 <= i < |h|
          ensures h[i].flow <= h[i].capacity
        {
          if i >= |g| {
            assert h[i] == e[i];
          }
        }
      }
      forall v: nat
        ensures Net(h, v) == Net(e, v)
      {
        IdleSuffix(g, a, v);
        IdleSuffix(o, a, v);
      }
      IdleSuffix(g, a, 0);
      IdleSuffix(o, a, 0);
      Optimality(e, h, vs);
    }
  }

  /** `Ret`: `(flow, cost)` of every stored edge of the caller's network, and the potential of every real vertex. */
  datatype Ret = Ret(edges: seq<(int, int)>, potential: seq<int>)

  /** The `(flow, cost)` list `run` collects from the stored edges. */
  function FlowCosts(edges: seq<Edge>): seq<(int, int)>
  {
    seq(|edges|, i requires 0 <= i < |edges| => (edges[i].flow, edges[i].cost))
  }

  /** The potentials of the first `k` vertex records: the `take(n - 1)` of `run`. */
  function Potentials(vs: seq<VertexData>, k: nat): seq<int>
    requires k <= |vs|
  {
    seq(k, v requires 0 <= v < k => vs[v].potential)
  }

  /** Complementary slackness of one edge under `potential`: saturated, or of non-negative reduced cost. */
  predicate Slack(e: Edge, potential: seq<int>)
    requires e.src < |potential| && e.dst < |potential|
  {
    e.flow == e.capacity || e.cost + potential[e.src] - potential[e.dst] >= 0
  }

  /** `flow * cost` over the entries of positive flow. */
  function PositiveValue(fc: seq<(int, int)>): int
  {
    if fc == [] then 0
    else
      var last := fc[|fc| - 1];
      PositiveValue(fc[..|fc| - 1]) + (if IsPositive(last.0) then last.0 * last.1 else 0)
  }

  /** `Ret::get_value`. */
  function GetValue(ret: Ret): int
  {
    PositiveValue(ret.edges)
  }

  /** `Ret::get_flow`: the flow on the stored edge `e`. */
  function GetFlow(ret: Ret, e: nat): int
    requires e < |ret.edges|
  {
    ret.edges[e].0
  }

  /** `Ret::get_potential`: the potential of the real vertex `v`. */
  function GetPotential(ret: Ret, v: nat): int
    requires v < |ret.potential|
  {
    ret.potential[v]
  }

  /**
    Of the two edges of a pair exactly the one with positive flow (if any)
    is counted, and it counts the pair's `flow * cost` once: the value is
    half the cost summed over all stored edges.
  */
  lemma {:induction false} ValueIsHalfCost(edges: seq<Edge>)
    requires Paired(edges)
    ensures 2 * PositiveValue(FlowCosts(edges)) == TotalCost(edges)
    decreases |edges|
  {
    PairedEven(edges);
    if edges != [] {
      var m := |edges| - 2;
      assert PairedAt(edges, m);
      assert Rev(m) == m + 1;
      PairedPrefix(edges, m);
      ValueIsHalfCost(edges[..m]);
      var fc, e1, e2 := FlowCosts(edges), edges[m], edges[m + 1];
      assert fc[..m + 1][..m] == FlowCosts(edges[..m]);
      assert PositiveValue(fc) == PositiveValue(fc[..m + 1]) + (if IsPositive(e2.flow) then e2.flow * e2.cost else 0);
      assert PositiveValue(fc[..m + 1]) == PositiveValue(FlowCosts(edges[..m])) + (if IsPositive(e1.flow) then e1.flow * e1.cost else 0);
      assert edges[..m + 1][..m] == edges[..m];
      assert TotalCost(edges) == TotalCost(edges[..m]) + e1.flow * e1.cost + e2.flow * e2.cost;
      PairValue(e1.flow, e1.cost);
    }
  }

  /** One pair counts `f * c` once, whichever of `f` and `-f` is positive. */
  lemma PairValue(f: int, c: int)
    ensures (if IsPositive(f) then f * c else 0) + (if IsPositive(-f) then (-f) * (-c) else 0) == f * c
    ensures (-f) * (-c) == f * c
  {
  }
}
