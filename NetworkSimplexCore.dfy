/**
  The state and the shared operations of the network-simplex solvers
  (`NetworkSimplex` and `TemporaryData`): building the problem with
  `add_edge`/`add_supply`/`add_demand`, the paired `add_flow`, relabelling a
  subtree with `update_tree`, seeding the artificial tree in `prepare_data`
  and the tree-exchange step `pivot`.  Both source files carry identical
  copies of these; the two entering-edge rules live in their own modules.
*/
module NetworkSimplexCore {
  import opened Wrappers
  import opened FlowNum
  import opened SimplexEdges
  import opened SimplexTree
  import opened SimplexRelabel
  import opened SimplexCycle
  import opened SimplexExchange
  import opened SimplexPivot
  import opened SimplexSeed
  import opened SimplexSelect
  import opened SimplexOptimal

  /** The per-run data: vertex records, vertex count, root and the block-search cursor. */
  class TemporaryData {
    var vertices: seq<VertexData>
    var n: nat
    var root: nat
    var blockSize: nat
    var nextScanStart: nat

    constructor (n: nat)
      ensures vertices == [] && this.n == n && root == 0 && blockSize == 1 && nextScanStart == 0
    {
      vertices := [];
      this.n := n;
      root := 0;
      blockSize := 1;
      nextScanStart := 0;
    }
  }

  /** Balances zero-extended beyond their stored length. */
  function BalanceOf(balances: seq<int>, v: nat): int
  {
    if v < |balances| then balances[v] else 0
  }

  /** The balances after `add_supply(v, b)`. */
  function SupplyAdded(balances: seq<int>, v: nat, b: int): (r: seq<int>)
    ensures |r| == if v + 1 > |balances| then v + 1 else |balances|
    ensures forall w: nat :: w < |r| ==> r[w] == BalanceOf(balances, w) + (if w == v then b else 0)
  {
    var grown := balances + seq(if v + 1 > |balances| then v + 1 - |balances| else 0, _ => 0);
    grown[v := grown[v] + b]
  }

  /** The result of `run`: `Done(None)` when an artificial edge still carries flow; `OutOfFuel` when the pivot bound ran out first. */
  datatype RunOutcome = Done(result: Option<Ret>) | OutOfFuel

  /** The edges `prepare_data` leaves for the network `e0` with balances `b0`: `e0` followed by the artificial star. */
  ghost function Star(e0: seq<Edge>, b0: seq<int>): seq<Edge>
  {
    var root := VertexBound(|b0|, e0);
    e0 + Seeds(Padded(b0, root), root, One() + PositiveCosts(e0))
  }

  /**
    What the pushes of `pivot` did to the edges `e0`, giving `e1`: the
    cycle of the entering edge `eid` through the apex `ka` levels above its
    tail and `kb` levels above its head carries `f` more, `f` is the
    bottleneck of that cycle, and `leaving` is the edge `LeavingChoice`
    names, which the push brought to capacity.
  */
  ghost predicate Pushed(e0: seq<Edge>, e1: seq<Edge>, vs: seq<VertexData>, root: nat, eid: nat,
                         leaving: nat, ka: nat, kb: nat, f: int)
  {
    eid < |e0| && Apex(vs, root, e0[eid].src, e0[eid].dst, ka, kb) &&
    var cycle := Cycle(vs, root, e0[eid].src, e0[eid].dst, eid, ka, kb);
    IdsIn(e0, cycle) && Bottleneck(e0, cycle, f) && e1 == PushAll(e0, cycle, f) &&
    Some(leaving) == LeavingChoice(e0, vs, root, e0[eid].src, e0[eid].dst, eid, ka, kb, f) &&
    leaving < |e1| && e1[leaving].flow == e1[leaving].capacity
  }

  /**
    What the tree exchange closing `pivot` did to the vertex records `vs0`,
    giving `vs1`: nothing when the leaving edge is the entering edge `eid`
    from `s` to `t`; otherwise `leaving` lies on the side `side` names, and
    the tree-edge sets are those of the exchange that cuts it and hangs the
    subtree below it from `eid`.
  */
  ghost predicate Exchanged(vs0: seq<VertexData>, vs1: seq<VertexData>, root: nat, s: nat, t: nat, eid: nat,
                            leaving: nat, side: LeavingSide, ka: nat, kb: nat)
  {
    Apex(vs0, root, s, t, ka, kb) &&
    (side == Enter ==> vs1 == vs0) &&
    (side == Src ==> exists i :: 0 <= i < ka && leaving == DownAt(vs0, root, s, i) && ExchangedSets(vs0, root, s, t, eid, i, vs1)) &&
    (side == Dst ==> exists j :: 0 <= j < kb && leaving == UpAt(vs0, root, t, j) && ExchangedSets(vs0, root, t, s, Rev(eid), j, vs1))
  }

  /**
    One `pivot` on the entering edge `eid`, taking the edges `e0` and records
    `vs0` to `e1` and `vs1`: the push around the cycle (`Pushed`), the
    leaving edge equal to the entering one exactly when nothing is exchanged,
    and the tree exchange (`Exchanged`).
  */
  ghost predicate Pivoted(e0: seq<Edge>, e1: seq<Edge>, vs0: seq<VertexData>, vs1: seq<VertexData>, root: nat, eid: nat,
                          leaving: nat, side: LeavingSide, ka: nat, kb: nat, f: int)
  {
    Pushed(e0, e1, vs0, root, eid, leaving, ka, kb, f) && eid < |e1| &&
    (side == Enter <==> leaving == eid) &&
    Exchanged(vs0, vs1, root, e1[eid].src, e1[eid].dst, eid, leaving, side, ka, kb)
  }

  /**
    What a `Some` result of `run` promises for the network `e0` with
    balances `b0`: the flow on `edges` meets every balance, no feasible flow
    meeting them is cheaper, the value is half of the summed `flow * cost`,
    and the potentials make every edge saturated or of non-negative reduced
    cost.
  */
  ghost predicate Solves(e0: seq<Edge>, b0: seq<int>, edges: seq<Edge>, ret: Ret)
  {
    (forall v: nat :: Net(edges, v) == Net(e0, v) + BalanceOf(b0, v)) &&
    MinimumCost(edges) && ret.edges == FlowCosts(edges) && 2 * GetValue(ret) == TotalCost(edges) &&
    |ret.potential| == VertexBound(|b0|, e0) && EndpointsBelow(edges, |ret.potential|) &&
    forall i :: 0 <= i < |edges| ==> Slack(edges[i], ret.potential)
  }

  /** What the result of `select_edge` says: an eligible edge, or none exists. */
  ghost predicate Chosen(selected: Option<nat>, edges: seq<Edge>, vs: seq<VertexData>)
    requires EndpointsBelow(edges, |vs|)
  {
    (selected.Some? ==> selected.value < |edges| && Eligible(vs, edges[selected.value])) &&
    (selected.None? ==> NoneEligible(edges, vs))
  }

  /** Cutting the artificial pairs off a flow on the prepared edges leaves a flow on the caller's edges. */
  lemma ShapeKept(e0: seq<Edge>, seeds: seq<Edge>, full: seq<Edge>)
    requires SameShape(e0 + seeds, full)
    ensures |e0| <= |full| && SameShape(e0, full[..|e0|])
  {
    forall i | 0 <= i < |e0|
      ensures (e0 + seeds)[i] == e0[i] && full[..|e0|][i] == full[i]
    {
    }
  }

  /**
    What `run` has once the pivots end: the kept edges carry a flow on the
    caller's edges, and a `Some` result solves the caller's problem.
  */
  lemma Concluded(e0: seq<Edge>, b0: seq<int>, e1: seq<Edge>, bal1: seq<int>, vs1: seq<VertexData>,
                  full: seq<Edge>, vs: seq<VertexData>, root: nat, result: Option<Ret>, kept: seq<Edge>)
    requires Prepared(e0, b0, e1, bal1, vs1, root)
    requires SameShape(e1, full) && Paired(full) && Feasible(full) && EndpointsBelow(full, |vs|) && |vs| == root + 1
    requires forall v: nat :: Net(full, v) == Net(e1, v)
    requires NoneEligible(full, vs)
    requires 2 * root <= |full| && kept == full[..|full| - 2 * root]
    requires result.Some? <==> Idle(full[|full| - 2 * root..])
    requires result.Some? ==> result.value == Ret(FlowCosts(kept), Potentials(vs, root))
    ensures SameShape(e0, kept)
    ensures result.Some? ==> Solves(e0, b0, kept, result.value)
  {
    ShapeKept(e0, Seeds(Padded(b0, root), root, One() + PositiveCosts(e0)), full);
    assert |full| - 2 * root == |e0|;
    if result.Some? {
      Finished(e0, b0, e1, bal1, vs1, full, vs, root);
    }
  }

  /**
    The end of `run` once no edge is eligible and no artificial edge carries
    flow: the caller's edges carry a minimum-cost flow that meets the
    balances, certified by the potentials of the real vertices.
  */
  lemma Finished(e0: seq<Edge>, b0: seq<int>, e1: seq<Edge>, bal1: seq<int>, vs1: seq<VertexData>,
                 full: seq<Edge>, vs: seq<VertexData>, root: nat)
    requires Prepared(e0, b0, e1, bal1, vs1, root)
    requires SameShape(e1, full) && Paired(full) && Feasible(full) && EndpointsBelow(full, |vs|) && |vs| == root + 1
    requires forall v: nat :: Net(full, v) == Net(e1, v)
    requires NoneEligible(full, vs) && Idle(full[|e0|..])
    ensures Solves(e0, b0, full[..|e0|], Ret(FlowCosts(full[..|e0|]), Potentials(vs, root)))
  {
    ShapeKept(e0, Seeds(Padded(b0, root), root, One() + PositiveCosts(e0)), full);
    var o, a := full[..|e0|], full[|e0|..];
    assert o + a == full;
    OptimalWithoutIdle(o, a, vs);
    ValueIsHalfCost(o);
    FinishedSlack(e0, full, vs, root);
    FinishedNets(e0, b0, e1, bal1, vs1, full, root);
  }

  /** The potentials of the real vertices keep every kept edge saturated or of non-negative reduced cost. */
  lemma FinishedSlack(e0: seq<Edge>, full: seq<Edge>, vs: seq<VertexData>, root: nat)
    requires |e0| <= |full| && SameShape(e0, full[..|e0|]) && Paired(full[..|e0|])
    requires forall k :: 0 <= k < |e0| ==> e0[k].src < root
    requires EndpointsBelow(full, |vs|) && NoneEligible(full, vs) && root <= |vs|
    ensures EndpointsBelow(full[..|e0|], root)
    ensures forall i :: 0 <= i < |e0| ==> Slack(full[..|e0|][i], Potentials(vs, root))
  {
    var o := full[..|e0|];
    PairedBelow(o, root);
    var pot := Potentials(vs, root);
    forall i | 0 <= i < |o|
      ensures Slack(o[i], pot)
    {
      assert o[i] == full[i] && !Eligible(vs, full[i]);
    }
  }

  /** Net flow of the kept edges: the caller's net flow plus the balance, at every vertex. */
  lemma FinishedNets(e0: seq<Edge>, b0: seq<int>, e1: seq<Edge>, bal1: seq<int>, vs1: seq<VertexData>,
                     full: seq<Edge>, root: nat)
    requires Prepared(e0, b0, e1, bal1, vs1, root)
    requires |e0| <= |full| && SameShape(e0, full[..|e0|]) && Idle(full[|e0|..])
    requires forall v: nat :: Net(full, v) == Net(e1, v)
    ensures forall v: nat :: Net(full[..|e0|], v) == Net(e0, v) + BalanceOf(b0, v)
  {
    var o, a := full[..|e0|], full[|e0|..];
    assert o + a == full;
    forall v: nat
      ensures Net(o, v) == Net(e0, v) + BalanceOf(b0, v)
    {
      IdleSuffix(o, a, v);
      if v == root {
        NetNoSource(o, v);
        NetNoSource(e0, v);
      } else {
        PreparedConserves(e0, b0, e1, bal1, vs1, root, v);
        assert v < |bal1| ==> bal1[v] == 0;
      }
    }
  }

  class NetworkSimplex {
    var edges: seq<Edge>
    var balances: seq<int>

    /** Pairs mirror each other and no edge is over capacity. */
    ghost predicate Valid()
      reads this
    {
      Paired(edges) && Feasible(edges)
    }

    /** `NetworkSimplex::new`. */
    constructor ()
      ensures edges == [] && balances == [] && Valid()
    {
      edges := [];
      balances := [];
    }

    function Balance(v: nat): int
      reads this
    {
      BalanceOf(balances, v)
    }

    /** `add_supply`: zero-extend the balances to cover `v`, then add `b` at `v`. */
    method AddSupply(v: nat, b: int)
      modifies this
      ensures edges == old(edges)
      ensures balances == SupplyAdded(old(balances), v, b)
      ensures forall w: nat :: Balance(w) == old(Balance(w)) + (if w == v then b else 0)
    {
      var n := if v + 1 > |balances| then v + 1 else |balances|;
      balances := balances + seq(n - |balances|, _ => 0);
      balances := balances[v := balances[v] + b];
    }

    /** `add_demand`: a supply of `-b`. */
    method AddDemand(v: nat, b: int)
      modifies this
      ensures edges == old(edges)
      ensures balances == SupplyAdded(old(balances), v, -b)
      ensures forall w: nat :: Balance(w) == old(Balance(w)) - (if w == v then b else 0)
    {
      AddSupply(v, -b);
    }

    /**
      `add_edge`: `None` stands for the panic on `lower > upper`.  Otherwise
      the forward edge starts at its lower bound, the reverse edge has
      capacity `-lower`, and a non-zero lower bound is moved into the balances
      so that net flow plus balance stays the same at every vertex.
    */
    method AddEdge(src: nat, dst: nat, lower: int, upper: int, cost: int) returns (id: Option<nat>)
      requires Valid()
      modifies this
      ensures Valid()
      ensures lower > upper ==> id == None && edges == old(edges) && balances == old(balances)
      ensures lower <= upper ==>
        id == Some(|old(edges)|) && |old(edges)| % 2 == 0 &&
        edges == old(edges) + [Edge(src, dst, lower, upper, cost), Edge(dst, src, -lower, -lower, -cost)]
      ensures lower <= upper && !IsZero(lower) ==>
        balances == SupplyAdded(SupplyAdded(old(balances), src, -lower), dst, lower)
      ensures lower <= upper && IsZero(lower) ==> balances == old(balances)
      ensures forall v: nat :: Net(edges, v) + Balance(v) == old(Net(edges, v) + Balance(v))
    {
      if lower > upper {
        return None;
      }
      PairedEven(edges);
      var i := |edges|;
      ghost var e0 := edges;
      edges := edges + [Edge(src, dst, lower, upper, cost)];
      edges := edges + [Edge(dst, src, -lower, -lower, -cost)];
      forall v: nat
        ensures Net(edges, v) == Net(e0, v) + (if src == v then lower else 0) - (if dst == v then lower else 0)
      {
        NetAppend(e0, Edge(src, dst, lower, upper, cost), v);
        NetAppend(e0 + [Edge(src, dst, lower, upper, cost)], Edge(dst, src, -lower, -lower, -cost), v);
      }
      forall k | 0 <= k < |edges|
        ensures PairedAt(edges, k)
      {
        if k < i {
          assert PairedAt(e0, k);
        }
      }
      if !IsZero(lower) {
        AddDemand(src, lower);
        AddSupply(dst, lower);
      }
      id := Some(i);
    }

    /** `add_flow`: push `f` along `e` and withdraw it from the reverse; true iff `e` is now saturated. */
    method AddFlow(e: nat, f: int) returns (saturated: bool)
      requires e < |edges| && Rev(e) < |edges|
      modifies this
      ensures edges == AddFlowTo(old(edges), e, f) && balances == old(balances)
      ensures saturated <==> edges[e].flow == edges[e].capacity
    {
      var r := Rev(e);
      edges := edges[r := edges[r].(flow := edges[r].flow - f)];
      edges := edges[e := edges[e].(flow := edges[e].flow + f)];
      saturated := edges[e].flow == edges[e].capacity;
    }

    /**
      One round of the `for` loop in `update_tree`, for the tree edge `eid`
      of the popped vertex `u`: the edge to `u`'s parent is skipped, any other
      edge makes its far end a child of `u`, relabelled and pushed on `stack`.
    */
    method VisitTreeEdge(data: TemporaryData, u: nat, eid: nat, stack: seq<nat>,
                         ghost vs0: seq<VertexData>, ghost v0: nat,
                         ghost np: seq<Option<nat>>, ghost npe: seq<Option<nat>>, ghost rank: seq<int>,
                         ghost moved: set<nat>, ghost popped: set<nat>, ghost todo: set<nat>, ghost rest: set<nat>)
      returns (stack': seq<nat>, ghost moved': set<nat>)
      requires Setting(edges, vs0, v0, np, npe, rank)
      requires Expanding(vs0, u, popped, rest) && eid in rest
      requires Walk(edges, vs0, data.vertices, v0, np, npe, rank, stack, moved, popped, todo, rest)
      modifies data`vertices
      ensures Walk(edges, vs0, data.vertices, v0, np, npe, rank, stack', moved', popped, todo, rest - {eid})
    {
      assert TreeEdgeOk(edges, vs0, np, npe, u, eid);
      var e := edges[eid];
      if data.vertices[u].parent == Some(e.dst) {
        WalkSkip(edges, vs0, data.vertices, v0, np, npe, rank, stack, moved, popped, todo, rest, u, eid);
        return stack, moved;
      }
      ghost var vs := data.vertices;
      data.vertices := data.vertices[e.dst := data.vertices[e.dst].(
        parent := Some(u),
        parentEdge := Some(Rev(eid)),
        depth := data.vertices[e.src].depth + 1,
        potential := data.vertices[e.src].potential + e.cost)];
      WalkAdopt(edges, vs0, vs, data.vertices, v0, np, npe, rank, stack, moved, popped, todo, rest, u, eid, e);
      stack' := stack + [e.dst];
      moved' := moved + {e.dst};
    }

    /**
      The `for` loop of `update_tree` over the tree edges of the popped vertex
      `u`, in any order; children found are pushed on `stack`.
    */
    method ExpandVertex(data: TemporaryData, u: nat, stack: seq<nat>,
                        ghost vs0: seq<VertexData>, ghost v0: nat,
                        ghost np: seq<Option<nat>>, ghost npe: seq<Option<nat>>, ghost rank: seq<int>,
                        ghost moved: set<nat>, ghost popped: set<nat>, ghost todo: set<nat>)
      returns (stack': seq<nat>, ghost moved': set<nat>)
      requires Setting(edges, vs0, v0, np, npe, rank) && u < |vs0|
      requires Expanding(vs0, u, popped, vs0[u].treeEdges)
      requires Walk(edges, vs0, data.vertices, v0, np, npe, rank, stack, moved, popped, todo, vs0[u].treeEdges)
      modifies data`vertices
      ensures Walk(edges, vs0, data.vertices, v0, np, npe, rank, stack', moved', popped, todo, {})
    {
      stack' := stack;
      moved' := moved;
      LabelsParent(edges, vs0, data.vertices, v0, np, npe, rank, moved, u);
      var adj := data.vertices[u].treeEdges;
      var rest := adj;
      while rest != {}
        invariant Expanding(vs0, u, popped, rest)
        invariant Walk(edges, vs0, data.vertices, v0, np, npe, rank, stack', moved', popped, todo, rest)
        decreases rest
      {
        var eid :| eid in rest;
        stack', moved' := VisitTreeEdge(data, u, eid, stack', vs0, v0, np, npe, rank, moved', popped, todo, rest);
        rest := rest - {eid};
      }
    }

    /**
      `update_tree`: relabel, with an explicit stack, the subtree hanging below
      `v`.  The ghost orientation `np`/`npe` (ranked by `rank`) is the tree the
      `tree_edges` sets describe; afterwards every vertex below `v` in that
      orientation has its parent, parent edge, depth and potential recomputed
      from its new parent, and every other vertex is unchanged.
    */
    method UpdateTree(data: TemporaryData, v: nat,
                      ghost np: seq<Option<nat>>, ghost npe: seq<Option<nat>>, ghost rank: seq<int>)
      returns (ghost moved: set<nat>)
      requires Setting(edges, data.vertices, v, np, npe, rank)
      modifies data`vertices
      ensures Relabelled(edges, old(data.vertices), data.vertices, v, np, npe, rank, moved)
    {
      ghost var vs0 := data.vertices;
      var stack := [v];
      moved := {v};
      ghost var popped: set<nat> := {};
      ghost var todo := Below(|vs0|);
      WalkStart(edges, vs0, v, np, npe, rank);
      while stack != []
        invariant Walk(edges, vs0, data.vertices, v, np, npe, rank, stack, moved, popped, todo, {})
        decreases todo
      {
        WalkPop(edges, vs0, data.vertices, v, np, npe, rank, stack, moved, popped, todo);
        var u := stack[|stack| - 1];
        stack := stack[..|stack| - 1];
        popped := popped + {u};
        todo := todo - {u};
        stack, moved := ExpandVertex(data, u, stack, vs0, v, np, npe, rank, moved, popped, todo);
      }
      WalkDone(edges, vs0, data.vertices, v, np, npe, rank, moved, popped, todo);
    }

    /**
      The first loop of `prepare_data`: every edge's source is made a vertex
      (the record list grows with default records), the edge's id is pushed on
      its adjacency list, and `infinity` sums one and the positive costs.
    */
    method ScanEdges(data: TemporaryData) returns (infinity: int)
      requires data.vertices == [] && data.n == |balances|
      modifies data`vertices, data`n
      ensures data.n == VertexBound(|balances|, edges) && |data.vertices| <= data.n
      ensures forall k :: 0 <= k < |edges| ==> edges[k].src < |data.vertices|
      ensures forall u :: 0 <= u < |data.vertices| ==> data.vertices[u] == DefaultVertex().(adjacentEdges := OutIds(edges, u))
      ensures infinity == One() + PositiveCosts(edges)
    {
      infinity := One();
      var i := 0;
      while i < |edges|
        invariant Scanned(edges, |balances|, i, data.n, data.vertices)
        invariant infinity == One() + PositiveCosts(edges[..i])
      {
        var e := edges[i];
        ghost var vs, n := data.vertices, data.n;
        data.n := if data.n >= 1 + e.src then data.n else 1 + e.src;
        data.vertices := data.vertices + seq(data.n - |data.vertices|, _ => DefaultVertex());
        ghost var grown := data.vertices;
        data.vertices := data.vertices[e.src := data.vertices[e.src].(adjacentEdges := data.vertices[e.src].adjacentEdges + [i])];
        ScanStep(edges, |balances|, i, n, vs, data.n, grown, data.vertices);
        if IsPositive(e.cost) {
          infinity := infinity + e.cost;
        }
        i := i + 1;
      }
      assert edges[..i] == edges;
    }

    /**
      One round of the seeding loop of `prepare_data`, for the real vertex
      `v`: its balance `b` is taken out (`mem::replace` by zero), an
      artificial pair of cost `infinity` joins `v` and the root, directed from
      the root into `v` when `b` is negative and out of `v` otherwise,
      carrying `|b|`; both ends list the new edge and take it as a tree edge.
    */
    method SeedVertex(data: TemporaryData, v: nat, infinity: int, ghost e0: seq<Edge>, ghost bal: seq<int>)
      requires v < data.root && Seeding(edges, balances, data.vertices, e0, bal, data.root, infinity, v)
      modifies this, data`vertices
      ensures Seeding(edges, balances, data.vertices, e0, bal, data.root, infinity, v + 1)
    {
      var root := data.root;
      SeedsOk(e0, bal[..v], root, infinity);
      ghost var edges0, balances0, vs0 := edges, balances, data.vertices;
      var b := balances[v];
      balances := balances[v := Zero()];
      var x, y, cap;
      if IsNegative(b) {
        x, y, cap := root, v, -b;
      } else {
        x, y, cap := v, root, b + One();
      }
      var eid := AddEdge(x, y, Zero(), cap, infinity);
      var id := eid.value;
      SeedFlow(edges0, b, v, root, infinity, x, y, cap);
      var _ := AddFlow(id, Abs(b));
      data.vertices := data.vertices[x := data.vertices[x].(adjacentEdges := data.vertices[x].adjacentEdges + [id])];
      data.vertices := data.vertices[y := data.vertices[y].(adjacentEdges := data.vertices[y].adjacentEdges + [Rev(id)])];
      data.vertices := data.vertices[x := data.vertices[x].(treeEdges := data.vertices[x].treeEdges + {id})];
      data.vertices := data.vertices[y := data.vertices[y].(treeEdges := data.vertices[y].treeEdges + {Rev(id)})];
      StampAll(vs0, x, y, id, data.vertices);
      SeedingStep(edges0, balances0, vs0, e0, bal, root, infinity, v, x, y, edges, data.vertices);
    }

    /**
      `prepare_data`: scan the edges, add the root after every vertex,
      zero-extend the balances to the real vertices, seed one artificial pair
      per real vertex, fix the block size and relabel the whole star from the
      root.  `sqrtLen` stands for the integer square root of the edge count,
      which the source computes in floating point.
    */
    method PrepareData(sqrtLen: nat) returns (data: TemporaryData)
      requires Valid()
      modifies this
      ensures fresh(data) && Valid()
      ensures Prepared(old(edges), old(balances), edges, balances, data.vertices, data.root)
      ensures TreeOk(edges, data.vertices, data.root)
      ensures data.n == data.root + 1 && data.nextScanStart == 0
      ensures data.blockSize == if sqrtLen + 10 <= |edges| then sqrtLen + 10 else |edges|
    {
      PairedEven(edges);
      data := new TemporaryData(|balances|);
      data.vertices := [];
      var infinity := ScanEdges(data);
      data.root := data.n;
      data.n := data.n + 1;
      SeedTree(data, infinity);
      data.blockSize := if sqrtLen + 10 <= |edges| then sqrtLen + 10 else |edges|;
    }

    /**
      What follows the first loop of `prepare_data`: the record list and the
      balances are resized (the root is the last vertex), the seeding loop
      runs, and the closing `update_tree(root)` hangs the star; the block
      size, set just before `update_tree` in the source, is read by neither.
    */
    method SeedTree(data: TemporaryData, infinity: int)
      requires Valid() && |edges| % 2 == 0 && data.n == data.root + 1
      requires data.root == VertexBound(|balances|, edges) && |data.vertices| <= data.root
      requires forall k :: 0 <= k < |edges| ==> edges[k].src < |data.vertices|
      requires forall u :: 0 <= u < |data.vertices| ==> data.vertices[u] == DefaultVertex().(adjacentEdges := OutIds(edges, u))
      requires infinity == One() + PositiveCosts(edges)
      modifies this, data`vertices
      ensures Valid() && TreeOk(edges, data.vertices, data.root)
      ensures Prepared(old(edges), old(balances), edges, balances, data.vertices, data.root)
    {
      ghost var e0, b0, vs1 := edges, balances, data.vertices;
      var root := data.root;
      data.vertices := data.vertices + seq(data.n - |data.vertices|, _ => DefaultVertex());
      balances := balances + seq(data.n - 1 - |balances|, _ => Zero());
      ghost var bal := balances;
      assert bal == Padded(b0, root);
      SeedingStart(e0, vs1, data.vertices, bal, root, infinity);
      SeedAll(data, infinity, e0, bal);
      HangStar(data, infinity, e0, b0, bal);
    }

    /** The closing `update_tree(root)` of `prepare_data`, which hangs the seeded star from the root. */
    method HangStar(data: TemporaryData, infinity: int, ghost e0: seq<Edge>, ghost b0: seq<int>, ghost bal: seq<int>)
      requires Seeding(edges, balances, data.vertices, e0, bal, data.root, infinity, data.root)
      requires data.root == VertexBound(|b0|, e0) && |b0| <= data.root && bal == Padded(b0, data.root)
      requires infinity == One() + PositiveCosts(e0)
      modifies data`vertices
      ensures Valid() && TreeOk(edges, data.vertices, data.root)
      ensures Prepared(e0, b0, edges, balances, data.vertices, data.root)
    {
      var root := data.root;
      SeedingStar(edges, balances, data.vertices, e0, bal, root, infinity);
      SeedSetting(edges, data.vertices, e0, bal, root, infinity);
      ghost var vs := data.vertices;
      ghost var moved := UpdateTree(data, root, StarParents(root), StarParentEdges(bal, |e0|, root), StarRanks(root));
      SeedStar(edges, vs, data.vertices, e0, bal, root, infinity, moved);
      SeedTreeOk(edges, vs, data.vertices, e0, bal, root, infinity);
      SeedPrepared(edges, balances, vs, data.vertices, e0, b0, bal, root, infinity);
      SeedsOk(e0, bal, root, infinity);
    }

    /** The seeding loop of `prepare_data`, over the real vertices `0 .. root - 1`. */
    method SeedAll(data: TemporaryData, infinity: int, ghost e0: seq<Edge>, ghost bal: seq<int>)
      requires Seeding(edges, balances, data.vertices, e0, bal, data.root, infinity, 0)
      modifies this, data`vertices
      ensures Seeding(edges, balances, data.vertices, e0, bal, data.root, infinity, data.root)
    {
      for v := 0 to data.root
        invariant Seeding(edges, balances, data.vertices, e0, bal, data.root, infinity, v)
      {
        SeedVertex(data, v, infinity, e0, bal);
      }
    }

    /**
      `select_edge`: scan the ids cyclically from `next_scan_start`, a block
      of `block_size` at a time, keeping per block the least `(reduced cost,
      id)` among eligible edges; the first block with one returns it, and
      the cursor moves to the id after that block when there is one.
    */
    method SelectEdge(data: TemporaryData) returns (r: Option<nat>)
      requires EndpointsBelow(edges, |data.vertices|)
      requires data.nextScanStart <= |edges| && (data.blockSize >= 1 || |edges| == 0)
      modifies data`nextScanStart
      ensures (r, data.nextScanStart) == Select(edges, data.vertices, old(data.nextScanStart), data.blockSize)
      ensures data.nextScanStart <= |edges|
    {
      var es, vs, start, blockSize := edges, data.vertices, data.nextScanStart, data.blockSize;
      var order := Order(start, |es|);
      OrderIds(start, |es|);
      var p := 0;
      while p < |order|
        invariant p <= |order| && (blockSize >= 1 || p == |order|)
        invariant Scan(es, vs, order, blockSize, 0) == Scan(es, vs, order, blockSize, p)
        invariant data.nextScanStart == start
        decreases |order| - p
      {
        var selection, q := ScanBlock(vs, order, blockSize, p);
        BlockStep(es, vs, order, blockSize, p, q, selection);
        if selection.Some? {
          SelectPick(es, vs, start, blockSize, Pick(Some(selection.value.1), p, q));
          if q < |order| {
            data.nextScanStart := order[q];
          }
          return Some(selection.value.1);
        }
        p := q;
      }
      SelectPick(es, vs, start, blockSize, Pick(None, p, p));
      return None;
    }

    /**
      The `for` loop of `select_edge` over one block of the order, from
      position `p`: it stops after `block_size` ids or at the end of the
      order, and keeps the least `(reduced cost, id)` among eligible ids.
    */
    method ScanBlock(vs: seq<VertexData>, order: seq<nat>, blockSize: nat, p: nat) returns (selection: Option<(int, nat)>, q: nat)
      requires IdsBelow(order, |edges|) && EndpointsBelow(edges, |vs|) && p < |order|
      ensures q == if p + blockSize <= |order| then p + blockSize else |order|
      ensures IdsBelow(order[p..q], |edges|)
      ensures selection == Candidate(edges, vs, BlockBest(edges, vs, order[p..q]))
    {
      selection := None;
      q := p;
      for k := 0 to blockSize
        invariant q == p + k && q <= |order|
        invariant selection == Candidate(edges, vs, BlockBest(edges, vs, order[p..q]))
      {
        if q == |order| {
          break;
        }
        var id := order[q];
        BlockBestStep(edges, vs, order, p, q);
        var e := edges[id];
        if e.flow == e.capacity {
          q := q + 1;
          continue;
        }
        var rc := ReducedCost(vs, e);
        if rc < 0 {
          var candidate := (rc, id);
          if selection.Some? {
            var current := selection.value;
            selection := Some(if candidate.0 < current.0 || (candidate.0 == current.0 && candidate.1 < current.1) then candidate else current);
          } else {
            selection := Some(candidate);
          }
        }
        q := q + 1;
      }
    }

    /**
      The first loop of `pivot`: from both ends of the entering edge `eid`,
      climb from the deeper side until the two meet at the apex `top`,
      keeping in `f` the smallest residual capacity of the edges passed, all
      directed along the cycle.
    */
    method FindApex(data: TemporaryData, eid: nat) returns (top: nat, f: int, ghost ka: nat, ghost kb: nat, ghost wx: nat)
      requires TreeOk(edges, data.vertices, data.root) && eid < |edges|
      ensures Apex(data.vertices, data.root, edges[eid].src, edges[eid].dst, ka, kb)
      ensures top == Up(data.vertices, data.root, edges[eid].src, ka)
      ensures Lowest(edges, Cycle(data.vertices, data.root, edges[eid].src, edges[eid].dst, eid, ka, kb), f, wx)
    {
      ghost var vs, root := data.vertices, data.root;
      var entering := edges[eid];
      var src, dst := entering.src, entering.dst;
      f := ResidualCapacity(entering);
      var a, b := src, dst;
      ka, kb, wx := 0, 0, eid;
      LowestStart(edges, vs, root, src, dst, eid);
      while a != b
        invariant Climbing(vs, root, src, dst, ka, kb)
        invariant a == Up(vs, root, src, ka) && b == Up(vs, root, dst, kb)
        invariant Lowest(edges, Cycle(vs, root, src, dst, eid, ka, kb), f, wx)
        decreases vs[a].depth + vs[b].depth
      {
        if data.vertices[a].depth > data.vertices[b].depth {
          ClimbDown(edges, vs, root, src, dst, eid, ka, kb);
          var downEdge := Rev(data.vertices[a].parentEdge.value);
          var e := edges[downEdge];
          LowestGrow(edges, Cycle(vs, root, src, dst, eid, ka, kb), Cycle(vs, root, src, dst, eid, ka + 1, kb), downEdge, f, wx);
          if ResidualCapacity(e) < f {
            wx := downEdge;
          }
          f := if f <= ResidualCapacity(e) then f else ResidualCapacity(e);
          a := e.src;
          ka := ka + 1;
        } else {
          ClimbUp(edges, vs, root, src, dst, eid, ka, kb);
          var upEdge := data.vertices[b].parentEdge.value;
          var e := edges[upEdge];
          LowestGrow(edges, Cycle(vs, root, src, dst, eid, ka, kb), Cycle(vs, root, src, dst, eid, ka, kb + 1), upEdge, f, wx);
          if ResidualCapacity(e) < f {
            wx := upEdge;
          }
          f := if f <= ResidualCapacity(e) then f else ResidualCapacity(e);
          b := e.dst;
          kb := kb + 1;
        }
      }
      ClimbDone(vs, root, src, dst, ka, kb);
      top := a;
    }

    /**
      The second loop of `pivot`: from `s` up to the apex `top`, push `f`
      along every tree edge directed downwards; the first edge this
      saturates becomes the leaving edge, on the source side.  The ghost
      `walk` lists the vertices passed and `path` the edges pushed.
    */
    method PushDown(data: TemporaryData, s: nat, top: nat, f: int, ghost walk: seq<nat>, ghost path: seq<nat>)
      returns (leaving: Option<nat>, side: LeavingSide)
      requires Climb(data.vertices, walk, path, true) && walk[0] == s && walk[|path|] == top
      requires IdsIn(edges, path) && PairsDistinct(path)
      modifies this
      ensures edges == PushAll(old(edges), path, f) && balances == old(balances)
      ensures leaving == FirstSat(old(edges), f, path)
      ensures side == if leaving.Some? then Src else Enter
    {
      ghost var vs, e0 := data.vertices, edges;
      leaving, side := None, Enter;
      var a := s;
      ghost var k := 0;
      while a != top
        invariant data.vertices == vs && k <= |path| && a == walk[k]
        invariant IdsIn(e0, path[..k])
        invariant edges == PushAll(e0, path[..k], f) && balances == old(balances)
        invariant leaving == FirstSat(e0, f, path[..k])
        invariant side == if leaving.Some? then Src else Enter
        decreases |path| - k
      {
        assert k < |path|;
        ghost var y := path[k];
        assert y < |edges| && Rev(y) < |edges|;
        var vData := data.vertices[a];
        var downEdge := Rev(vData.parentEdge.value);
        var saturated := AddFlow(downEdge, f);
        PushStep(e0, path, k, f, edges);
        if saturated {
          if leaving.None? {
            leaving := Some(downEdge);
            side := Src;
          }
        }
        a := vData.parent.value;
        k := k + 1;
      }
      assert path[..k] == path;
    }

    /**
      The third loop of `pivot`: from `t` up to the apex `top`, push `f`
      along every tree edge directed upwards; every edge this saturates
      becomes the leaving edge, on the destination side, so the last one wins.
    */
    method PushUp(data: TemporaryData, t: nat, top: nat, f: int, ghost walk: seq<nat>, ghost path: seq<nat>,
                  leaving0: Option<nat>, side0: LeavingSide)
      returns (leaving: Option<nat>, side: LeavingSide)
      requires Climb(data.vertices, walk, path, false) && walk[0] == t && walk[|path|] == top
      requires IdsIn(edges, path) && PairsDistinct(path)
      modifies this
      ensures edges == PushAll(old(edges), path, f) && balances == old(balances)
      ensures LastSat(old(edges), f, path).Some? ==> leaving == LastSat(old(edges), f, path) && side == Dst
      ensures LastSat(old(edges), f, path).None? ==> leaving == leaving0 && side == side0
    {
      ghost var vs, e0 := data.vertices, edges;
      leaving, side := leaving0, side0;
      var b := t;
      ghost var k, found := 0, None;
      while b != top
        invariant data.vertices == vs && k <= |path| && b == walk[k]
        invariant IdsIn(e0, path[..k])
        invariant edges == PushAll(e0, path[..k], f) && balances == old(balances)
        invariant found == LastSat(e0, f, path[..k])
        invariant leaving == if found.Some? then found else leaving0
        invariant side == if found.Some? then Dst else side0
        decreases |path| - k
      {
        assert k < |path|;
        ghost var y := path[k];
        assert y < |edges| && Rev(y) < |edges|;
        var vData := data.vertices[b];
        var upEdge := vData.parentEdge.value;
        assert upEdge == y && vData.parent == Some(walk[k + 1]);
        var saturated := AddFlow(upEdge, f);
        PushStep(e0, path, k, f, edges);
        if saturated {
          leaving := Some(upEdge);
          side := Dst;
          found := Some(y);
        }
        b := vData.parent.value;
        k := k + 1;
      }
      assert path[..k] == path;
    }

    /**
      The four `tree_edges` updates of `pivot`: `eid` is inserted at `src` and
      its reverse at `dst`, then `leaving` is removed at `ls` and its reverse
      at `ld`.  Each insertion must be new and each removal must find its
      edge, as the source asserts.
    */
    method SwapTreeEdges(data: TemporaryData, eid: nat, src: nat, dst: nat, leaving: nat, ls: nat, ld: nat, ghost target: seq<VertexData>)
      requires src < |data.vertices| && dst < |data.vertices| && ls < |data.vertices| && ld < |data.vertices|
      requires eid !in data.vertices[src].treeEdges && Rev(eid) !in data.vertices[dst].treeEdges
      requires leaving in data.vertices[ls].treeEdges && Rev(leaving) in data.vertices[ld].treeEdges
      requires |target| == |data.vertices| && forall u :: 0 <= u < |target| ==>
                 target[u] == data.vertices[u].(treeEdges := TreeEdgesAfter(data.vertices[u].treeEdges, u, src, dst, eid, ls, ld, leaving))
      modifies data`vertices
      ensures data.vertices == target
    {
      var vs := data.vertices;
      assert eid !in vs[src].treeEdges;
      vs := vs[src := vs[src].(treeEdges := vs[src].treeEdges + {eid})];
      assert Rev(eid) !in vs[dst].treeEdges;
      vs := vs[dst := vs[dst].(treeEdges := vs[dst].treeEdges + {Rev(eid)})];
      assert leaving in vs[ls].treeEdges;
      vs := vs[ls := vs[ls].(treeEdges := vs[ls].treeEdges - {leaving})];
      assert Rev(leaving) in vs[ld].treeEdges;
      vs := vs[ld := vs[ld].(treeEdges := vs[ld].treeEdges - {Rev(leaving)})];
      assert forall u :: 0 <= u < |target| ==> vs[u] == target[u];
      data.vertices := vs;
    }

    /**
      The end of `pivot` once the leaving edge `leaving` differs from the
      entering edge `eid`: insert `eid` and its reverse into the tree-edge
      sets of their tails (each insertion asserted new), remove `leaving` and
      its reverse (each removal asserted present), then relabel the subtree
      that now hangs from the entering edge.  The ghost `c`, `d`, `x`, `i`
      say which way the exchange goes: `x` is `eid` directed from the side of
      the cut subtree `c`, whose parent edge `i` levels up leaves.
    */
    method ExchangeTree(data: TemporaryData, eid: nat, leaving: nat, side: LeavingSide,
                        ghost c: nat, ghost d: nat, ghost x: nat, ghost i: nat)
      requires ExchangeOk(edges, data.vertices, data.root, c, d, x, i) && eid < |edges| && side != Enter
      requires side == Src ==> x == eid && leaving == DownAt(data.vertices, data.root, c, i)
      requires side == Dst ==> x == Rev(eid) && leaving == UpAt(data.vertices, data.root, c, i)
      modifies data`vertices
      ensures TreeOk(edges, data.vertices, data.root) && |data.vertices| == |old(data.vertices)|
      ensures forall u :: 0 <= u < |data.vertices| ==>
                data.vertices[u].treeEdges == SwappedSet(old(data.vertices), data.root, c, d, x, i, u)
      ensures SameAdjacency(old(data.vertices), data.vertices)
    {
      ghost var vs, root := data.vertices, data.root;
      SwapLeaving(data, eid, leaving, c, d, x, i);
      var src, dst := edges[eid].src, edges[eid].dst;
      var far := if side == Src then dst else src;
      assert side == Dst ==> PairedAt(edges, eid);
      assert far == d;
      ghost var swapped := data.vertices;
      Rehang(data, far, vs, c, x, i);
      SameAdjacencyTrans(vs, swapped, data.vertices);
    }

    /** The exchange of tree edges in `pivot`: `eid`'s pair joins the tree, `leaving`'s pair leaves it. */
    method SwapLeaving(data: TemporaryData, eid: nat, leaving: nat, ghost c: nat, ghost d: nat, ghost x: nat, ghost i: nat)
      requires ExchangeOk(edges, data.vertices, data.root, c, d, x, i) && eid < |edges|
      requires (x == eid && leaving == DownAt(data.vertices, data.root, c, i)) || (x == Rev(eid) && leaving == UpAt(data.vertices, data.root, c, i))
      modifies data`vertices
      ensures data.vertices == Swapped(old(data.vertices), data.root, c, d, x, i)
      ensures SameAdjacency(old(data.vertices), data.vertices)
    {
      ghost var vs, root := data.vertices, data.root;
      SwapPlan(edges, vs, root, c, d, x, i, eid, leaving);
      var src, dst := edges[eid].src, edges[eid].dst;
      var ls, ld := edges[leaving].src, edges[leaving].dst;
      SwapTreeEdges(data, eid, src, dst, leaving, ls, ld, Swapped(vs, root, c, d, x, i));
    }

    /**
      The `match` closing `pivot`: with the tree-edge sets exchanged, relabel
      the subtree cut off at `c`'s `i`-th ancestor from the far end `d` of the
      entering edge `x`, which makes the tree consistent again.
    */
    method Rehang(data: TemporaryData, d: nat, ghost vs: seq<VertexData>, ghost c: nat, ghost x: nat, ghost i: nat)
      requires ExchangeOk(edges, vs, data.root, c, d, x, i) && data.vertices == Swapped(vs, data.root, c, d, x, i)
      modifies data`vertices
      ensures TreeOk(edges, data.vertices, data.root) && |data.vertices| == |vs|
      ensures forall u :: 0 <= u < |data.vertices| ==> data.vertices[u].treeEdges == SwappedSet(vs, data.root, c, d, x, i, u)
      ensures SameAdjacency(old(data.vertices), data.vertices)
    {
      ghost var root := data.root;
      Exchange(edges, vs, root, c, d, x, i);
      ghost var a := UpdateTree(data, d, NP(vs, root, c, d, i), NPE(vs, root, c, x, i), NR(vs, root, c, d, i));
      RelabelledAdjacency(edges, old(data.vertices), data.vertices, d, NP(vs, root, c, d, i), NPE(vs, root, c, x, i), NR(vs, root, c, d, i), a);
      ExchangeRelabelled(edges, vs, root, c, d, x, i, data.vertices, a);
    }

    /**
      The three pushes of `pivot` around the cycle of `eid`, whose apex
      `top` is `ka` levels above the tail and `kb` above the head, by the
      bottleneck `f`, and the choice of the leaving edge: the last edge the
      push up from the head saturates, else `eid` if its push saturates it,
      else the first edge the push down from the tail saturates.
    */
    method PushAround(data: TemporaryData, eid: nat, top: nat, f: int, ghost ka: nat, ghost kb: nat, ghost wx: nat)
      returns (leaving: nat, side: LeavingSide)
      requires TreeOk(edges, data.vertices, data.root) && eid < |edges| && ReducedCost(data.vertices, edges[eid]) != 0
      requires Apex(data.vertices, data.root, edges[eid].src, edges[eid].dst, ka, kb)
      requires top == Up(data.vertices, data.root, edges[eid].src, ka)
      requires Lowest(edges, Cycle(data.vertices, data.root, edges[eid].src, edges[eid].dst, eid, ka, kb), f, wx)
      modifies this
      ensures IdsIn(old(edges), Cycle(data.vertices, data.root, old(edges[eid].src), old(edges[eid].dst), eid, ka, kb))
      ensures edges == PushAll(old(edges), Cycle(data.vertices, data.root, old(edges[eid].src), old(edges[eid].dst), eid, ka, kb), f)
      ensures balances == old(balances)
      ensures Some(leaving) == LeavingChoice(old(edges), data.vertices, data.root, old(edges[eid].src), old(edges[eid].dst), eid, ka, kb, f)
      ensures leaving < |edges| && edges[leaving].flow == edges[leaving].capacity
      ensures side == Enter <==> leaving == eid
      ensures side == Src ==> exists i :: 0 <= i < ka && leaving == DownAt(data.vertices, data.root, old(edges[eid].src), i)
      ensures side == Dst ==> exists j :: 0 <= j < kb && leaving == UpAt(data.vertices, data.root, old(edges[eid].dst), j)
    {
      ghost var vs, root, e0 := data.vertices, data.root, edges;
      var src, dst := edges[eid].src, edges[eid].dst;
      ghost var down, up := DownPath(vs, root, src, ka), UpPath(vs, root, dst, kb);
      PushPhases(e0, vs, root, src, dst, eid, ka, kb, f);
      DownPairsDistinct(e0, vs, root, src, ka);
      UpPairsDistinct(e0, vs, root, dst, kb);
      ClimbDownOf(vs, root, src, ka);
      ClimbUpOf(vs, root, dst, kb);
      var found, fside, saturated := PushFirstHalf(data, eid, src, top, f, Ancestors(vs, root, src, ka), down);
      ghost var e1 := edges;
      var found', s := found, fside;
      if saturated {
        found', s := Some(eid), Enter;
      }
      found', s := PushUp(data, dst, top, f, Ancestors(vs, root, dst, kb), up, found', s);
      LeavingOnCycle(e0, vs, root, src, dst, eid, ka, kb, f, wx, e1, saturated, found, fside, found', s);
      leaving, side := found'.value, s;
      ghost var cycle := Cycle(vs, root, src, dst, eid, ka, kb);
      assert IdsIn(e0, cycle) && edges == PushAll(e0, cycle, f);
      assert data.vertices == vs && data.root == root;
    }

    /**
      The push along the tail's side of the cycle followed by the push on the
      entering edge `eid` itself: the first edge the former saturates, and
      whether the latter saturates `eid`.
    */
    method PushFirstHalf(data: TemporaryData, eid: nat, s: nat, top: nat, f: int, ghost walk: seq<nat>, ghost path: seq<nat>)
      returns (found: Option<nat>, fside: LeavingSide, saturated: bool)
      requires Climb(data.vertices, walk, path, true) && walk[0] == s && walk[|path|] == top
      requires IdsIn(edges, path) && PairsDistinct(path) && eid < |edges| && Rev(eid) < |edges|
      modifies this
      ensures edges == AddFlowTo(PushAll(old(edges), path, f), eid, f) && balances == old(balances)
      ensures found == FirstSat(old(edges), f, path) && fside == if found.Some? then Src else Enter
      ensures saturated <==> edges[eid].flow == edges[eid].capacity
    {
      found, fside := PushDown(data, s, top, f, walk, path);
      saturated := AddFlow(eid, f);
    }

    /**
      The first half of `pivot`, for the edge `eid` of non-zero reduced cost:
      find the apex of its cycle and the bottleneck `f`, push `f` around the
      cycle and pick the leaving edge.  The new flow is within capacity and
      keeps every vertex's net outflow; the leaving edge is `eid` itself
      exactly when the side says so, and otherwise a tree edge of the cycle
      on that side.
    */
    method PushCycle(data: TemporaryData, eid: nat) returns (leaving: nat, side: LeavingSide, ghost ka: nat, ghost kb: nat, ghost f: int)
      requires Valid() && TreeOk(edges, data.vertices, data.root) && eid < |edges|
      requires ReducedCost(data.vertices, edges[eid]) != 0
      modifies this
      ensures Valid() && TreeOk(edges, data.vertices, data.root) && balances == old(balances) && SameShape(old(edges), edges)
      ensures Pushed(old(edges), edges, data.vertices, data.root, eid, leaving, ka, kb, f)
      ensures forall v :: Net(edges, v) == Net(old(edges), v)
      ensures side == Enter <==> leaving == eid
      ensures side == Src ==> exists i :: 0 <= i < ka && leaving == DownAt(data.vertices, data.root, edges[eid].src, i)
      ensures side == Dst ==> exists j :: 0 <= j < kb && leaving == UpAt(data.vertices, data.root, edges[eid].dst, j)
    {
      ghost var vs, root, e0 := data.vertices, data.root, edges;
      var src, dst := edges[eid].src, edges[eid].dst;
      var top, bottleneck, ka', kb', wx := FindApex(data, eid);
      ka, kb, f := ka', kb', bottleneck;
      CyclePush(e0, vs, root, src, dst, eid, ka, kb, f, wx);
      leaving, side := PushAround(data, eid, top, bottleneck, ka, kb, wx);
      assert data.vertices == vs && data.root == root;
      assert edges[eid].src == src && edges[eid].dst == dst;
    }

    /**
      `pivot`: bring the edge `eid`, which has non-zero reduced cost, into
      the spanning tree.  The ghost results say what happened: the cycle of
      `eid` through the apex `ka` levels above its tail and `kb` above its
      head carries the old flow plus its bottleneck `f`; the leaving edge is
      the one `LeavingChoice` names and is now at capacity; and the tree-edge
      sets are untouched when it is `eid` itself, and otherwise exchanged on
      the side `side` names.  The result is again a consistent spanning tree
      over the same adjacency lists, with every vertex's net outflow kept.
    */
    method Pivot(data: TemporaryData, eid: nat)
      returns (ghost leaving: nat, ghost side: LeavingSide, ghost ka: nat, ghost kb: nat, ghost f: int)
      requires Valid() && TreeOk(edges, data.vertices, data.root) && eid < |edges|
      requires ReducedCost(data.vertices, edges[eid]) != 0
      modifies this, data`vertices
      ensures Valid()
      ensures TreeOk(edges, data.vertices, data.root)
      ensures balances == old(balances)
      ensures |data.vertices| == |old(data.vertices)| && SameShape(old(edges), edges)
      ensures forall v :: Net(edges, v) == Net(old(edges), v)
      ensures SameAdjacency(old(data.vertices), data.vertices)
      ensures Pivoted(old(edges), edges, old(data.vertices), data.vertices, data.root, eid, leaving, side, ka, kb, f)
    {
      ghost var vs := data.vertices;
      var l, s, a, b, g := PushCycle(data, eid);
      assert data.vertices == vs;
      Rechain(data, eid, l, s, a, b);
      leaving, side, ka, kb, f := l, s, a, b, g;
    }

    /**
      The tree exchange closing `pivot`.  When the leaving edge `leaving` is
      the entering edge `eid` the tree stays as it is; otherwise `leaving`
      lies on the tail side (`Src`, below the tail's `i`-th ancestor) or on
      the head side (`Dst`), and the exchange cuts the subtree it hangs from
      and rehangs it from `eid`.
    */
    method Rechain(data: TemporaryData, eid: nat, leaving: nat, side: LeavingSide, ghost ka: nat, ghost kb: nat)
      requires TreeOk(edges, data.vertices, data.root) && eid < |edges| && ReducedCost(data.vertices, edges[eid]) != 0
      requires Apex(data.vertices, data.root, edges[eid].src, edges[eid].dst, ka, kb)
      requires side == Enter <==> leaving == eid
      requires side == Src ==> exists i :: 0 <= i < ka && leaving == DownAt(data.vertices, data.root, edges[eid].src, i)
      requires side == Dst ==> exists j :: 0 <= j < kb && leaving == UpAt(data.vertices, data.root, edges[eid].dst, j)
      modifies data`vertices
      ensures TreeOk(edges, data.vertices, data.root) && |data.vertices| == |old(data.vertices)|
      ensures SameAdjacency(old(data.vertices), data.vertices)
      ensures Exchanged(old(data.vertices), data.vertices, data.root, edges[eid].src, edges[eid].dst, eid, leaving, side, ka, kb)
    {
      ghost var vs, root := data.vertices, data.root;
      var src, dst := edges[eid].src, edges[eid].dst;
      if side == Src {
        ghost var i :| 0 <= i < ka && leaving == DownAt(vs, root, src, i);
        SwapSrc(edges, vs, root, src, dst, eid, ka, kb, i);
        ExchangeTree(data, eid, leaving, side, src, dst, eid, i);
        assert ExchangedSets(vs, root, src, dst, eid, i, data.vertices);
      } else if side == Dst {
        ghost var j :| 0 <= j < kb && leaving == UpAt(vs, root, dst, j);
        SwapDst(edges, vs, root, src, dst, eid, ka, kb, j);
        ExchangeTree(data, eid, leaving, side, dst, src, Rev(eid), j);
        assert ExchangedSets(vs, root, dst, src, Rev(eid), j, data.vertices);
      }
    }

    /**
      `run`: prepare the artificial star, pivot while `select_edge` finds an
      eligible edge (at most `fuel` times), split off the artificial pairs
      and fail if one of them carries flow; otherwise return the flow and
      cost of every stored edge and the potential of every real vertex.
      The ghost `pivoted` is the edge store when the pivots stop: the
      caller's edges and the artificial star with the same net flows, and
      the result is `None` exactly when an artificial edge carries flow.
    */
    method Run(sqrtLen: nat, fuel: nat) returns (outcome: RunOutcome, ghost pivoted: seq<Edge>)
      requires Valid()
      modifies this
      ensures Valid()
      ensures outcome.Done? ==>
        SameShape(old(edges), edges) && balances == seq(VertexBound(|old(balances)|, old(edges)), _ => 0)
      ensures outcome.Done? ==>
        SameShape(Star(old(edges), old(balances)), pivoted) && edges == pivoted[..|old(edges)|] &&
        forall v: nat :: Net(pivoted, v) == Net(Star(old(edges), old(balances)), v)
      ensures outcome.Done? ==> (outcome.result.None? <==> exists i :: |old(edges)| <= i < |pivoted| && pivoted[i].flow != 0)
      ensures outcome.Done? && outcome.result.Some? ==> Solves(old(edges), old(balances), edges, outcome.result.value)
    {
      ghost var e0, b0 := edges, balances;
      var data := PrepareData(sqrtLen);
      ghost var e1, bal1, vs1, root := edges, balances, data.vertices, data.root;
      var finished := Pivots(data, fuel);
      pivoted := edges;
      if !finished {
        return OutOfFuel, pivoted;
      }
      var result := Conclude(data, e0, b0, e1, bal1, vs1);
      return Done(result), pivoted;
    }

    /**
      The end of `run`, once no edge is eligible: split off the artificial
      pairs; when none of them carries flow the result is the flow and cost
      of every stored edge with the potentials, and it solves the problem
      posed by the edges `e0` and balances `b0` that `prepare_data` started
      from.
    */
    method Conclude(data: TemporaryData, ghost e0: seq<Edge>, ghost b0: seq<int>, ghost e1: seq<Edge>,
                    ghost bal1: seq<int>, ghost vs1: seq<VertexData>) returns (result: Option<Ret>)
      requires Prepared(e0, b0, e1, bal1, vs1, data.root) && data.n == data.root + 1
      requires Valid() && TreeOk(edges, data.vertices, data.root) && balances == bal1 && SameShape(e1, edges)
      requires |data.vertices| == |vs1| && (forall v: nat :: Net(edges, v) == Net(e1, v))
      requires NoneEligible(edges, data.vertices)
      modifies this
      ensures Valid() && SameShape(e0, edges) && balances == bal1
      ensures |e0| <= |old(edges)| && edges == old(edges)[..|e0|]
      ensures result.None? <==> exists i :: |e0| <= i < |old(edges)| && old(edges)[i].flow != 0
      ensures result.Some? ==> Solves(e0, b0, edges, result.value)
    {
      ghost var full, vs := edges, data.vertices;
      result := Finish(data);
      Concluded(e0, b0, e1, bal1, vs1, full, vs, data.root, result, edges);
      ghost var tail := full[|e0|..];
      assert forall i :: |e0| <= i < |full| ==> full[i] == tail[i - |e0|];
    }

    /**
      The `while let` loop of `run`: pivot on each edge `select_edge`
      returns.  `false` means the bound `fuel` on the number of pivots ran
      out; `true` means `select_edge` found no eligible edge.
    */
    method Pivots(data: TemporaryData, fuel: nat) returns (finished: bool)
      requires Running(data, edges, balances, |data.vertices|)
      modifies this, data`vertices, data`nextScanStart
      ensures Running(data, old(edges), old(balances), old(|data.vertices|))
      ensures finished ==> NoneEligible(edges, data.vertices)
    {
      var left := fuel;
      var selected := Choose(data);
      while selected.Some?
        invariant Running(data, old(edges), old(balances), old(|data.vertices|))
        invariant Chosen(selected, edges, data.vertices)
        decreases left
      {
        if left == 0 {
          return false;
        }
        selected := Advance(data, selected.value, old(edges), old(balances), old(|data.vertices|));
        left := left - 1;
      }
      return true;
    }

    /**
      The state the pivot loop of `run` keeps: a consistent spanning tree
      over the edges `e1` of `prepare_data` with only the flows changed, the
      same net flow at every vertex, and a cursor inside the edge list.
    */
    ghost predicate Running(data: TemporaryData, e1: seq<Edge>, b1: seq<int>, nv: nat)
      reads this, data
    {
      Valid() && TreeOk(edges, data.vertices, data.root) && balances == b1 &&
      SameShape(e1, edges) && |data.vertices| == nv && (forall v: nat :: Net(edges, v) == Net(e1, v)) &&
      data.nextScanStart <= |edges| && (data.blockSize >= 1 || |edges| == 0)
    }

    /** `select_edge`, with what its result says about eligibility. */
    method Choose(data: TemporaryData) returns (selected: Option<nat>)
      requires EndpointsBelow(edges, |data.vertices|)
      requires data.nextScanStart <= |edges| && (data.blockSize >= 1 || |edges| == 0)
      modifies data`nextScanStart
      ensures data.nextScanStart <= |edges| && Chosen(selected, edges, data.vertices)
    {
      var start := data.nextScanStart;
      selected := SelectEdge(data);
      SelectSpec(edges, data.vertices, start, data.blockSize);
    }

    /** One round of the loop of `run`: pivot on the eligible edge `eid`, then select again. */
    method Advance(data: TemporaryData, eid: nat, ghost e1: seq<Edge>, ghost b1: seq<int>, ghost nv: nat)
      returns (selected: Option<nat>)
      requires Running(data, e1, b1, nv) && eid < |edges| && Eligible(data.vertices, edges[eid])
      modifies this, data`vertices, data`nextScanStart
      ensures Running(data, e1, b1, nv) && Chosen(selected, edges, data.vertices)
    {
      ghost var before := edges;
      ghost var leaving, side, ka, kb, f := Pivot(data, eid);
      SameShapeTrans(e1, before, edges);
      selected := Choose(data);
    }

    /**
      The end of `run`: `split_off` the `2 * (n - 1)` artificial edges, fail
      if one of them carries flow, and otherwise collect `(flow, cost)` of
      the remaining edges and the potentials of the real vertices.
    */
    method Finish(data: TemporaryData) returns (result: Option<Ret>)
      requires Valid() && 1 <= data.n && 2 * (data.n - 1) <= |edges| && data.n - 1 <= |data.vertices|
      modifies this
      ensures Valid() && balances == old(balances)
      ensures edges == old(edges)[..|old(edges)| - 2 * (data.n - 1)]
      ensures result.Some? <==> Idle(old(edges)[|old(edges)| - 2 * (data.n - 1)..])
      ensures result.Some? ==> result.value == Ret(FlowCosts(edges), Potentials(data.vertices, data.n - 1))
    {
      PairedEven(edges);
      var cut := |edges| - 2 * (data.n - 1);
      var tail := edges[cut..];
      PairedPrefix(edges, cut);
      edges := edges[..cut];
      for k := 0 to |tail|
        invariant forall j :: 0 <= j < k ==> tail[j].flow == 0
      {
        if !IsZero(tail[k].flow) {
          return None;
        }
      }
      return Some(Ret(FlowCosts(edges), Potentials(data.vertices, data.n - 1)));
    }
  }

  /**
    The stored edges of the source's unit test before `run`: the five
    `add_edge` calls, each followed by its reverse edge.
  */
  function ExampleEdges(): seq<Edge>
  {
    [Edge(0, 1, 1, 2, 1), Edge(1, 0, -1, -1, -1),
     Edge(1, 2, 0, 2, 2), Edge(2, 1, 0, 0, -2),
     Edge(2, 0, -3, 5, 1), Edge(0, 2, 3, 3, -1),
     Edge(0, 2, 0, 3, -2), Edge(2, 0, 0, 0, 2),
     Edge(2, 1, 0, 1, 0), Edge(1, 2, 0, 0, 0)]
  }

  /** The flow the test expects on its five edges: 1, 0, 3, 3, 0. */
  function ExampleFlow(): seq<Edge>
  {
    [Edge(0, 1, 1, 2, 1), Edge(1, 0, -1, -1, -1),
     Edge(1, 2, 0, 2, 2), Edge(2, 1, 0, 0, -2),
     Edge(2, 0, 3, 5, 1), Edge(0, 2, -3, 3, -1),
     Edge(0, 2, 3, 3, -2), Edge(2, 0, -3, 0, 2),
     Edge(2, 1, 0, 1, 0), Edge(1, 2, 0, 0, 0)]
  }

  /** The expected flow meets the test's balances `[-3, 0, 3]` and is of minimum cost, certified by the potentials `0, -1, -1`. */
  lemma ExampleFlowOptimal()
    ensures Paired(ExampleFlow()) && Feasible(ExampleFlow()) && SameShape(ExampleEdges(), ExampleFlow())
    ensures forall v: nat :: Net(ExampleFlow(), v) == Net(ExampleEdges(), v) + BalanceOf([-3, 0, 3], v)
    ensures MinimumCost(ExampleFlow()) && TotalCost(ExampleFlow()) == -4
  {
    var f := ExampleFlow();
    ExamplePaired();
    ExampleNets();
    ExampleCost();
    var vs := [DefaultVertex(), DefaultVertex().(potential := -1), DefaultVertex().(potential := -1)];
    assert EndpointsBelow(f, |vs|);
    assert NoneEligible(f, vs);
    forall g | Alternative(f, g)
      ensures TotalCost(f) <= TotalCost(g)
    {
      Optimality(f, g, vs);
    }
  }

  lemma ExamplePaired()
    ensures Paired(ExampleFlow()) && Feasible(ExampleFlow()) && SameShape(ExampleEdges(), ExampleFlow())
  {
    var f := ExampleFlow();
    forall i | 0 <= i < |f|
      ensures PairedAt(f, i)
    {
    }
  }

  /** The expected flow differs from the stored one on edges 4 to 7 only, which moves 3 units from vertex 0 to vertex 2. */
  lemma ExampleNets()
    ensures forall v: nat :: Net(ExampleFlow(), v) == Net(ExampleEdges(), v) + BalanceOf([-3, 0, 3], v)
  {
    var e := ExampleEdges();
    var e4 := e[4 := e[4].(flow := 3)];
    var e5 := e4[5 := e4[5].(flow := -3)];
    var e6 := e5[6 := e5[6].(flow := 3)];
    var e7 := e6[7 := e6[7].(flow := -3)];
    assert e7 == ExampleFlow();
    forall v: nat
      ensures Net(ExampleFlow(), v) == Net(e, v) + BalanceOf([-3, 0, 3], v)
    {
      NetUpdate(e, 4, 3, v);
      NetUpdate(e4, 5, -3, v);
      NetUpdate(e5, 6, 3, v);
      NetUpdate(e6, 7, -3, v);
    }
  }

  /** `1 * 1 + 3 * 1 + 3 * (-2)`, counted once on each edge of a pair. */
  lemma ExampleCost()
    ensures TotalCost(ExampleFlow()) == -4
  {
    var f := ExampleFlow();
    forall k | 0 < k <= |f|
      ensures TotalCost(f[..k]) == TotalCost(f[..k - 1]) + f[k - 1].flow * f[k - 1].cost
    {
      assert f[..k][..k - 1] == f[..k - 1];
    }
    assert f[..0] == [] && f[..|f|] == f;
    assert TotalCost(f[..2]) == 2;
    assert TotalCost(f[..4]) == 2;
    assert TotalCost(f[..6]) == 8;
    assert TotalCost(f[..8]) == -4;
  }

  /** One more edge of a prefix adds its flow at its tail and its `flow * cost` to the total. */
  lemma PrefixStep(e: seq<Edge>, k: nat, v: nat)
    requires k < |e|
    ensures Net(e[..k + 1], v) == Net(e[..k], v) + (if e[k].src == v then e[k].flow else 0)
    ensures TotalCost(e[..k + 1]) == TotalCost(e[..k]) + e[k].flow * e[k].cost
  {
    assert e[..k + 1][..k] == e[..k];
  }

  /** The ends, capacities and costs of a flow on the test network. */
  lemma ExampleShape(e: seq<Edge>)
    requires SameShape(ExampleEdges(), e)
    ensures |e| == 10
    ensures e[0].src == 0 && e[0].dst == 1 && e[0].capacity == 2 && e[0].cost == 1
    ensures e[1].src == 1 && e[1].dst == 0 && e[1].capacity == -1 && e[1].cost == -1
    ensures e[2].src == 1 && e[2].dst == 2 && e[2].capacity == 2 && e[2].cost == 2
    ensures e[3].src == 2 && e[3].dst == 1 && e[3].capacity == 0 && e[3].cost == -2
    ensures e[4].src == 2 && e[4].dst == 0 && e[4].capacity == 5 && e[4].cost == 1
    ensures e[5].src == 0 && e[5].dst == 2 && e[5].capacity == 3 && e[5].cost == -1
    ensures e[6].src == 0 && e[6].dst == 2 && e[6].capacity == 3 && e[6].cost == -2
    ensures e[7].src == 2 && e[7].dst == 0 && e[7].capacity == 0 && e[7].cost == 2
    ensures e[8].src == 2 && e[8].dst == 1 && e[8].capacity == 1 && e[8].cost == 0
    ensures e[9].src == 1 && e[9].dst == 2 && e[9].capacity == 0 && e[9].cost == 0
  {
    var x := ExampleEdges();
    assert e[0].src == x[0].src && e[0].dst == x[0].dst && e[0].capacity == x[0].capacity && e[0].cost == x[0].cost;
    assert e[1].src == x[1].src && e[1].dst == x[1].dst && e[1].capacity == x[1].capacity && e[1].cost == x[1].cost;
    assert e[2].src == x[2].src && e[2].dst == x[2].dst && e[2].capacity == x[2].capacity && e[2].cost == x[2].cost;
    assert e[3].src == x[3].src && e[3].dst == x[3].dst && e[3].capacity == x[3].capacity && e[3].cost == x[3].cost;
    assert e[4].src == x[4].src && e[4].dst == x[4].dst && e[4].capacity == x[4].capacity && e[4].cost == x[4].cost;
    assert e[5].src == x[5].src && e[5].dst == x[5].dst && e[5].capacity == x[5].capacity && e[5].cost == x[5].cost;
    assert e[6].src == x[6].src && e[6].dst == x[6].dst && e[6].capacity == x[6].capacity && e[6].cost == x[6].cost;
    assert e[7].src == x[7].src && e[7].dst == x[7].dst && e[7].capacity == x[7].capacity && e[7].cost == x[7].cost;
    assert e[8].src == x[8].src && e[8].dst == x[8].dst && e[8].capacity == x[8].capacity && e[8].cost == x[8].cost;
    assert e[9].src == x[9].src && e[9].dst == x[9].dst && e[9].capacity == x[9].capacity && e[9].cost == x[9].cost;
  }

  /** Net flow out of vertices 0 and 1 and the summed `flow * cost` of any flow on the test network, edge by edge. */
  lemma ExampleSums(e: seq<Edge>)
    requires SameShape(ExampleEdges(), e)
    ensures |e| == 10
    ensures Net(e, 0) == e[0].flow + e[5].flow + e[6].flow
    ensures Net(e, 1) == e[1].flow + e[2].flow + e[9].flow
    ensures TotalCost(e) == e[0].flow - e[1].flow + 2 * e[2].flow - 2 * e[3].flow + e[4].flow - e[5].flow
                            - 2 * e[6].flow + 2 * e[7].flow
  {
    ExampleShape(e);
    assert e[..0] == [] && e[..10] == e;
    PrefixStep(e, 0, 0);
    PrefixStep(e, 0, 1);
    PrefixStep(e, 1, 0);
    PrefixStep(e, 1, 1);
    PrefixStep(e, 2, 0);
    PrefixStep(e, 2, 1);
    PrefixStep(e, 3, 0);
    PrefixStep(e, 3, 1);
    PrefixStep(e, 4, 0);
    PrefixStep(e, 4, 1);
    PrefixStep(e, 5, 0);
    PrefixStep(e, 5, 1);
    PrefixStep(e, 6, 0);
    PrefixStep(e, 6, 1);
    PrefixStep(e, 7, 0);
    PrefixStep(e, 7, 1);
    PrefixStep(e, 8, 0);
    PrefixStep(e, 8, 1);
    PrefixStep(e, 9, 0);
    PrefixStep(e, 9, 1);
  }

  /**
    The test's flow is the only optimal one: a feasible flow on the test
    network with its net flows and its cost `-4` carries `1, 0, 3, 3, 0` on
    the five edges.  (Every unit more on the edge `0 -> 1` or on `2 -> 1`,
    or less on `0 -> 2`, costs more.)
  */
  lemma ExampleFlowUnique(e: seq<Edge>)
    requires SameShape(ExampleEdges(), e) && Paired(e) && Feasible(e)
    requires forall v: nat :: Net(e, v) == Net(ExampleFlow(), v)
    requires TotalCost(e) == -4
    ensures |e| == 10 && e[0].flow == 1 && e[2].flow == 0 && e[4].flow == 3 && e[6].flow == 3 && e[8].flow == 0
  {
    var f := ExampleFlow();
    ExampleSums(e);
    ExampleSums(f);
    assert Net(e, 0) == Net(f, 0) && Net(e, 1) == Net(f, 1);
    assert PairedAt(e, 0) && PairedAt(e, 2) && PairedAt(e, 4) && PairedAt(e, 6) && PairedAt(e, 8);
    assert e[0].flow <= e[0].capacity;
    assert e[1].flow <= e[1].capacity;
    assert e[2].flow <= e[2].capacity;
    assert e[3].flow <= e[3].capacity;
    assert e[4].flow <= e[4].capacity;
    assert e[5].flow <= e[5].capacity;
    assert e[6].flow <= e[6].capacity;
    assert e[7].flow <= e[7].capacity;
    assert e[8].flow <= e[8].capacity;
    assert e[9].flow <= e[9].capacity;
  }

  /**
    A `Some` result of `run` on the test network is the one the test
    expects: value `-2` and flows `1, 0, 3, 3, 0` on the five edges.  Of the
    potentials, the optimality conditions fix vertex 2 one below vertex 0,
    and put vertex 1 between three and one below vertex 0; the test's `-1`
    is one of those.
  */
  lemma ExampleValue(edges: seq<Edge>, ret: Ret)
    requires Solves(ExampleEdges(), [-3, 0, 3], edges, ret)
    requires SameShape(ExampleEdges(), edges) && Paired(edges) && Feasible(edges)
    ensures GetValue(ret) == -2
    ensures |ret.edges| == 10
    ensures GetFlow(ret, 0) == 1 && GetFlow(ret, 2) == 0 && GetFlow(ret, 4) == 3 && GetFlow(ret, 6) == 3 && GetFlow(ret, 8) == 0
    ensures |ret.potential| >= 3 && GetPotential(ret, 2) - GetPotential(ret, 0) == -1
    ensures -3 <= GetPotential(ret, 1) - GetPotential(ret, 0) <= -1
  {
    ExampleFlowOptimal();
    var f := ExampleFlow();
    assert Alternative(edges, f) by {
      assert SameShape(edges, f);
    }
    assert Alternative(f, edges) by {
      assert SameShape(f, edges);
    }
    ExampleFlowUnique(edges);
    ExampleShape(edges);
    assert PairedAt(edges, 0) && PairedAt(edges, 4);
    var p := ret.potential;
    assert Slack(edges[4], p) && Slack(edges[5], p) && Slack(edges[0], p) && Slack(edges[2], p) && Slack(edges[8], p);
  }

  /** The network of the source's unit test: two balances and five edges, one with a negative lower bound. */
  method ExampleNetwork() returns (ns: NetworkSimplex)
    ensures fresh(ns) && ns.Valid() && ns.edges == ExampleEdges() && ns.balances == [-3, 0, 3]
  {
    ns := new NetworkSimplex();
    ns.AddSupply(0, 1);
    ns.AddDemand(1, 1);
    var e0 := ns.AddEdge(0, 1, 1, 2, 1);
    var e1 := ns.AddEdge(1, 2, 0, 2, 2);
    var e2 := ns.AddEdge(2, 0, -3, 5, 1);
    var e3 := ns.AddEdge(0, 2, 0, 3, -2);
    var e4 := ns.AddEdge(2, 1, 0, 1, 0);
    assert ns.edges == ExampleEdges();
    assert ns.balances == [-3, 0, 3];
  }

  /**
    The source's unit test: a `Some` result of `run` has the value `-2` and
    the flows `1, 0, 3, 3, 0`; the potentials, offset by vertex 0's, are `0`
    for vertex 0, `-1` for vertex 2 and between `-3` and `-1` for vertex 1.
  */
  method Example(sqrtLen: nat, fuel: nat) returns (value: Option<int>, flow: seq<int>, potential: seq<int>)
    ensures value.Some? ==> value.value == -2 && flow == [1, 0, 3, 3, 0]
    ensures value.Some? ==> |potential| == 3 && potential[0] == 0 && potential[2] == -1 && -3 <= potential[1] <= -1
    ensures value.None? ==> flow == [] && potential == []
  {
    var ns := ExampleNetwork();
    var outcome, pivoted := ns.Run(sqrtLen, fuel);
    value, flow, potential := None, [], [];
    if outcome.Done? && outcome.result.Some? {
      var ret := outcome.result.value;
      ExampleValue(ns.edges, ret);
      value := Some(GetValue(ret));
      flow := [GetFlow(ret, 0), GetFlow(ret, 2), GetFlow(ret, 4), GetFlow(ret, 6), GetFlow(ret, 8)];
      var offset := GetPotential(ret, 0);
      potential := [0, GetPotential(ret, 1) - offset, GetPotential(ret, 2) - offset];
    }
  }
}
