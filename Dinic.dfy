/**
  Dinic's maximum-flow algorithm (`flow::dinic::Dinic`).

  The residual graph is a vector of adjacency lists.  Every call of
  `add_edge` stores a forward edge (flow 0) and a reverse edge (flow equal to
  the capacity); the two carry each other's position in `rev` and their flows
  always add up to the common `upper`.  The flow of an original edge is the
  `flow` of its forward half.

  `Net(edges, v)` is the sum of the `flow` fields stored at `v`.  Sending `f`
  units along a residual edge `v -> w` raises `Net(v)` by `f` and lowers
  `Net(w)` by `f`, so the change of `Net` is the net amount pushed out of each
  vertex; every call below states that change exactly.
*/
module Dinic {
  import opened FlowNum

  /** `!0` on a 64-bit `usize`, the cursor value of an exhausted vertex. */
  const UsizeMax: nat := 0xFFFF_FFFF_FFFF_FFFF

  datatype Edge = Edge(dst: nat, rev: nat, flow: int, upper: int)

  /** The position of the forward half of an edge: `(src, index in edges[src])`. */
  datatype EdgeId = EdgeId(src: nat, index: nat)

  /** The pairing and bounds invariant of the edge stored at `edges[u][i]`. */
  ghost predicate PairedAt(edges: seq<seq<Edge>>, u: nat, i: nat)
    requires u < |edges| && i < |edges[u]|
  {
    var e := edges[u][i];
    && e.dst < |edges| && e.rev < |edges[e.dst]|
    && !(e.dst == u && e.rev == i)
    && edges[e.dst][e.rev].dst == u && edges[e.dst][e.rev].rev == i
    && edges[e.dst][e.rev].upper == e.upper
    && e.flow + edges[e.dst][e.rev].flow == e.upper
    && 0 <= e.flow <= e.upper
  }

  ghost predicate Paired(edges: seq<seq<Edge>>) {
    forall u: nat, i: nat :: u < |edges| && i < |edges[u]| ==> PairedAt(edges, u, i)
  }

  /** Same vertices, same edges, same endpoints and capacities; flows may differ. */
  ghost predicate SameShape(a: seq<seq<Edge>>, b: seq<seq<Edge>>) {
    && |a| == |b|
    && (forall u :: 0 <= u < |a| ==> |a[u]| == |b[u]|)
    && (forall u, i :: 0 <= u < |a| && 0 <= i < |a[u]| && i < |b[u]| ==>
          b[u][i].dst == a[u][i].dst && b[u][i].rev == a[u][i].rev && b[u][i].upper == a[u][i].upper)
  }

  /** `b` extends `a` by new vertices and new edges at the end of the lists. */
  ghost predicate Extends(a: seq<seq<Edge>>, b: seq<seq<Edge>>) {
    && |a| <= |b|
    && (forall u :: 0 <= u < |a| ==> |a[u]| <= |b[u]|)
    && (forall u, i :: 0 <= u < |a| && 0 <= i < |a[u]| && i < |b[u]| ==> b[u][i] == a[u][i])
  }

  function SumFlows(es: seq<Edge>): int
  {
    if es == [] then 0 else SumFlows(es[..|es| - 1]) + es[|es| - 1].flow
  }

  /** The sum of the flows stored at `v`; zero at a vertex that has no list yet. */
  function Net(edges: seq<seq<Edge>>, v: nat): int
  {
    if v < |edges| then SumFlows(edges[v]) else 0
  }

  /** The residual capacities `upper - flow` of a list, summed. */
  function SumResidual(es: seq<Edge>): int
  {
    if es == [] then 0 else SumResidual(es[..|es| - 1]) + (es[|es| - 1].upper - es[|es| - 1].flow)
  }

  lemma {:induction false} SumResidualNonneg(es: seq<Edge>)
    requires forall i :: 0 <= i < |es| ==> es[i].flow <= es[i].upper
    ensures SumResidual(es) >= 0
    decreases |es|
  {
    if es != [] {
      SumResidualNonneg(es[..|es| - 1]);
    }
  }

  lemma {:induction false} SumFlowsUpdate(es: seq<Edge>, i: nat, x: int)
    requires i < |es|
    ensures SumFlows(es[i := es[i].(flow := x)]) == SumFlows(es) - es[i].flow + x
    decreases |es|
  {
    var es' := es[i := es[i].(flow := x)];
    if i < |es| - 1 {
      assert es'[..|es'| - 1] == es[..|es| - 1][i := es[i].(flow := x)];
      SumFlowsUpdate(es[..|es| - 1], i, x);
    } else {
      assert es'[..|es'| - 1] == es[..|es| - 1];
    }
  }

  lemma {:induction false} SumFlowsAppend(es: seq<Edge>, e: Edge)
    ensures SumFlows(es + [e]) == SumFlows(es) + e.flow
  {
    assert (es + [e])[..|es + [e]| - 1] == es;
  }

  /** Replace the flow of `edges[u][i]` by `x`. */
  function SetFlow(edges: seq<seq<Edge>>, u: nat, i: nat, x: int): seq<seq<Edge>>
    requires u < |edges| && i < |edges[u]|
  {
    edges[u := edges[u][i := edges[u][i].(flow := x)]]
  }

  /** The edge stored at `edges[u][i]` points at an existing edge. */
  ghost predicate Linked(edges: seq<seq<Edge>>, u: nat, i: nat)
  {
    u < |edges| && i < |edges[u]| && edges[u][i].dst < |edges| && edges[u][i].rev < |edges[edges[u][i].dst]|
  }

  /** Move `f` units from the flow of `edges[u][i]` to the flow of its pair. */
  function Push(edges: seq<seq<Edge>>, u: nat, i: nat, f: int): (r: seq<seq<Edge>>)
    requires Linked(edges, u, i)
    ensures SameShape(edges, r)
  {
    var e := edges[u][i];
    var mid := SetFlow(edges, u, i, e.flow - f);
    SetFlow(mid, e.dst, e.rev, mid[e.dst][e.rev].flow + f)
  }

  /** Which stored edges a push rewrites, and how. */
  lemma PushCells(edges: seq<seq<Edge>>, u: nat, i: nat, f: int)
    requires Paired(edges) && u < |edges| && i < |edges[u]|
    ensures PairedAt(edges, u, i) && Linked(edges, u, i)
    ensures var fin := Push(edges, u, i, f);
      var v, r := edges[u][i].dst, edges[u][i].rev;
      && fin[u][i] == edges[u][i].(flow := edges[u][i].flow - f)
      && fin[v][r] == edges[v][r].(flow := edges[v][r].flow + f)
      && (forall x, j :: 0 <= x < |edges| && 0 <= j < |edges[x]| && !(x == u && j == i) && !(x == v && j == r) ==>
            fin[x][j] == edges[x][j])
      && (forall x :: 0 <= x < |edges| && x != u && x != v ==> fin[x] == edges[x])
  {
    assert PairedAt(edges, u, i);
  }

  /**
    Moving `f` units between the two halves of a pair, as `primal_dfs` does,
    keeps the pairing invariant.
  */
  lemma PushPaired(edges: seq<seq<Edge>>, u: nat, i: nat, f: int)
    requires Paired(edges) && u < |edges| && i < |edges[u]|
    requires 0 <= f <= edges[u][i].flow
    ensures Linked(edges, u, i) && Paired(Push(edges, u, i, f))
  {
    PushCells(edges, u, i, f);
    var fin := Push(edges, u, i, f);
    var v, r := edges[u][i].dst, edges[u][i].rev;
    forall x: nat, j: nat | x < |fin| && j < |fin[x]|
      ensures PairedAt(fin, x, j)
    {
      assert PairedAt(edges, x, j);
      var y, k := edges[x][j].dst, edges[x][j].rev;
      if !(x == u && j == i) && !(x == v && j == r) {
        assert !(y == u && k == i) && !(y == v && k == r);
      }
    }
  }

  /** A push changes `Net` at the two endpoints only, by `-f` and `+f`. */
  lemma PushNet(edges: seq<seq<Edge>>, u: nat, i: nat, f: int)
    requires Paired(edges) && u < |edges| && i < |edges[u]|
    ensures Linked(edges, u, i)
    ensures forall x: nat :: (Net(Push(edges, u, i, f), x) == Net(edges, x)
      - (if x == u then f else 0) + (if x == edges[u][i].dst then f else 0))
  {
    assert PairedAt(edges, u, i);
    var e := edges[u][i];
    var mid: seq<seq<Edge>> := SetFlow(edges, u, i, e.flow - f);
    SumFlowsUpdate(edges[u], i, e.flow - f);
    SumFlowsUpdate(mid[e.dst], e.rev, mid[e.dst][e.rev].flow + f);
  }

  /** The two pushes of `add_edge` on lists that already reach `src` and `dst`. */
  function WithEdge(edges: seq<seq<Edge>>, src: nat, dst: nat, capacity: int): seq<seq<Edge>>
    requires src < |edges| && dst < |edges|
  {
    var e := |edges[src]|;
    var re := |edges[dst]| + if src == dst then 1 else 0;
    var a := edges[src := edges[src] + [Edge(dst, re, 0, capacity)]];
    a[dst := a[dst] + [Edge(src, e, capacity, capacity)]]
  }

  lemma WithEdgeCells(edges: seq<seq<Edge>>, src: nat, dst: nat, capacity: int)
    requires src < |edges| && dst < |edges|
    ensures var w := WithEdge(edges, src, dst, capacity);
      var e := |edges[src]|;
      var re := |edges[dst]| + if src == dst then 1 else 0;
      && |w| == |edges| && Extends(edges, w)
      && (forall x :: 0 <= x < |w| ==>
            |w[x]| == |edges[x]| + (if x == src then 1 else 0) + (if x == dst then 1 else 0))
      && e < |w[src]| && w[src][e] == Edge(dst, re, 0, capacity)
      && re < |w[dst]| && w[dst][re] == Edge(src, e, capacity, capacity)
  {
  }

  /** The new pair satisfies the invariant and the old edges keep theirs. */
  lemma WithEdgePaired(edges: seq<seq<Edge>>, src: nat, dst: nat, capacity: int)
    requires Paired(edges) && src < |edges| && dst < |edges| && capacity >= 0
    ensures Paired(WithEdge(edges, src, dst, capacity))
  {
    WithEdgeCells(edges, src, dst, capacity);
    var w := WithEdge(edges, src, dst, capacity);
    forall u: nat, i: nat | u < |w| && i < |w[u]|
      ensures PairedAt(w, u, i)
    {
      if i < |edges[u]| {
        assert PairedAt(edges, u, i);
      }
    }
  }

  lemma WithEdgeNet(edges: seq<seq<Edge>>, src: nat, dst: nat, capacity: int)
    requires src < |edges| && dst < |edges|
    ensures forall x: nat :: (Net(WithEdge(edges, src, dst, capacity), x)
      == Net(edges, x) + (if x == dst then capacity else 0))
  {
    var e := |edges[src]|;
    var re := |edges[dst]| + if src == dst then 1 else 0;
    var a: seq<seq<Edge>> := edges[src := edges[src] + [Edge(dst, re, 0, capacity)]];
    SumFlowsAppend(edges[src], Edge(dst, re, 0, capacity));
    SumFlowsAppend(a[dst], Edge(src, e, capacity, capacity));
  }

  /** Appending empty lists keeps every stored edge and the invariant. */
  lemma PadPaired(edges: seq<seq<Edge>>, k: nat)
    requires Paired(edges)
    ensures Paired(edges + seq(k, _ => []))
  {
    var padded := edges + seq(k, _ => []);
    forall u: nat, i: nat | u < |padded| && i < |padded[u]|
      ensures PairedAt(padded, u, i)
    {
      assert PairedAt(edges, u, i);
    }
  }

  lemma PadNet(edges: seq<seq<Edge>>, k: nat)
    ensures forall x: nat :: Net(edges + seq(k, _ => []), x) == Net(edges, x)
  {
  }

  /** No residual edge leads from a labelled vertex (label below `n`) to an unlabelled one. */
  ghost predicate Closed(edges: seq<seq<Edge>>, level: seq<nat>, n: nat)
    requires |level| == n == |edges|
  {
    forall u, i :: 0 <= u < n && 0 <= i < |edges[u]| && level[u] < n ==>
      edges[u][i].flow < edges[u][i].upper ==> edges[u][i].dst < n && level[edges[u][i].dst] < n
  }

  /**
    Some set of vertices holds `s` but not `t`, and every edge out of it
    with residual capacity stays inside it: no augmenting path leads from
    `s` to `t`.
  */
  ghost predicate Separated(edges: seq<seq<Edge>>, s: nat, t: nat)
  {
    exists cut: set<nat> :: s in cut && t !in cut &&
      forall u, i :: u in cut && 0 <= u < |edges| && 0 <= i < |edges[u]| ==>
        edges[u][i].flow < edges[u][i].upper ==> edges[u][i].dst in cut
  }

  /** The vertices labelled below `n` by a levelling that stopped short of `t` separate `s` from `t`. */
  lemma ClosedSeparated(edges: seq<seq<Edge>>, level: seq<nat>, n: nat, s: nat, t: nat)
    requires |level| == n == |edges| && s < n && t < n
    requires level[s] < n && level[t] == n && Closed(edges, level, n)
    ensures Separated(edges, s, t)
  {
    var cut := set v | 0 <= v < n && level[v] < n;
    assert s in cut && t !in cut;
    forall u, i | u in cut && 0 <= u < |edges| && 0 <= i < |edges[u]| && edges[u][i].flow < edges[u][i].upper
      ensures edges[u][i].dst in cut
    {
    }
  }

  /** The set of entries of a sequence. */
  ghost function Elems(q: seq<nat>): set<nat>
  {
    set x | x in q
  }

  /** A sequence without repetitions has as many distinct elements as entries. */
  lemma {:induction false} DistinctCard(q: seq<nat>)
    requires forall k, l :: 0 <= k < l < |q| ==> q[k] != q[l]
    ensures |Elems(q)| == |q|
    decreases |q|
  {
    if q != [] {
      var p := q[..|q| - 1];
      DistinctCard(p);
      assert q == p + [q[|q| - 1]];
      assert q[|q| - 1] !in Elems(p);
      assert Elems(q) == Elems(p) + {q[|q| - 1]};
    }
  }

  /** A sequence without repetitions over `[0, n)` has at most `n` entries. */
  lemma DistinctBound(q: seq<nat>, n: nat)
    requires forall k, l :: 0 <= k < l < |q| ==> q[k] != q[l]
    requires forall k :: 0 <= k < |q| ==> q[k] < n
    ensures |q| <= n
  {
    DistinctCard(q);
    BoundedSetCard(Elems(q), n);
  }

  lemma {:induction false} BoundedSetCard(a: set<nat>, n: nat)
    requires forall x :: x in a ==> x < n
    ensures |a| <= n
    decreases n
  {
    if n == 0 {
      assert a == {};
    } else {
      var b := a - {n - 1};
      BoundedSetCard(b, n - 1);
      assert a == b || a == b + {n - 1};
    }
  }

  /** Breadth-first search state: the queue holds exactly the labelled vertices. */
  ghost predicate QueueOk(n: nat, s: nat, t: nat, level: seq<nat>, queue: seq<nat>)
  {
    && |level| == n && s < n && t < n
    && |queue| >= 1 && queue[0] == s
    && (forall k, l :: 0 <= k < l < |queue| ==> queue[k] != queue[l])
    && (forall k :: 0 <= k < |queue| ==> queue[k] < n && level[queue[k]] <= k)
    && (forall x :: 0 <= x < n ==> (level[x] < n <==> x in queue))
    && (forall x :: 0 <= x < n ==> level[x] <= n)
    && level[s] == 0
    && (level[t] == n || t == s)
  }

  /** Every labelled vertex other than `s` was reached over a residual edge from the layer before. */
  ghost predicate ViaOk(edges: seq<seq<Edge>>, n: nat, s: nat, level: seq<nat>, viaU: seq<nat>, viaI: seq<nat>)
    requires |edges| == n == |level|
  {
    && |viaU| == n && |viaI| == n
    && forall v :: 0 <= v < n && v != s && level[v] < n ==>
      && viaU[v] < n && viaI[v] < |edges[viaU[v]]| && edges[viaU[v]][viaI[v]].dst == v
      && edges[viaU[v]][viaI[v]].flow < edges[viaU[v]][viaI[v]].upper
      && level[viaU[v]] + 1 == level[v]
  }

  /** The first `j` edges of `u` lead, when residual, to labelled vertices. */
  ghost predicate ScannedUpTo(edges: seq<seq<Edge>>, n: nat, level: seq<nat>, u: nat, j: nat)
    requires u < |edges| && j <= |edges[u]| && |level| == n
  {
    forall i :: 0 <= i < j ==> edges[u][i].flow < edges[u][i].upper ==>
      edges[u][i].dst < n && level[edges[u][i].dst] < n
  }

  /** The first `count` queued vertices have had all their edges scanned. */
  ghost predicate Processed(edges: seq<seq<Edge>>, n: nat, level: seq<nat>, queue: seq<nat>, count: nat)
    requires |edges| == n == |level| && count <= |queue| && forall k :: 0 <= k < |queue| ==> queue[k] < n
  {
    forall k :: 0 <= k < count ==> ScannedUpTo(edges, n, level, queue[k], |edges[queue[k]]|)
  }

  /** Labelling more vertices keeps every scan result. */
  lemma MoreLabelled(edges: seq<seq<Edge>>, n: nat, level: seq<nat>, level': seq<nat>,
                     queue: seq<nat>, count: nat, u: nat, j: nat)
    requires |edges| == n == |level| == |level'| && count <= |queue|
    requires forall k :: 0 <= k < |queue| ==> queue[k] < n
    requires u < n && j <= |edges[u]|
    requires forall x :: 0 <= x < n && level[x] < n ==> level'[x] < n
    requires Processed(edges, n, level, queue, count) && ScannedUpTo(edges, n, level, u, j)
    ensures Processed(edges, n, level', queue, count) && ScannedUpTo(edges, n, level', u, j)
  {
    forall k | 0 <= k < count
      ensures ScannedUpTo(edges, n, level', queue[k], |edges[queue[k]]|)
    {
      assert ScannedUpTo(edges, n, level, queue[k], |edges[queue[k]]|);
    }
  }

  /**
    Labelling the far end `dst` of a residual edge `edges[u][j]` with
    `level[u] + 1` keeps the label below `n` and, when `dst` is queued, the
    queue invariant.
  */
  lemma LabelQueue(n: nat, s: nat, t: nat, level: seq<nat>, queue: seq<nat>,
                   qPos: nat, u: nat, dst: nat)
    requires QueueOk(n, s, t, level, queue)
    requires 0 < qPos <= |queue| && u == queue[qPos - 1] && dst < n && level[dst] == n
    ensures level[u] + 1 < n
    ensures var level' := level[dst := level[u] + 1];
      && (forall x :: 0 <= x < n && level[x] < n ==> level'[x] < n)
      && (forall x :: 0 <= x < n ==> level'[x] <= n)
      && level'[s] == 0
      && (dst != t ==> QueueOk(n, s, t, level', queue + [dst]))
      && |queue| + 1 <= n
  {
    assert dst !in queue;
    DistinctBound(queue + [dst], n);
    assert level[u] <= qPos - 1;
  }

  /** The edge just used becomes the witness of `dst`; the other witnesses keep their labels. */
  lemma LabelVia(edges: seq<seq<Edge>>, n: nat, s: nat, level: seq<nat>, viaU: seq<nat>, viaI: seq<nat>,
                 u: nat, j: nat)
    requires |edges| == n == |level| && ViaOk(edges, n, s, level, viaU, viaI)
    requires u < n && j < |edges[u]| && level[u] < n
    requires edges[u][j].flow < edges[u][j].upper && edges[u][j].dst < n && level[edges[u][j].dst] == n
    requires edges[u][j].dst != s
    ensures var dst := edges[u][j].dst;
      ViaOk(edges, n, s, level[dst := level[u] + 1], viaU[dst := u], viaI[dst := j])
  {
  }

  /** The search starts with `s` alone labelled and queued. */
  lemma BfsStart(edges: seq<seq<Edge>>, n: nat, s: nat, t: nat)
    requires |edges| == n && s < n && t < n
    ensures var level := seq(n, _ => n)[s := 0];
      && QueueOk(n, s, t, level, [s])
      && ViaOk(edges, n, s, level, seq(n, _ => 0), seq(n, _ => 0))
      && Processed(edges, n, level, [s], 0)
  {
  }

  /** One more edge of `u` scanned. */
  lemma ScanStep(edges: seq<seq<Edge>>, n: nat, level: seq<nat>, u: nat, j: nat)
    requires u < |edges| && j < |edges[u]| && |level| == n
    requires ScannedUpTo(edges, n, level, u, j)
    requires edges[u][j].flow < edges[u][j].upper ==> edges[u][j].dst < n && level[edges[u][j].dst] < n
    ensures ScannedUpTo(edges, n, level, u, j + 1)
  {
  }

  /** Closing the scan of the next queued vertex. */
  lemma ProcessedStep(edges: seq<seq<Edge>>, n: nat, level: seq<nat>, queue: seq<nat>, count: nat)
    requires |edges| == n == |level| && count < |queue| && forall k :: 0 <= k < |queue| ==> queue[k] < n
    requires Processed(edges, n, level, queue, count)
    requires ScannedUpTo(edges, n, level, queue[count], |edges[queue[count]]|)
    ensures Processed(edges, n, level, queue, count + 1)
  {
  }

  /**
    Each labelled vertex other than `s` is the far end of a residual edge
    from a vertex labelled one less.
  */
  ghost predicate Levelled(edges: seq<seq<Edge>>, n: nat, s: nat, level: seq<nat>)
    requires |edges| == n == |level|
  {
    forall v :: 0 <= v < n && v != s && level[v] < n ==>
      exists u, i :: (0 <= u < n && 0 <= i < |edges[u]| && edges[u][i].dst == v
        && edges[u][i].flow < edges[u][i].upper && level[u] + 1 == level[v])
  }

  lemma ViaLevelled(edges: seq<seq<Edge>>, n: nat, s: nat, level: seq<nat>, viaU: seq<nat>, viaI: seq<nat>)
    requires |edges| == n == |level| && ViaOk(edges, n, s, level, viaU, viaI)
    ensures Levelled(edges, n, s, level)
  {
    forall v | 0 <= v < n && v != s && level[v] < n
      ensures exists u, i :: (0 <= u < n && 0 <= i < |edges[u]| && edges[u][i].dst == v
        && edges[u][i].flow < edges[u][i].upper && level[u] + 1 == level[v])
    {
      var u, i := viaU[v], viaI[v];
      assert 0 <= u < n && 0 <= i < |edges[u]| && edges[u][i].dst == v
        && edges[u][i].flow < edges[u][i].upper && level[u] + 1 == level[v];
    }
  }

  /** A finished search, all of whose queue was scanned, leaves a closed labelled set. */
  lemma ClosedFromProcessed(edges: seq<seq<Edge>>, n: nat, s: nat, t: nat, level: seq<nat>,
                            queue: seq<nat>)
    requires |edges| == n && QueueOk(n, s, t, level, queue)
    requires Processed(edges, n, level, queue, |queue|)
    ensures Closed(edges, level, n)
  {
    forall u, i | 0 <= u < n && 0 <= i < |edges[u]| && level[u] < n
      ensures edges[u][i].flow < edges[u][i].upper ==> edges[u][i].dst < n && level[edges[u][i].dst] < n
    {
      assert u in queue;
      var k :| 0 <= k < |queue| && queue[k] == u;
      assert ScannedUpTo(edges, n, level, queue[k], |edges[queue[k]]|);
    }
  }

  /** The invariant of the edge scan of `u` after its first `j` edges. */
  ghost predicate ScanInv(edges: seq<seq<Edge>>, n: nat, s: nat, t: nat, level: seq<nat>, queue: seq<nat>,
                          viaU: seq<nat>, viaI: seq<nat>, qPos: nat, u: nat, j: nat)
  {
    && |edges| == n
    && QueueOk(n, s, t, level, queue) && ViaOk(edges, n, s, level, viaU, viaI)
    && 0 < qPos <= |queue| <= n && u == queue[qPos - 1] && j <= |edges[u]|
    && Processed(edges, n, level, queue, qPos - 1)
    && ScannedUpTo(edges, n, level, u, j)
  }

  /** A scan that has passed every edge of `u` adds `u` to the processed prefix. */
  lemma ScanDone(edges: seq<seq<Edge>>, n: nat, s: nat, t: nat, level: seq<nat>, queue: seq<nat>,
                 viaU: seq<nat>, viaI: seq<nat>, qPos: nat, u: nat, j: nat)
    requires ScanInv(edges, n, s, t, level, queue, viaU, viaI, qPos, u, j)
    requires j >= |edges[u]|
    ensures |level| == n && ViaOk(edges, n, s, level, viaU, viaI)
    ensures QueueOk(n, s, t, level, queue) && qPos <= |queue| <= n
    ensures Processed(edges, n, level, queue, qPos)
  {
    ProcessedStep(edges, n, level, queue, qPos - 1);
  }

  /** An edge that labels nothing extends the scan. */
  lemma ScanSkip(edges: seq<seq<Edge>>, n: nat, s: nat, t: nat, level: seq<nat>, queue: seq<nat>,
                 viaU: seq<nat>, viaI: seq<nat>, qPos: nat, u: nat, j: nat)
    requires ScanInv(edges, n, s, t, level, queue, viaU, viaI, qPos, u, j)
    requires j < |edges[u]|
    requires edges[u][j].dst < n
    requires !(edges[u][j].flow < edges[u][j].upper && level[edges[u][j].dst] == n)
    ensures ScanInv(edges, n, s, t, level, queue, viaU, viaI, qPos, u, j + 1)
  {
    ScanStep(edges, n, level, u, j);
  }

  /** An edge that labels its far end: either `t` is reached or the far end is queued. */
  lemma ScanLabel(edges: seq<seq<Edge>>, n: nat, s: nat, t: nat, level: seq<nat>, queue: seq<nat>,
                  viaU: seq<nat>, viaI: seq<nat>, qPos: nat, u: nat, j: nat, dst: nat, next: nat)
    requires ScanInv(edges, n, s, t, level, queue, viaU, viaI, qPos, u, j)
    requires j < |edges[u]| && dst == edges[u][j].dst && next == level[u] + 1
    requires dst < n && edges[u][j].flow < edges[u][j].upper && level[dst] == n
    ensures ViaOk(edges, n, s, level[dst := next], viaU[dst := u], viaI[dst := j])
    ensures dst == t ==> next < n && dst != s
    ensures dst != t ==> ScanInv(edges, n, s, t, level[dst := next], queue + [dst],
                                 viaU[dst := u], viaI[dst := j], qPos, u, j + 1)
  {
    var level' := level[dst := next];
    LabelQueue(n, s, t, level, queue, qPos, u, dst);
    assert level[s] == 0;
    LabelVia(edges, n, s, level, viaU, viaI, u, j);
    MoreLabelled(edges, n, level, level', queue, qPos - 1, u, j);
    if dst != t {
      MoreLabelled(edges, n, level', level', queue + [dst], qPos - 1, u, j);
      ScanStep(edges, n, level', u, j);
    }
  }

  /** Label sequences where each entry either stays or becomes `n` from a value at most `bound`. */
  ghost predicate Settled(l0: seq<nat>, l1: seq<nat>, n: nat, bound: int)
  {
    |l0| == n && |l1| == n &&
    forall x :: 0 <= x < n ==> l1[x] == l0[x] || (l1[x] == n && l0[x] <= bound)
  }

  /** The lists of vertices labelled above `bound` are unchanged. */
  ghost predicate Untouched(e0: seq<seq<Edge>>, e1: seq<seq<Edge>>, l0: seq<nat>, n: nat, bound: int)
    requires |l0| == n && |e0| == n && |e1| == n
  {
    forall x :: 0 <= x < n && l0[x] > bound ==> e1[x] == e0[x]
  }

  /** `total` units have moved from `s` to `u`. */
  ghost predicate Moved(e0: seq<seq<Edge>>, e1: seq<seq<Edge>>, s: nat, u: nat, total: int) {
    forall x: nat :: Net(e1, x) == Net(e0, x) + (if x == s then total else 0) - (if x == u then total else 0)
  }

  /**
    One successful step of `primal_dfs` at `u`: the nested call from `v`
    (lists `e1` to `e2`, labels `l1` to `l2`) and then the push of its amount
    `f` back along the edge from `u` (lists `e2` to `e3`).  The changes
    accumulated since the loop began keep their shape.
  */
  lemma DfsStep(e0: seq<seq<Edge>>, e1: seq<seq<Edge>>, e2: seq<seq<Edge>>, e3: seq<seq<Edge>>,
                l0: seq<nat>, l1: seq<nat>, l2: seq<nat>, n: nat, s: nat, u: nat, v: nat, total: int, f: int)
    requires |e0| == n && |e1| == n && |e2| == n && |e3| == n && |l0| == n && u < n && v < n
    requires Settled(l0, l1, n, l0[u] as int - 1) && l1[u] == l0[u] && l1[u] <= n && l1[v] < l1[u]
    requires Untouched(e0, e1, l0, n, l0[u]) && Moved(e0, e1, s, u, total)
    requires Settled(l1, l2, n, l1[v]) && Untouched(e1, e2, l1, n, l1[v]) && Moved(e1, e2, s, v, f)
    requires forall x: nat :: Net(e3, x) == Net(e2, x) - (if x == u then f else 0) + (if x == v then f else 0)
    requires forall x :: 0 <= x < n && x != u && x != v ==> e3[x] == e2[x]
    requires SameShape(e0, e1) && SameShape(e1, e2) && SameShape(e2, e3)
    ensures Settled(l0, l2, n, l0[u] as int - 1) && l2[u] == l0[u]
    ensures Untouched(e0, e3, l0, n, l0[u]) && Moved(e0, e3, s, u, total + f)
    ensures SameShape(e0, e3)
  {
    assert l0[v] == l1[v];
  }

  /** Giving `u` the label `n` after its loop settles it too. */
  lemma DfsExhausted(l0: seq<nat>, l1: seq<nat>, n: nat, u: nat)
    requires |l0| == n && u < n && Settled(l0, l1, n, l0[u] as int - 1)
    ensures Settled(l0, l1[u := n], n, l0[u])
  {
  }

  /** Stopping early keeps the settled labels within the wider bound. */
  lemma DfsStopped(l0: seq<nat>, l1: seq<nat>, n: nat, u: nat)
    requires |l0| == n && u < n && Settled(l0, l1, n, l0[u] as int - 1)
    ensures Settled(l0, l1, n, l0[u])
  {
  }

  /**
    The inner loop of `dual` over the edges of the dequeued vertex `u`:
    label and queue every unlabelled far end of a residual edge, and stop
    (`reached`) as soon as that far end is `t`.
  */
  method ScanEdges(edges: seq<seq<Edge>>, n: nat, s: nat, t: nat, u: nat, qPos: nat, level0: seq<nat>, queue0: seq<nat>,
                   ghost viaU0: seq<nat>, ghost viaI0: seq<nat>)
    returns (level: seq<nat>, queue: seq<nat>, ghost viaU: seq<nat>, ghost viaI: seq<nat>,
             reached: bool)
    requires |edges| == n && u < n && forall j :: 0 <= j < |edges[u]| ==> edges[u][j].dst < n
    requires QueueOk(n, s, t, level0, queue0) && ViaOk(edges, n, s, level0, viaU0, viaI0)
    requires 0 < qPos <= |queue0| <= n && u == queue0[qPos - 1]
    requires Processed(edges, n, level0, queue0, qPos - 1)
    ensures |level| == n && ViaOk(edges, n, s, level, viaU, viaI)
    ensures reached ==> level[t] < n && level[s] == 0 && forall x :: 0 <= x < n ==> level[x] <= n
    ensures !reached ==> QueueOk(n, s, t, level, queue) && qPos <= |queue| <= n
    ensures !reached ==> Processed(edges, n, level, queue, qPos)
  {
    level, queue, viaU, viaI := level0, queue0, viaU0, viaI0;
    reached := false;
    var j := 0;
    while j < |edges[u]|
      invariant ScanInv(edges, n, s, t, level, queue, viaU, viaI, qPos, u, j)
    {
      level, queue, viaU, viaI, reached := ScanEdge(edges, n, s, t, u, qPos, j, level, queue, viaU, viaI);
      if reached {
        return;
      }
      j := j + 1;
    }
    ScanDone(edges, n, s, t, level, queue, viaU, viaI, qPos, u, j);
  }

  /** One step of the scan: the edge `edges[u][j]`. */
  method ScanEdge(edges: seq<seq<Edge>>, n: nat, s: nat, t: nat, u: nat, qPos: nat, j: nat,
                  level0: seq<nat>, queue0: seq<nat>, ghost viaU0: seq<nat>, ghost viaI0: seq<nat>)
    returns (level: seq<nat>, queue: seq<nat>, ghost viaU: seq<nat>, ghost viaI: seq<nat>,
             reached: bool)
    requires ScanInv(edges, n, s, t, level0, queue0, viaU0, viaI0, qPos, u, j)
    requires j < |edges[u]| && edges[u][j].dst < n
    ensures |level| == n && ViaOk(edges, n, s, level, viaU, viaI)
    ensures reached ==> level[t] < n && level[s] == 0 && forall x :: 0 <= x < n ==> level[x] <= n
    ensures !reached ==> ScanInv(edges, n, s, t, level, queue, viaU, viaI, qPos, u, j + 1)
  {
    var e := edges[u][j];
    if e.flow < e.upper && level0[e.dst] == n {
      var nextLabel := level0[u] + 1;
      ScanLabel(edges, n, s, t, level0, queue0, viaU0, viaI0, qPos, u, j, e.dst, nextLabel);
      level := level0[e.dst := nextLabel];
      viaU, viaI := viaU0[e.dst := u], viaI0[e.dst := j];
      reached := e.dst == t;
      queue := if reached then queue0 else queue0 + [e.dst];
    } else {
      ScanSkip(edges, n, s, t, level0, queue0, viaU0, viaI0, qPos, u, j);
      level, queue, viaU, viaI, reached := level0, queue0, viaU0, viaI0, false;
    }
  }

  /**
    The search of `dual` on the lists `edges` over `n` vertices; the queue
    reuses the buffer `buffer` after clearing it.
  */
  method Bfs(edges: seq<seq<Edge>>, n: nat, s: nat, t: nat, buffer: seq<nat>) returns (level: seq<nat>, queue: seq<nat>)
    requires Paired(edges) && |edges| == n && s < n && t < n
    ensures |level| == n && (forall x :: 0 <= x < n ==> level[x] <= n) && level[s] == 0
    ensures Levelled(edges, n, s, level)
    ensures level[t] == n ==> Closed(edges, level, n)
  {
    level := seq(n, _ => n);
    queue := buffer;
    queue := [];
    queue := queue + [s];
    level := level[s := 0];
    ghost var viaU: seq<nat> := seq(n, _ => 0);
    ghost var viaI: seq<nat> := seq(n, _ => 0);
    BfsStart(edges, n, s, t);
    var qPos := 0;
    var reached := false;
    while qPos < |queue|
      invariant QueueOk(n, s, t, level, queue)
      invariant ViaOk(edges, n, s, level, viaU, viaI)
      invariant 0 <= qPos <= |queue| <= n
      invariant Processed(edges, n, level, queue, qPos)
      decreases n - qPos
    {
      var u := queue[qPos];
      qPos := qPos + 1;
      DstBound(edges, u);
      level, queue, viaU, viaI, reached := ScanEdges(edges, n, s, t, u, qPos, level, queue, viaU, viaI);
      if reached {
        ViaLevelled(edges, n, s, level, viaU, viaI);
        return;
      }
    }
    BfsDone(edges, n, s, t, level, queue, viaU, viaI);
  }

  /** A search whose queue ran empty: `t` was never labelled and the labelled set is closed. */
  lemma BfsDone(edges: seq<seq<Edge>>, n: nat, s: nat, t: nat, level: seq<nat>, queue: seq<nat>,
                viaU: seq<nat>, viaI: seq<nat>)
    requires |edges| == n && QueueOk(n, s, t, level, queue) && ViaOk(edges, n, s, level, viaU, viaI)
    requires Processed(edges, n, level, queue, |queue|)
    ensures |level| == n && (forall x :: 0 <= x < n ==> level[x] <= n) && level[s] == 0
    ensures Levelled(edges, n, s, level)
    ensures level[t] == n ==> Closed(edges, level, n)
  {
    ClosedFromProcessed(edges, n, s, t, level, queue);
    ViaLevelled(edges, n, s, level, viaU, viaI);
  }

  /** Every edge stored at `u` points at an existing vertex. */
  lemma DstBound(edges: seq<seq<Edge>>, u: nat)
    requires Paired(edges) && u < |edges|
    ensures forall j :: 0 <= j < |edges[u]| ==> edges[u][j].dst < |edges|
  {
    forall j | 0 <= j < |edges[u]|
      ensures edges[u][j].dst < |edges|
    {
      assert PairedAt(edges, u, j);
    }
  }

  /** The per-call scratch state `TemporaryData`. */
  class TemporaryData {
    var n: nat
    var s: nat
    var t: nat
    var level: seq<nat>
    var currentEdge: seq<nat>
    var buffer: seq<nat>

    constructor (n: nat, s: nat, t: nat)
      ensures this.n == n && this.s == s && this.t == t
      ensures level == seq(n, _ => 0) && currentEdge == seq(n, _ => 0) && buffer == []
    {
      this.n, this.s, this.t := n, s, t;
      level := seq(n, _ => 0);
      currentEdge := seq(n, _ => 0);
      buffer := [];
    }
  }

  class Dinic {
    var edges: seq<seq<Edge>>

    ghost predicate Valid()
      reads this
    {
      Paired(edges)
    }

    /** Scratch data that fits the current graph. */
    ghost predicate Fits(data: TemporaryData)
      reads this, data
    {
      && data.n == |edges| && |data.level| == data.n && |data.currentEdge| == data.n
      && data.s < data.n && data.t < data.n
      && (forall x :: 0 <= x < data.n ==> data.level[x] <= data.n)
    }

    /** `Dinic::new`. */
    constructor ()
      ensures Valid() && edges == []
    {
      edges := [];
    }

    /**
      `add_edge`: grow to `max(src, dst) + 1` vertices, push the forward edge
      at `src` and its reverse at `dst`.  A non-negative capacity is what the
      flow invariant needs.
    */
    method AddEdge(src: nat, dst: nat, capacity: int) returns (id: EdgeId)
      requires Valid() && capacity >= 0
      modifies this
      ensures Valid() && Extends(old(edges), edges)
      ensures |edges| == if old(|edges|) > src && old(|edges|) > dst then old(|edges|)
                         else if src >= dst then src + 1 else dst + 1
      ensures var old0 := if src < old(|edges|) then old(|edges[src]|) else 0;
        id == EdgeId(src, old0)
      ensures var re := (if dst < old(|edges|) then old(|edges[dst]|) else 0) + (if src == dst then 1 else 0);
        && id.index < |edges[src]| && edges[src][id.index] == Edge(dst, re, 0, capacity)
        && re < |edges[dst]| && edges[dst][re] == Edge(src, id.index, capacity, capacity)
      ensures forall x :: 0 <= x < |edges| ==>
        |edges[x]| == (if x < old(|edges|) then old(|edges[x]|) else 0)
                      + (if x == src then 1 else 0) + (if x == dst then 1 else 0)
      ensures forall x: nat :: Net(edges, x) == Net(old(edges), x) + (if x == dst then capacity else 0)
    {
      var n := if src >= dst then src + 1 else dst + 1;
      if n < |edges| {
        n := |edges|;
      }
      PadPaired(edges, n - |edges|);
      PadNet(edges, n - |edges|);
      edges := edges + seq(n - |edges|, _ => []);
      ghost var padded := edges;
      var e := |edges[src]|;
      var re := |edges[dst]| + if src == dst then 1 else 0;
      edges := edges[src := edges[src] + [Edge(dst, re, 0, capacity)]];
      edges := edges[dst := edges[dst] + [Edge(src, e, capacity, capacity)]];
      id := EdgeId(src, e);
      assert edges == WithEdge(padded, src, dst, capacity);
      WithEdgeCells(padded, src, dst, capacity);
      WithEdgePaired(padded, src, dst, capacity);
      WithEdgeNet(padded, src, dst, capacity);
    }

    /** `prepare_data`: grow to `max(s, t) + 1` vertices and allocate the scratch data. */
    method PrepareData(s: nat, t: nat) returns (data: TemporaryData)
      requires Valid()
      modifies this
      ensures fresh(data)
      ensures Valid() && Fits(data) && data.s == s && data.t == t
      ensures |edges| >= old(|edges|) && edges == old(edges) + seq(|edges| - old(|edges|), _ => [])
      ensures |edges| == if old(|edges|) > s && old(|edges|) > t then old(|edges|)
                         else if s >= t then s + 1 else t + 1
      ensures forall x: nat :: Net(edges, x) == Net(old(edges), x)
    {
      var n := if s >= t then s + 1 else t + 1;
      if n < |edges| {
        n := |edges|;
      }
      PadPaired(edges, n - |edges|);
      PadNet(edges, n - |edges|);
      edges := edges + seq(n - |edges|, _ => []);
      data := new TemporaryData(n, s, t);
    }

    /**
      `dual`: breadth-first levelling over residual edges from `s`.  Labels
      count BFS layers, `n` marks an unreached vertex, and the search stops as
      soon as `t` is labelled.  When `t` stays unreached, the labelled set is
      closed under residual edges.
    */
    method Dual(data: TemporaryData) returns (b: bool)
      requires Valid() && Fits(data)
      modifies data
      ensures Fits(data) && data.n == old(data.n) && data.s == old(data.s) && data.t == old(data.t)
      ensures data.currentEdge == seq(data.n, _ => 0)
      ensures b <==> data.level[data.t] < data.n
      ensures data.level[data.s] == 0
      ensures Levelled(edges, data.n, data.s, data.level)
      ensures !b ==> Closed(edges, data.level, data.n)
    {
      var level, queue := Bfs(edges, data.n, data.s, data.t, data.buffer);
      b := level[data.t] < data.n;
      data.level := level;
      data.currentEdge := seq(data.n, _ => 0);
      data.buffer := queue;
    }

    /**
      `primal_dfs`: search back from `u` towards `s` over edges whose pair has
      residual capacity and whose far end has a strictly smaller label, and
      push along every path found, up to `limit` in total.  The result is the
      amount moved from `s` to `u`.  A vertex with nothing left to give gets
      the label `n`; only vertices labelled at most `label[u]` are touched.
    */
    method PrimalDfs(u: nat, data: TemporaryData, limit0: int) returns (total: int)
      requires Valid() && Fits(data) && u < data.n && limit0 >= 0
      modifies this, data
      ensures Valid() && Fits(data) && SameShape(old(edges), edges)
      ensures data.n == old(data.n) && data.s == old(data.s) && data.t == old(data.t)
      ensures 0 <= total <= limit0
      ensures Moved(old(edges), edges, data.s, u, total)
      ensures Settled(old(data.level), data.level, data.n, old(data.level[u]))
      ensures Untouched(old(edges), edges, old(data.level), data.n, old(data.level[u]))
      decreases data.level[u], 1
    {
      if u == data.s {
        return limit0;
      }
      ghost var edges0, level0 := edges, data.level;
      var limit := limit0;
      total := 0;
      var i := data.currentEdge[u];
      while i < |edges[u]|
        invariant Valid() && Fits(data) && SameShape(edges0, edges)
        invariant data.n == old(data.n) && data.s == old(data.s) && data.t == old(data.t)
        invariant 0 <= total && 0 <= limit && total + limit == limit0
        invariant Moved(edges0, edges, data.s, u, total)
        invariant Settled(level0, data.level, data.n, level0[u] as int - 1) && data.level[u] == level0[u]
        invariant Untouched(edges0, edges, level0, data.n, level0[u])
        decreases |edges[u]| - i
      {
        var f := DfsEdge(u, i, data, limit, edges0, level0, total);
        total := total + f;
        limit := limit - f;
        if !IsZero(f) && IsZero(limit) {
          if IsZero(edges[u][i].flow) {
            i := i + 1;
          }
          data.currentEdge := data.currentEdge[u := i];
          DfsStopped(level0, data.level, data.n, u);
          return total;
        }
        i := i + 1;
      }
      data.currentEdge := data.currentEdge[u := UsizeMax];
      DfsExhausted(level0, data.level, data.n, u);
      data.level := data.level[u := data.n];
    }

    /**
      One round of `primal_dfs`'s loop at `u`, for its `i`-th edge: when the
      edge has flow and leads to a lower label, the nested call from its far
      end and the push of what that call returns back along the edge.  The
      amount `f` is at most `limit`, and the changes accumulated since the
      loop began (from lists `edges0` and labels `level0`, `total` units
      moved) keep their shape with `total + f` units moved.
    */
    method DfsEdge(u: nat, i: nat, data: TemporaryData, limit: int,
                   ghost edges0: seq<seq<Edge>>, ghost level0: seq<nat>, ghost total: int)
      returns (f: int)
      requires Valid() && Fits(data) && u < data.n && i < |edges[u]| && limit >= 0
      requires |level0| == data.n && SameShape(edges0, edges) && Moved(edges0, edges, data.s, u, total)
      requires Settled(level0, data.level, data.n, level0[u] as int - 1) && data.level[u] == level0[u]
      requires Untouched(edges0, edges, level0, data.n, level0[u])
      modifies this, data
      ensures Valid() && Fits(data) && SameShape(edges0, edges) && |edges[u]| == old(|edges[u]|)
      ensures data.n == old(data.n) && data.s == old(data.s) && data.t == old(data.t)
      ensures 0 <= f <= limit && Moved(edges0, edges, data.s, u, total + f)
      ensures Settled(level0, data.level, data.n, level0[u] as int - 1) && data.level[u] == level0[u]
      ensures Untouched(edges0, edges, level0, data.n, level0[u])
      decreases data.level[u], 0
    {
      var e := edges[u][i];
      assert PairedAt(edges, u, i);
      f := 0;
      if IsPositive(e.flow) && data.level[e.dst] < data.level[u] {
        var newLimit := if limit <= e.flow then limit else e.flow;
        var v := e.dst;
        ghost var edges1, level1 := edges, data.level;
        f := PrimalDfs(v, data, newLimit);
        ghost var edges2 := edges;
        assert edges[u] == edges1[u];
        if !IsZero(f) {
          PushAlong(u, i, f);
        } else {
          assert SameShape(edges2, edges);
        }
        DfsStep(edges0, edges1, edges2, edges, level0, level1, data.level, data.n, data.s, u, v, total, f);
      }
    }

    /** The push of `primal_dfs`: move `f` units from `edges[u][i]` to its pair. */
    method PushAlong(u: nat, i: nat, f: int)
      requires Valid() && u < |edges| && i < |edges[u]| && 0 <= f <= edges[u][i].flow
      modifies this
      ensures Valid() && SameShape(old(edges), edges)
      ensures old(edges[u][i].dst) < |edges|
      ensures forall x: nat :: (Net(edges, x) == Net(old(edges), x)
        - (if x == u then f else 0) + (if x == old(edges[u][i].dst) then f else 0))
      ensures forall x :: 0 <= x < |edges| && x != u && x != old(edges[u][i].dst) ==> edges[x] == old(edges[x])
      ensures edges[u][i] == old(edges[u][i]).(flow := old(edges[u][i].flow) - f)
    {
      PushPaired(edges, u, i, f);
      PushCells(edges, u, i, f);
      PushNet(edges, u, i, f);
      ghost var pushed := Push(edges, u, i, f);
      var v := edges[u][i].dst;
      var r := edges[u][i].rev;
      edges := edges[u := edges[u][i := edges[u][i].(flow := edges[u][i].flow - f)]];
      edges := edges[v := edges[v][r := edges[v][r].(flow := edges[v][r].flow + f)]];
      assert edges == pushed;
    }

    /**
      `augment`: repeat levelling and blocking-flow phases until `t` is
      unreachable or `limit` units have been sent.  Phases are bounded by
      `fuel`; the result is the amount sent from `s` to `t`.  When the
      phases ended because `t` was unreachable (`complete`), no augmenting
      path is left.
    */
    method Augment(s: nat, t: nat, limit: int, fuel: nat) returns (flow: int, complete: bool)
      requires Valid() && s != t && limit >= 0
      modifies this
      ensures Valid() && |edges| >= old(|edges|) && |edges| > s && |edges| > t
      ensures 0 <= flow <= limit
      ensures forall x: nat :: (Net(edges, x) == Net(old(edges), x)
        + (if x == s then flow else 0) - (if x == t then flow else 0))
      ensures complete ==> Separated(edges, s, t)
    {
      var data := PrepareData(s, t);
      flow := 0;
      complete := false;
      var fuelLeft := fuel;
      ghost var edges0 := edges;
      while fuelLeft > 0
        invariant Valid() && Fits(data) && data.s == s && data.t == t && |edges| == |edges0|
        invariant 0 <= flow <= limit
        invariant forall x: nat :: (Net(edges, x) == Net(old(edges), x)
          + (if x == s then flow else 0) - (if x == t then flow else 0))
        invariant !complete
        decreases fuelLeft
      {
        fuelLeft := fuelLeft - 1;
        var more := Dual(data);
        if !more {
          ClosedSeparated(edges, data.level, data.n, s, t);
          complete := true;
          break;
        }
        var f := PrimalDfs(data.t, data, limit - flow);
        flow := flow + f;
        if flow == limit {
          break;
        }
      }
    }

    /**
      `max_flow`: phases with the limit `inf`, the residual capacity out of
      `s`, then the vertices labelled below `n` by the last levelling.  When
      the phases ran to the end (`complete`), that set contains `s` but not
      `t` and no residual edge leaves it: it is a minimum cut.
    */
    method MaxFlow(s: nat, t: nat, fuel: nat) returns (flow: int, cut: seq<nat>, complete: bool)
      requires Valid() && s != t
      modifies this
      ensures Valid() && |edges| >= old(|edges|) && |edges| > s && |edges| > t
      ensures flow >= 0
      ensures forall x: nat :: (Net(edges, x) == Net(old(edges), x)
        + (if x == s then flow else 0) - (if x == t then flow else 0))
      ensures forall k, l :: 0 <= k < l < |cut| ==> cut[k] < cut[l]
      ensures forall v :: v in cut ==> v < |edges|
      ensures complete ==> s in cut && t !in cut
      ensures complete ==> forall u, i :: u in cut && 0 <= i < |edges[u]| ==>
        edges[u][i].flow < edges[u][i].upper ==> edges[u][i].dst in cut
    {
      var data := PrepareData(s, t);
      forall i | 0 <= i < |edges[s]|
        ensures edges[s][i].flow <= edges[s][i].upper
      {
        assert PairedAt(edges, s, i);
      }
      SumResidualNonneg(edges[s]);
      var inf := SumResidual(edges[s]);
      flow := 0;
      complete := false;
      var fuelLeft := fuel;
      ghost var n0 := |edges|;
      while fuelLeft > 0
        invariant Valid() && Fits(data) && data.s == s && data.t == t && |edges| == n0
        invariant flow >= 0
        invariant forall x: nat :: (Net(edges, x) == Net(old(edges), x)
          + (if x == s then flow else 0) - (if x == t then flow else 0))
        invariant !complete
        decreases fuelLeft
      {
        fuelLeft := fuelLeft - 1;
        var more := Dual(data);
        if !more {
          complete := true;
          break;
        }
        var f := PrimalDfs(data.t, data, inf);
        flow := flow + f;
      }
      var level := data.level;
      data.level := [];
      cut := Reached(level, data.n);
      if complete {
        forall u, i | u in cut && 0 <= i < |edges[u]| && edges[u][i].flow < edges[u][i].upper
          ensures edges[u][i].dst in cut
        {
          assert PairedAt(edges, u, i);
        }
      }
    }

    /** `get_flow`: the flow of the forward half, always within `[0, capacity]`. */
    method GetFlow(id: EdgeId) returns (f: int)
      requires Valid() && id.src < |edges| && id.index < |edges[id.src]|
      ensures f == edges[id.src][id.index].flow
      ensures 0 <= f <= edges[id.src][id.index].upper
    {
      assert PairedAt(edges, id.src, id.index);
      f := edges[id.src][id.index].flow;
    }
  }

  /**
    The vertices whose label is below `n`, in increasing order: the source
    side of the minimum cut that `max_flow` collects from the final labels.
  */
  method Reached(level: seq<nat>, n: nat) returns (cut: seq<nat>)
    ensures forall v: nat :: v in cut <==> v < |level| && level[v] < n
    ensures forall k, l :: 0 <= k < l < |cut| ==> cut[k] < cut[l]
  {
    cut := [];
    for i := 0 to |level|
      invariant forall v: nat :: v in cut <==> v < i && level[v] < n
      invariant forall k, l :: 0 <= k < l < |cut| ==> cut[k] < cut[l]
      invariant forall k :: 0 <= k < |cut| ==> cut[k] < i
    {
      if level[i] < n {
        cut := cut + [i];
      }
    }
  }

  /** An original edge of the test network with the flow the test expects. */
  datatype Arc = Arc(src: nat, dst: nat, capacity: int, flow: int)

  function TestArcs(): seq<Arc>
  {
    [Arc(0, 1, 3, 3), Arc(0, 2, 3, 2), Arc(1, 2, 2, 0), Arc(1, 3, 3, 3),
     Arc(2, 4, 2, 2), Arc(3, 4, 4, 1), Arc(3, 5, 2, 2), Arc(4, 5, 3, 3)]
  }

  /** Flow leaving `v` minus flow entering it. */
  function Outflow(arcs: seq<Arc>, v: nat): int
  {
    if arcs == [] then 0 else
      Outflow(arcs[1..], v) + (if arcs[0].src == v then arcs[0].flow else 0)
        - (if arcs[0].dst == v then arcs[0].flow else 0)
  }

  /** Capacity of the arcs leaving the vertex set `c`. */
  function CutCapacity(arcs: seq<Arc>, c: set<nat>): int
  {
    if arcs == [] then 0 else
      CutCapacity(arcs[1..], c) + (if arcs[0].src in c && arcs[0].dst !in c then arcs[0].capacity else 0)
  }

  /**
    The unit test's expected answer is a feasible flow of value 5 whose value
    equals the capacity of the expected cut `{0, 2}`, hence maximum.
  */
  lemma TestAnswerIsMaximum()
    ensures forall k :: 0 <= k < |TestArcs()| ==> 0 <= TestArcs()[k].flow <= TestArcs()[k].capacity
    ensures forall v :: 1 <= v <= 4 ==> Outflow(TestArcs(), v) == 0
    ensures Outflow(TestArcs(), 0) == 5 && Outflow(TestArcs(), 5) == -5
    ensures CutCapacity(TestArcs(), {0, 2}) == 5
  {
  }
}
