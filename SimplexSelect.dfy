/**
  The entering-edge rule of the block-search solver (`select_edge` in
  `network_simplex.rs`).  The edge ids are visited cyclically from the cursor
  `next_scan_start`, in blocks of `block_size` ids.  The first block holding
  an eligible edge (one with residual capacity and negative reduced cost)
  yields the eligible edge of least `(reduced cost, id)` in it, and the
  cursor moves to the id following that block.
*/
module SimplexSelect {
  import opened Wrappers
  import opened SimplexEdges
  import opened SimplexTree

  /** An edge the pivot may bring into the tree: not saturated, and of negative reduced cost. */
  predicate Eligible(vs: seq<VertexData>, e: Edge)
    requires e.src < |vs| && e.dst < |vs|
  {
    e.flow != e.capacity && ReducedCost(vs, e) < 0
  }

  /** The ids `a, a + 1, ..., b - 1`. */
  function Range(a: nat, b: nat): (r: seq<nat>)
    requires a <= b
    ensures |r| == b - a && forall i :: 0 <= i < |r| ==> r[i] == a + i
  {
    seq(b - a, i requires 0 <= i < b - a => a + i)
  }

  /** The scan order of `select_edge`: `start .. len` followed by `0 .. start`. */
  function Order(start: nat, len: nat): (r: seq<nat>)
    requires start <= len
    ensures |r| == len
  {
    Range(start, len) + Range(0, start)
  }

  /** The order lists `start .. len - 1` and then `0 .. start - 1`, so every id below `len` once. */
  lemma OrderIds(start: nat, len: nat)
    requires start <= len
    ensures forall i :: 0 <= i < len - start ==> Order(start, len)[i] == start + i
    ensures forall i :: len - start <= i < len ==> Order(start, len)[i] == i - (len - start)
    ensures IdsBelow(Order(start, len), len)
  {
  }

  /** Every id of the order names an edge. */
  ghost predicate IdsBelow(ids: seq<nat>, n: nat)
  {
    forall k :: 0 <= k < |ids| ==> ids[k] < n
  }

  /** `(reduced cost, id)` of `i` is lexicographically less than that of `j`: the tuple order `min` uses. */
  predicate Precedes(edges: seq<Edge>, vs: seq<VertexData>, i: nat, j: nat)
    requires i < |edges| && j < |edges| && EndpointsBelow(edges, |vs|)
  {
    ReducedCost(vs, edges[i]) < ReducedCost(vs, edges[j]) ||
    (ReducedCost(vs, edges[i]) == ReducedCost(vs, edges[j]) && i < j)
  }

  /**
    The selection of one block `ids`, scanned in order: each eligible id
    replaces the current choice when it precedes it.  The result is an
    eligible id of the block that no eligible id of the block precedes, and
    there is none exactly when the block holds no eligible edge.
  */
  function BlockBest(edges: seq<Edge>, vs: seq<VertexData>, ids: seq<nat>): (r: Option<nat>)
    requires IdsBelow(ids, |edges|) && EndpointsBelow(edges, |vs|)
    ensures r.Some? ==> r.value in ids && r.value < |edges| && Eligible(vs, edges[r.value])
    ensures r.Some? ==> forall k :: 0 <= k < |ids| && Eligible(vs, edges[ids[k]]) ==> !Precedes(edges, vs, ids[k], r.value)
    ensures r.None? <==> forall k :: 0 <= k < |ids| ==> !Eligible(vs, edges[ids[k]])
    decreases |ids|
  {
    if ids == [] then None
    else
      var m := |ids| - 1;
      var prev := BlockBest(edges, vs, ids[..m]);
      assert forall k :: 0 <= k < m ==> ids[..m][k] == ids[k];
      var id := ids[m];
      if !Eligible(vs, edges[id]) then prev
      else if prev.None? || Precedes(edges, vs, id, prev.value) then Some(id)
      else prev
  }

  /** Scanning one more id of the block: the choice so far is kept unless the new id is eligible and precedes it. */
  lemma BlockBestStep(edges: seq<Edge>, vs: seq<VertexData>, order: seq<nat>, p: nat, q: nat)
    requires IdsBelow(order, |edges|) && EndpointsBelow(edges, |vs|) && p <= q < |order|
    ensures IdsBelow(order[p..q], |edges|) && IdsBelow(order[p..q + 1], |edges|)
    ensures var prev := BlockBest(edges, vs, order[p..q]); var id := order[q];
      BlockBest(edges, vs, order[p..q + 1]) ==
        if !Eligible(vs, edges[id]) then prev
        else if prev.None? || Precedes(edges, vs, id, prev.value) then Some(id)
        else prev
  {
    assert order[p..q + 1][..q - p] == order[p..q];
  }

  /** The `(reduced cost, id)` pair `select_edge` keeps for a chosen id. */
  function Candidate(edges: seq<Edge>, vs: seq<VertexData>, best: Option<nat>): Option<(int, nat)>
    requires EndpointsBelow(edges, |vs|) && (best.Some? ==> best.value < |edges|)
  {
    if best.Some? then Some((ReducedCost(vs, edges[best.value]), best.value)) else None
  }

  /** The outcome of a scan: the selected id, and the block `from .. to` of the order it came from. */
  datatype Pick = Pick(best: Option<nat>, from: nat, to: nat)

  /**
    `select_edge`'s loop over the blocks, from position `p` of the order:
    the blocks before the chosen one hold no eligible edge; the chosen one
    is a full block or the last, shorter one, and its best eligible edge is
    the result; there is no result exactly when no edge from `p` on is
    eligible.
  */
  function Scan(edges: seq<Edge>, vs: seq<VertexData>, order: seq<nat>, blockSize: nat, p: nat): (r: Pick)
    requires IdsBelow(order, |edges|) && EndpointsBelow(edges, |vs|) && p <= |order|
    requires blockSize >= 1 || p == |order|
    ensures p <= r.from <= r.to <= |order|
    ensures forall k :: p <= k < r.from ==> !Eligible(vs, edges[order[k]])
    ensures r.best.Some? ==> r.to == (if r.from + blockSize <= |order| then r.from + blockSize else |order|)
    ensures r.best.Some? ==> r.best == BlockBest(edges, vs, order[r.from..r.to])
    ensures r.best.None? ==> r.from == |order| && forall k :: p <= k < |order| ==> !Eligible(vs, edges[order[k]])
    decreases |order| - p
  {
    if p == |order| then Pick(None, p, p)
    else
      var q := if p + blockSize <= |order| then p + blockSize else |order|;
      assert IdsBelow(order[p..q], |edges|);
      var best := BlockBest(edges, vs, order[p..q]);
      if best.Some? then Pick(best, p, q)
      else
        assert forall k :: p <= k < q ==> order[k] == order[p..q][k - p];
        Scan(edges, vs, order, blockSize, q)
  }

  /** One block of the scan: its best edge is the result, or the scan goes on after it. */
  lemma BlockStep(edges: seq<Edge>, vs: seq<VertexData>, order: seq<nat>, blockSize: nat, p: nat, q: nat, sel: Option<(int, nat)>)
    requires IdsBelow(order, |edges|) && EndpointsBelow(edges, |vs|) && p < |order| && blockSize >= 1
    requires q == if p + blockSize <= |order| then p + blockSize else |order|
    requires IdsBelow(order[p..q], |edges|) && sel == Candidate(edges, vs, BlockBest(edges, vs, order[p..q]))
    ensures sel.Some? ==> Scan(edges, vs, order, blockSize, p) == Pick(Some(sel.value.1), p, q)
    ensures sel.None? ==> Scan(edges, vs, order, blockSize, p) == Scan(edges, vs, order, blockSize, q)
  {
  }

  /** A selected edge is eligible, and no eligible edge of its block precedes it. */
  lemma ScanSome(edges: seq<Edge>, vs: seq<VertexData>, order: seq<nat>, blockSize: nat, p: nat)
    requires IdsBelow(order, |edges|) && EndpointsBelow(edges, |vs|) && p <= |order|
    requires blockSize >= 1 || p == |order|
    requires Scan(edges, vs, order, blockSize, p).best.Some?
    ensures var r := Scan(edges, vs, order, blockSize, p);
      r.best.value < |edges| && Eligible(vs, edges[r.best.value]) &&
      forall k :: r.from <= k < r.to && Eligible(vs, edges[order[k]]) ==> !Precedes(edges, vs, order[k], r.best.value)
  {
    var r := Scan(edges, vs, order, blockSize, p);
    assert forall k :: r.from <= k < r.to ==> order[k] == order[r.from..r.to][k - r.from];
  }

  /** What `select_edge` returns, and where it leaves the cursor, for the cursor `start`. */
  function Select(edges: seq<Edge>, vs: seq<VertexData>, start: nat, blockSize: nat): (r: (Option<nat>, nat))
    requires EndpointsBelow(edges, |vs|) && start <= |edges| && (blockSize >= 1 || |edges| == 0)
    ensures r.1 <= |edges|
  {
    OrderIds(start, |edges|);
    var order := Order(start, |edges|);
    var pick := Scan(edges, vs, order, blockSize, 0);
    (pick.best, if pick.best.Some? && pick.to < |order| then order[pick.to] else start)
  }

  /** `Select` in terms of the scan from the start of the order, given its outcome `pick`. */
  lemma SelectPick(edges: seq<Edge>, vs: seq<VertexData>, start: nat, blockSize: nat, pick: Pick)
    requires EndpointsBelow(edges, |vs|) && start <= |edges| && (blockSize >= 1 || |edges| == 0)
    requires IdsBelow(Order(start, |edges|), |edges|)
    requires Scan(edges, vs, Order(start, |edges|), blockSize, 0) == pick
    ensures pick.to <= |edges|
    ensures Select(edges, vs, start, blockSize) ==
      (pick.best, if pick.best.Some? && pick.to < |edges| then Order(start, |edges|)[pick.to] else start)
  {
  }

  /** A selected edge is eligible; no edge is selected exactly when no edge at all is eligible. */
  lemma SelectSpec(edges: seq<Edge>, vs: seq<VertexData>, start: nat, blockSize: nat)
    requires EndpointsBelow(edges, |vs|) && start <= |edges| && (blockSize >= 1 || |edges| == 0)
    ensures var r := Select(edges, vs, start, blockSize).0;
      (r.Some? ==> r.value < |edges| && Eligible(vs, edges[r.value])) &&
      (r.None? <==> forall id :: 0 <= id < |edges| ==> !Eligible(vs, edges[id]))
  {
    var order := Order(start, |edges|);
    OrderIds(start, |edges|);
    var r := Scan(edges, vs, order, blockSize, 0);
    if r.best.None? {
      forall id | 0 <= id < |edges|
        ensures !Eligible(vs, edges[id])
      {
        var k := if id >= start then id - start else |edges| - start + id;
        assert order[k] == id;
      }
    } else {
      ScanSome(edges, vs, order, blockSize, 0);
    }
  }
}
