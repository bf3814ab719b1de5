/**
  The edge store shared by both network-simplex solvers.  Every call of
  `add_edge` stores two edges: the forward edge at an even index `i` and its
  reverse at `i ^ 1`.  The two always have swapped endpoints, opposite flows
  and opposite costs; the capacity of the reverse edge is minus the lower
  bound of the forward edge, so `flow <= capacity` on both stored edges says
  `lower <= flow <= upper`.

  `Net(edges, v)` sums the flows of the stored edges leaving `v`; because the
  reverse edges carry the negated flows of the edges entering `v`, it is the
  out-flow minus the in-flow of `v`.
*/
module SimplexEdges {

  datatype Edge = Edge(src: nat, dst: nat, flow: int, capacity: int, cost: int)

  /** `EdgeId::rev`, that is `id ^ 1`: the other edge of the same pair. */
  function Rev(id: nat): (r: nat)
    ensures r != id && r / 2 == id / 2
    ensures r % 2 != id % 2
  {
    if id % 2 == 0 then id + 1 else id - 1
  }

  lemma RevRev(id: nat)
    ensures Rev(Rev(id)) == id
  {
  }

  /** Two ids name the same edge or the two edges of one pair exactly when they share a pair index. */
  lemma SamePair(i: nat, j: nat)
    ensures i / 2 == j / 2 <==> i == j || j == Rev(i)
  {
  }

  /** `residual_capacity`: what can still be pushed along the edge. */
  function ResidualCapacity(e: Edge): (r: int)
    ensures r >= 0 <==> e.flow <= e.capacity
    ensures r == 0 <==> e.flow == e.capacity
    ensures e.(flow := e.flow + r).flow == e.capacity
  {
    e.capacity - e.flow
  }

  /** The stored edge `i` and the stored edge `Rev(i)` mirror each other. */
  ghost predicate PairedAt(edges: seq<Edge>, i: nat)
    requires i < |edges|
  {
    Rev(i) < |edges| &&
    edges[Rev(i)].src == edges[i].dst && edges[Rev(i)].dst == edges[i].src &&
    edges[Rev(i)].flow == -edges[i].flow && edges[Rev(i)].cost == -edges[i].cost
  }

  ghost predicate Paired(edges: seq<Edge>)
  {
    forall i :: 0 <= i < |edges| ==> PairedAt(edges, i)
  }

  /** No edge carries more than its capacity. */
  ghost predicate Feasible(edges: seq<Edge>)
  {
    forall i :: 0 <= i < |edges| ==> edges[i].flow <= edges[i].capacity
  }

  /** Every endpoint is a vertex below `n`. */
  ghost predicate EndpointsBelow(edges: seq<Edge>, n: nat)
  {
    forall i :: 0 <= i < |edges| ==> edges[i].src < n && edges[i].dst < n
  }

  /** Only flows differ. */
  ghost predicate SameShape(e1: seq<Edge>, e2: seq<Edge>)
  {
    |e1| == |e2| &&
    forall i :: 0 <= i < |e1| ==>
      e1[i].src == e2[i].src && e1[i].dst == e2[i].dst &&
      e1[i].capacity == e2[i].capacity && e1[i].cost == e2[i].cost
  }

  lemma SameShapeTrans(e1: seq<Edge>, e2: seq<Edge>, e3: seq<Edge>)
    requires SameShape(e1, e2) && SameShape(e2, e3)
    ensures SameShape(e1, e3)
  {
  }

  /** A paired store has an even number of edges. */
  lemma PairedEven(edges: seq<Edge>)
    requires Paired(edges)
    ensures |edges| % 2 == 0
  {
    if |edges| > 0 {
      var last := |edges| - 1;
      assert PairedAt(edges, last);
      assert last % 2 == 1;
    }
  }

  /** Out-flow minus in-flow of `v`: the flows of the stored edges leaving `v`. */
  function Net(edges: seq<Edge>, v: nat): int
  {
    if edges == [] then 0
    else Net(edges[..|edges| - 1], v) + (if edges[|edges| - 1].src == v then edges[|edges| - 1].flow else 0)
  }

  lemma {:induction false} NetUpdate(edges: seq<Edge>, i: nat, x: int, v: nat)
    requires i < |edges|
    ensures Net(edges[i := edges[i].(flow := x)], v)
         == Net(edges, v) + (if edges[i].src == v then x - edges[i].flow else 0)
    decreases |edges|
  {
    var upd := edges[i := edges[i].(flow := x)];
    var k := |edges| - 1;
    if i == k {
      assert upd[..k] == edges[..k];
    } else {
      assert upd[..k] == edges[..k][i := edges[i].(flow := x)];
      NetUpdate(edges[..k], i, x, v);
    }
  }

  lemma NetAppend(edges: seq<Edge>, e: Edge, v: nat)
    ensures Net(edges + [e], v) == Net(edges, v) + (if e.src == v then e.flow else 0)
  {
    assert (edges + [e])[..|edges|] == edges;
  }

  /** A vertex that no stored edge leaves has no net flow. */
  lemma {:induction false} NetNoSource(edges: seq<Edge>, v: nat)
    requires forall i :: 0 <= i < |edges| ==> edges[i].src != v
    ensures Net(edges, v) == 0
    decreases |edges|
  {
    if edges != [] {
      var m := |edges| - 1;
      assert forall i :: 0 <= i < m ==> edges[..m][i] == edges[i];
      NetNoSource(edges[..m], v);
    }
  }

  /** The edges after `add_flow(id, f)`: `f` more on `id`, `f` less on its reverse. */
  function AddFlowTo(edges: seq<Edge>, id: nat, f: int): (r: seq<Edge>)
    requires id < |edges| && Rev(id) < |edges|
    ensures |r| == |edges|
    ensures r[id].flow == edges[id].flow + f
    ensures r[Rev(id)].flow == edges[Rev(id)].flow - f
    ensures forall i :: 0 <= i < |edges| && i != id && i != Rev(id) ==> r[i] == edges[i]
  {
    var backward := edges[Rev(id) := edges[Rev(id)].(flow := edges[Rev(id)].flow - f)];
    backward[id := backward[id].(flow := backward[id].flow + f)]
  }

  lemma AddFlowShape(edges: seq<Edge>, id: nat, f: int)
    requires id < |edges| && Rev(id) < |edges|
    ensures SameShape(edges, AddFlowTo(edges, id, f))
  {
  }

  /** `add_flow` keeps every pair mirrored. */
  lemma AddFlowPaired(edges: seq<Edge>, id: nat, f: int)
    requires Paired(edges) && id < |edges| && Rev(id) < |edges|
    ensures Paired(AddFlowTo(edges, id, f))
  {
    assert PairedAt(edges, id);
    var r := AddFlowTo(edges, id, f);
    forall i | 0 <= i < |r|
      ensures PairedAt(r, i)
    {
      assert PairedAt(edges, i);
      RevRev(i);
      RevRev(id);
    }
  }

  /** `add_flow` moves `f` units of net flow from the edge's source to its destination. */
  lemma AddFlowNet(edges: seq<Edge>, id: nat, f: int, v: nat)
    requires Paired(edges) && id < |edges| && Rev(id) < |edges|
    ensures Net(AddFlowTo(edges, id, f), v)
         == Net(edges, v) + (if edges[id].src == v then f else 0) - (if edges[id].dst == v then f else 0)
  {
    assert PairedAt(edges, id);
    var r := Rev(id);
    var backward := edges[r := edges[r].(flow := edges[r].flow - f)];
    NetUpdate(edges, r, edges[r].flow - f, v);
    NetUpdate(backward, id, backward[id].flow + f, v);
  }
}
