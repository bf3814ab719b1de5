/**
  The spanning tree of the network-simplex solvers.  Each vertex records its
  parent, the edge to its parent (`parent_edge`, whose `src` is the vertex
  itself), its depth, its potential and the set `tree_edges` of tree edges
  leaving it.  The root has no parent and depth 0.

  `OrientsEdges(edges, vs, np, npe)` says that the parent map `np` with parent
  edges `npe` orients the undirected tree described by the `tree_edges` sets:
  each parent edge and its reverse are tree edges, and every tree edge joins a
  vertex to its parent.  `Ranked(np, rank)` says that `rank` grows from parent
  to child, so that the parent map has no cycle.  A consistent tree
  (`TreeOk`) is oriented by its own `parent` fields, ranked by its depths,
  and every parent edge has reduced cost zero.
*/
module SimplexTree {
  import opened Wrappers
  import opened SimplexEdges

  datatype VertexData = VertexData(
    potential: int,
    adjacentEdges: seq<nat>,
    parent: Option<nat>,
    parentEdge: Option<nat>,
    depth: nat,
    treeEdges: set<nat>)

  /** `VertexData::default`. */
  function DefaultVertex(): VertexData
  {
    VertexData(0, [], None, None, 0, {})
  }

  /** `reduced_cost`: the cost corrected by the potentials of both ends. */
  function ReducedCost(vs: seq<VertexData>, e: Edge): int
    requires e.src < |vs| && e.dst < |vs|
  {
    e.cost + vs[e.src].potential - vs[e.dst].potential
  }

  /** The reverse edge has the opposite reduced cost. */
  lemma ReducedCostRev(edges: seq<Edge>, vs: seq<VertexData>, i: nat)
    requires Paired(edges) && EndpointsBelow(edges, |vs|) && i < |edges|
    ensures Rev(i) < |edges|
    ensures ReducedCost(vs, edges[Rev(i)]) == -ReducedCost(vs, edges[i])
  {
    assert PairedAt(edges, i);
  }

  function Parents(vs: seq<VertexData>): (r: seq<Option<nat>>)
    ensures |r| == |vs| && forall w :: 0 <= w < |vs| ==> r[w] == vs[w].parent
  {
    seq(|vs|, w requires 0 <= w < |vs| => vs[w].parent)
  }

  function ParentEdges(vs: seq<VertexData>): (r: seq<Option<nat>>)
    ensures |r| == |vs| && forall w :: 0 <= w < |vs| ==> r[w] == vs[w].parentEdge
  {
    seq(|vs|, w requires 0 <= w < |vs| => vs[w].parentEdge)
  }

  function Depths(vs: seq<VertexData>): (r: seq<int>)
    ensures |r| == |vs| && forall w :: 0 <= w < |vs| ==> r[w] == vs[w].depth
  {
    seq(|vs|, w requires 0 <= w < |vs| => vs[w].depth as int)
  }

  /** The vertex `w` with parent `np[w]` hangs from a tree edge `npe[w]` (and its reverse). */
  ghost predicate ChildOk(edges: seq<Edge>, vs: seq<VertexData>, np: seq<Option<nat>>, npe: seq<Option<nat>>, w: nat)
    requires w < |vs| && |np| == |vs| && |npe| == |vs|
  {
    np[w].Some? ==>
      npe[w].Some? && np[w].value < |vs| && npe[w].value < |edges| &&
      edges[npe[w].value].src == w && edges[npe[w].value].dst == np[w].value &&
      npe[w].value in vs[w].treeEdges && Rev(npe[w].value) in vs[np[w].value].treeEdges
  }

  /** The tree edge `e` leaving `u` goes to `u`'s parent or to a child of `u`. */
  ghost predicate TreeEdgeOk(edges: seq<Edge>, vs: seq<VertexData>, np: seq<Option<nat>>, npe: seq<Option<nat>>, u: nat, e: nat)
    requires u < |vs| && |np| == |vs| && |npe| == |vs|
  {
    e < |edges| && edges[e].src == u && edges[e].dst < |vs| &&
    ((np[u] == Some(edges[e].dst) && npe[u] == Some(e)) ||
     (np[edges[e].dst] == Some(u) && npe[edges[e].dst] == Some(Rev(e))))
  }

  ghost predicate OrientsEdges(edges: seq<Edge>, vs: seq<VertexData>, np: seq<Option<nat>>, npe: seq<Option<nat>>)
  {
    |np| == |vs| && |npe| == |vs| &&
    (forall w :: 0 <= w < |vs| ==> ChildOk(edges, vs, np, npe, w)) &&
    (forall u, e :: 0 <= u < |vs| && e in vs[u].treeEdges ==> TreeEdgeOk(edges, vs, np, npe, u, e))
  }

  /** Ranks strictly increase from parent to child. */
  ghost predicate Ranked(np: seq<Option<nat>>, rank: seq<int>)
  {
    |rank| == |np| &&
    forall w :: 0 <= w < |np| && np[w].Some? ==> np[w].value < |np| && rank[np[w].value] < rank[w]
  }

  /** The parent of `v`, or 0 when it has none. */
  ghost function Par(vs: seq<VertexData>, v: nat): nat
  {
    if v < |vs| && vs[v].parent.Some? then vs[v].parent.value else 0
  }

  /**
    Parent pointers and depths: every vertex but the root has a parent one
    level up.  The facts about `v` are triggered by `Par(vs, v)` only, so
    that knowing about a vertex does not by itself unfold the whole chain
    of its ancestors.
  */
  ghost predicate ParentChain(vs: seq<VertexData>, root: nat)
  {
    root < |vs| && vs[root].parent == None && vs[root].depth == 0 &&
    forall v {:trigger Par(vs, v)} :: 0 <= v < |vs| && v != root ==>
      vs[v].parent == Some(Par(vs, v)) && vs[v].parentEdge.Some? && Par(vs, v) < |vs| &&
      vs[v].depth == vs[Par(vs, v)].depth + 1
  }

  /** Every parent edge has reduced cost zero. */
  ghost predicate PotentialsOk(edges: seq<Edge>, vs: seq<VertexData>, root: nat)
    requires ParentChain(vs, root)
  {
    forall v {:trigger Par(vs, v)} :: 0 <= v < |vs| && v != root ==>
      Par(vs, v) < |vs| && vs[v].parentEdge.value < |edges| &&
      edges[vs[v].parentEdge.value].cost + vs[v].potential - vs[Par(vs, v)].potential == 0
  }

  /** The spanning-tree invariant of the solver. */
  ghost predicate TreeOk(edges: seq<Edge>, vs: seq<VertexData>, root: nat)
  {
    Paired(edges) && EndpointsBelow(edges, |vs|) &&
    ParentChain(vs, root) && PotentialsOk(edges, vs, root) &&
    OrientsEdges(edges, vs, Parents(vs), ParentEdges(vs))
  }

  /** Only the depth-0 vertex is the root. */
  lemma DepthZeroIsRoot(vs: seq<VertexData>, root: nat, v: nat)
    requires ParentChain(vs, root) && v < |vs| && vs[v].depth == 0
    ensures v == root
  {
    if v != root {
      var p := Par(vs, v);
    }
  }

  /** A consistent tree is ranked by its depths. */
  lemma TreeRanked(edges: seq<Edge>, vs: seq<VertexData>, root: nat)
    requires ParentChain(vs, root)
    ensures Ranked(Parents(vs), Depths(vs))
  {
    forall w | 0 <= w < |vs| && vs[w].parent.Some?
      ensures vs[w].parent.value < |vs| && vs[vs[w].parent.value].depth < vs[w].depth
    {
      assert Par(vs, w) == vs[w].parent.value;
    }
  }

  /** The invariant is about the shape of the edges only, not their flows. */
  lemma TreeOkShape(e1: seq<Edge>, e2: seq<Edge>, vs: seq<VertexData>, root: nat)
    requires TreeOk(e1, vs, root) && SameShape(e1, e2) && Paired(e2)
    ensures TreeOk(e2, vs, root)
  {
    var np, npe := Parents(vs), ParentEdges(vs);
    forall w | 0 <= w < |vs|
      ensures ChildOk(e2, vs, np, npe, w)
    {
      assert ChildOk(e1, vs, np, npe, w);
    }
    forall u, e | 0 <= u < |vs| && e in vs[u].treeEdges
      ensures TreeEdgeOk(e2, vs, np, npe, u, e)
    {
      assert TreeEdgeOk(e1, vs, np, npe, u, e);
    }
    forall v | 0 <= v < |vs| && v != root
      ensures Par(vs, v) < |vs| && vs[v].parentEdge.value < |e2| &&
              e2[vs[v].parentEdge.value].cost + vs[v].potential - vs[Par(vs, v)].potential == 0
    {
      var p := Par(vs, v);
      assert vs[v].parentEdge.value < |e1|;
    }
  }

  /** Every tree edge, in either direction, has reduced cost zero. */
  lemma TreeEdgeReducedCost(edges: seq<Edge>, vs: seq<VertexData>, root: nat, u: nat, e: nat)
    requires TreeOk(edges, vs, root) && u < |vs| && e in vs[u].treeEdges
    ensures e < |edges| && ReducedCost(vs, edges[e]) == 0
  {
    assert TreeEdgeOk(edges, vs, Parents(vs), ParentEdges(vs), u, e);
    var w := edges[e].dst;
    if vs[u].parent == Some(w) && vs[u].parentEdge == Some(e) {
      assert Par(vs, u) == w;
    } else {
      assert vs[w].parent == Some(u) && vs[w].parentEdge == Some(Rev(e));
      assert Par(vs, w) == u;
      ReducedCostRev(edges, vs, e);
      RevRev(e);
      assert PairedAt(edges, e);
    }
  }

  /** The `k`-th ancestor of `v`. */
  ghost function Up(vs: seq<VertexData>, root: nat, v: nat, k: nat): (r: nat)
    requires ParentChain(vs, root) && v < |vs| && k <= vs[v].depth
    ensures r < |vs| && vs[r].depth == vs[v].depth - k
    decreases k
  {
    if k == 0 then v else Up(vs, root, Par(vs, v), k - 1)
  }

  /** One more step up is the parent of the last vertex reached. */
  lemma {:induction false} UpStep(vs: seq<VertexData>, root: nat, v: nat, k: nat)
    requires ParentChain(vs, root) && v < |vs| && k < vs[v].depth
    ensures Up(vs, root, v, k) != root
    ensures Up(vs, root, v, k + 1) == Par(vs, Up(vs, root, v, k))
    decreases k
  {
    if k > 0 {
      UpStep(vs, root, Par(vs, v), k - 1);
    }
  }

  /** The first step up goes to the parent; `k1` names `k - 1`. */
  lemma UpFirst(vs: seq<VertexData>, root: nat, v: nat, k: nat, k1: nat)
    requires ParentChain(vs, root) && v < |vs| && 0 < k <= vs[v].depth && k1 + 1 == k
    ensures v != root && Par(vs, v) < |vs|
    ensures Up(vs, root, v, k) == Up(vs, root, Par(vs, v), k1)
  {
  }

  /** Going up `a` levels and then `b` more is going up `a + b` levels. */
  lemma {:induction false} UpUp(vs: seq<VertexData>, root: nat, v: nat, a: nat, b: nat)
    requires ParentChain(vs, root) && v < |vs| && a + b <= vs[v].depth
    ensures Up(vs, root, Up(vs, root, v, a), b) == Up(vs, root, v, a + b)
    decreases a
  {
    if a > 0 {
      UpFirst(vs, root, v, a, a - 1);
      UpFirst(vs, root, v, a + b, a - 1 + b);
      UpUp(vs, root, Par(vs, v), a - 1, b);
    }
  }

  /** `UpUp` with the total number of levels named `k`. */
  lemma UpUpTo(vs: seq<VertexData>, root: nat, v: nat, a: nat, b: nat, k: nat)
    requires ParentChain(vs, root) && v < |vs| && k == a + b && k <= vs[v].depth
    ensures Up(vs, root, Up(vs, root, v, a), b) == Up(vs, root, v, k)
  {
    UpUp(vs, root, v, a, b);
  }

  /** The parent edge of a non-root vertex. */
  ghost function PE(vs: seq<VertexData>, root: nat, v: nat): nat
    requires ParentChain(vs, root) && v < |vs| && v != root
  {
    assert Par(vs, v) < |vs|;
    vs[v].parentEdge.value
  }

  /** The tree edge from the `(i+1)`-th ancestor of `s` down to the `i`-th. */
  ghost function DownAt(vs: seq<VertexData>, root: nat, s: nat, i: nat): nat
    requires ParentChain(vs, root) && s < |vs| && i < vs[s].depth
  {
    UpStep(vs, root, s, i);
    Rev(PE(vs, root, Up(vs, root, s, i)))
  }

  /** The tree edge from the `j`-th ancestor of `t` up to the `(j+1)`-th. */
  ghost function UpAt(vs: seq<VertexData>, root: nat, t: nat, j: nat): nat
    requires ParentChain(vs, root) && t < |vs| && j < vs[t].depth
  {
    UpStep(vs, root, t, j);
    PE(vs, root, Up(vs, root, t, j))
  }

  /** The edges walked from `s` up `k` levels, in walking order, each directed downwards. */
  ghost function DownPath(vs: seq<VertexData>, root: nat, s: nat, k: nat): (r: seq<nat>)
    requires ParentChain(vs, root) && s < |vs| && k <= vs[s].depth
    ensures |r| == k && forall i :: 0 <= i < k ==> r[i] == DownAt(vs, root, s, i)
  {
    if k == 0 then [] else DownPath(vs, root, s, k - 1) + [DownAt(vs, root, s, k - 1)]
  }

  /** The edges walked from `t` up `k` levels, in walking order, each directed upwards. */
  ghost function UpPath(vs: seq<VertexData>, root: nat, t: nat, k: nat): (r: seq<nat>)
    requires ParentChain(vs, root) && t < |vs| && k <= vs[t].depth
    ensures |r| == k && forall j :: 0 <= j < k ==> r[j] == UpAt(vs, root, t, j)
  {
    if k == 0 then [] else UpPath(vs, root, t, k - 1) + [UpAt(vs, root, t, k - 1)]
  }

  /**
    The outcome of relabelling the subtree below `v0` along the orientation
    `np`/`npe`: the set `a` of relabelled vertices holds `v0` and exactly the
    vertices whose new parent is in `a`; every vertex of `a` but `v0` now has
    its new parent and parent edge, depth one more than its parent's and the
    potential that gives its parent edge reduced cost zero; all other vertices,
    and `v0` itself, are unchanged.
  */
  ghost predicate Relabelled(edges: seq<Edge>, vs0: seq<VertexData>, vs: seq<VertexData>, v0: nat,
                             np: seq<Option<nat>>, npe: seq<Option<nat>>, rank: seq<int>, a: set<nat>)
  {
    |vs| == |vs0| && |np| == |vs0| && |npe| == |vs0| && |rank| == |vs0| && v0 in a &&
    (forall w :: w in a ==> w < |vs0|) &&
    (forall w {:trigger np[w]} :: 0 <= w < |vs0| && w != v0 ==> (w in a <==> np[w].Some? && np[w].value in a)) &&
    (forall w :: w in a && w != v0 ==> rank[v0] < rank[w]) &&
    (forall w :: 0 <= w < |vs0| && (w !in a || w == v0) ==> vs[w] == vs0[w]) &&
    (forall w {:trigger NewLabel(edges, vs0, vs, np, npe, w)} :: w in a && w != v0 ==> NewLabel(edges, vs0, vs, np, npe, w))
  }

  ghost predicate NewLabel(edges: seq<Edge>, vs0: seq<VertexData>, vs: seq<VertexData>,
                           np: seq<Option<nat>>, npe: seq<Option<nat>>, w: nat)
    requires w < |vs0| && |vs| == |vs0| && |np| == |vs0| && |npe| == |vs0|
  {
    np[w].Some? && npe[w].Some? && np[w].value < |vs| && npe[w].value < |edges| &&
    vs[w] == vs0[w].(parent := np[w], parentEdge := npe[w],
                     depth := vs[np[w].value].depth + 1,
                     potential := vs[np[w].value].potential - edges[npe[w].value].cost)
  }

  /** The vertex records keep their adjacency lists. */
  ghost predicate SameAdjacency(vs0: seq<VertexData>, vs: seq<VertexData>)
  {
    |vs| == |vs0| && forall u :: 0 <= u < |vs| ==> vs[u].adjacentEdges == vs0[u].adjacentEdges
  }

  lemma SameAdjacencyTrans(a: seq<VertexData>, b: seq<VertexData>, c: seq<VertexData>)
    requires SameAdjacency(a, b) && SameAdjacency(b, c)
    ensures SameAdjacency(a, c)
  {
  }

  /** Relabelling a subtree leaves every adjacency list alone. */
  lemma RelabelledAdjacency(edges: seq<Edge>, vs0: seq<VertexData>, vs: seq<VertexData>, v0: nat,
                            np: seq<Option<nat>>, npe: seq<Option<nat>>, rank: seq<int>, a: set<nat>)
    requires Relabelled(edges, vs0, vs, v0, np, npe, rank, a)
    ensures SameAdjacency(vs0, vs)
  {
    forall u | 0 <= u < |vs|
      ensures vs[u].adjacentEdges == vs0[u].adjacentEdges
    {
      if u in a && u != v0 {
        assert NewLabel(edges, vs0, vs, np, npe, u);
      }
    }
  }

  ghost predicate Distinct(s: seq<nat>)
  {
    forall i, j :: 0 <= i < j < |s| ==> s[i] != s[j]
  }
}
