/**
  What `prepare_data` builds before the first pivot.  The vertices are the
  ones named by an edge or a balance; every vertex lists the ids of the edges
  leaving it in increasing order (`adjacent_edges`); an artificial root gets
  one artificial edge pair per real vertex, carrying that vertex's balance to
  or from the root at a cost higher than any path of real edges.
*/
module SimplexSeed {
  import opened Wrappers
  import opened FlowNum
  import opened SimplexEdges
  import opened SimplexTree
  import opened SimplexRelabel

  /** `max(nb, 1 + e.src)` over the edges: the vertex count after the first loop of `prepare_data`. */
  function VertexBound(nb: nat, edges: seq<Edge>): (n: nat)
    ensures n >= nb && forall k :: 0 <= k < |edges| ==> edges[k].src < n
    ensures n == nb || exists k :: 0 <= k < |edges| && n == edges[k].src + 1
    decreases |edges|
  {
    if edges == [] then nb
    else
      var k := |edges| - 1;
      var m := VertexBound(nb, edges[..k]);
      assert forall j :: 0 <= j < k ==> edges[..k][j] == edges[j];
      if m >= edges[k].src + 1 then m else edges[k].src + 1
  }

  /** The sum of the positive costs of the edges. */
  function PositiveCosts(edges: seq<Edge>): int
    decreases |edges|
  {
    if edges == [] then 0
    else
      var k := |edges| - 1;
      PositiveCosts(edges[..k]) + (if IsPositive(edges[k].cost) then edges[k].cost else 0)
  }

  /** More than the positive part of the cost of any set of the edges. */
  lemma {:induction false} PositiveCostsBound(edges: seq<Edge>, k: nat)
    requires k < |edges|
    ensures PositiveCosts(edges) >= 0
    ensures PositiveCosts(edges) >= edges[k].cost
    decreases |edges|
  {
    var m := |edges| - 1;
    if m > 0 {
      PositiveCostsNonNeg(edges[..m]);
      if k < m {
        PositiveCostsBound(edges[..m], k);
      }
    }
  }

  lemma {:induction false} PositiveCostsNonNeg(edges: seq<Edge>)
    ensures PositiveCosts(edges) >= 0
    decreases |edges|
  {
    if edges != [] {
      PositiveCostsNonNeg(edges[..|edges| - 1]);
    }
  }

  /** The ids of the edges leaving `u`, in increasing order. */
  function OutIds(edges: seq<Edge>, u: nat): seq<nat>
    decreases |edges|
  {
    if edges == [] then []
    else
      var k := |edges| - 1;
      OutIds(edges[..k], u) + (if edges[k].src == u then [k] else [])
  }

  /** `OutIds` lists exactly the edges leaving `u`, each once, in increasing order. */
  lemma {:induction false} OutIdsExact(edges: seq<Edge>, u: nat)
    ensures forall i, j :: 0 <= i < j < |OutIds(edges, u)| ==> OutIds(edges, u)[i] < OutIds(edges, u)[j]
    ensures forall e: nat :: e in OutIds(edges, u) <==> e < |edges| && edges[e].src == u
    decreases |edges|
  {
    if edges != [] {
      var k := |edges| - 1;
      var p := OutIds(edges[..k], u);
      OutIdsExact(edges[..k], u);
      assert forall e: nat :: e < k ==> edges[..k][e] == edges[e];
      var r := OutIds(edges, u);
      assert r == p + (if edges[k].src == u then [k] else []);
      forall i, j | 0 <= i < j < |r|
        ensures r[i] < r[j]
      {
        if j < |p| {
          assert r[i] == p[i] && r[j] == p[j];
        } else {
          assert r[i] == p[i] && p[i] in p;
        }
      }
    }
  }

  /** Appending an edge adds its id to the list of its source only. */
  lemma OutIdsAppend(edges: seq<Edge>, e: Edge, u: nat)
    ensures OutIds(edges + [e], u) == OutIds(edges, u) + (if e.src == u then [|edges|] else [])
  {
    assert (edges + [e])[..|edges|] == edges;
  }

  /**
    The artificial pair of `prepare_data` for the real vertex `v` of balance
    `b`, after its `add_edge(x, y, 0, cap, infinity)` and `add_flow(eid, |b|)`:
    a negative balance is fed from the root with capacity `-b`, any other
    balance is drained to the root with capacity `b + 1`.
  */
  function SeedPair(b: int, v: nat, root: nat, infinity: int): (r: seq<Edge>)
    ensures |r| == 2
  {
    if IsNegative(b) then [Edge(root, v, Abs(b), -b, infinity), Edge(v, root, -Abs(b), 0, -infinity)]
    else [Edge(v, root, Abs(b), b + 1, infinity), Edge(root, v, -Abs(b), 0, -infinity)]
  }

  /** The artificial pairs of the first `|bal|` real vertices, in vertex order. */
  function Seeds(bal: seq<int>, root: nat, infinity: int): (r: seq<Edge>)
    ensures |r| == 2 * |bal|
    decreases |bal|
  {
    if bal == [] then []
    else
      var k := |bal| - 1;
      Seeds(bal[..k], root, infinity) + SeedPair(bal[k], k, root, infinity)
  }

  /**
    The invariant of the first loop of `prepare_data` after `i` edges: `n`
    vertices are known, the records cover every source seen so far, and each
    lists the ids of the edges seen so far that leave it.
  */
  ghost predicate Scanned(edges: seq<Edge>, nb: nat, i: nat, n: nat, vs: seq<VertexData>)
  {
    i <= |edges| && n == VertexBound(nb, edges[..i]) && |vs| <= n &&
    (forall k :: 0 <= k < i ==> edges[k].src < |vs|) &&
    forall u :: 0 <= u < |vs| ==> vs[u] == DefaultVertex().(adjacentEdges := OutIds(edges[..i], u))
  }

  /** One round of the first loop: grow the records to `max(n, 1 + src)` and list edge `i` at its source. */
  lemma ScanStep(edges: seq<Edge>, nb: nat, i: nat, n: nat, vs: seq<VertexData>, n': nat, grown: seq<VertexData>, vs': seq<VertexData>)
    requires Scanned(edges, nb, i, n, vs) && i < |edges|
    requires n' == if n >= 1 + edges[i].src then n else 1 + edges[i].src
    requires grown == vs + seq(n' - |vs|, _ => DefaultVertex())
    requires vs' == grown[edges[i].src := grown[edges[i].src].(adjacentEdges := grown[edges[i].src].adjacentEdges + [i])]
    ensures Scanned(edges, nb, i + 1, n', vs')
    ensures PositiveCosts(edges[..i + 1]) == PositiveCosts(edges[..i]) + (if IsPositive(edges[i].cost) then edges[i].cost else 0)
  {
    var e := edges[i];
    assert edges[..i + 1][..i] == edges[..i];
    forall u | 0 <= u < |vs'|
      ensures vs'[u] == DefaultVertex().(adjacentEdges := OutIds(edges[..i + 1], u))
    {
      OutIdsAppend(edges[..i], e, u);
      assert edges[..i] + [e] == edges[..i + 1];
      if u >= |vs| {
        OutIdsNone(edges[..i], u);
      }
    }
  }

  /** The pair of vertex `v` sits at offsets `2v` and `2v + 1`. */
  lemma {:induction false} SeedsAt(bal: seq<int>, root: nat, infinity: int, v: nat)
    requires v < |bal|
    ensures Seeds(bal, root, infinity)[2 * v] == SeedPair(bal[v], v, root, infinity)[0]
    ensures Seeds(bal, root, infinity)[2 * v + 1] == SeedPair(bal[v], v, root, infinity)[1]
    decreases |bal|
  {
    var k := |bal| - 1;
    if v < k {
      SeedsAt(bal[..k], root, infinity, v);
    }
  }

  /** The id of the artificial edge from the real vertex `v` to the root, once the real edges take `base` ids. */
  function UpId(bal: seq<int>, base: nat, v: nat): nat
    requires v < |bal|
  {
    base + 2 * v + (if IsNegative(bal[v]) then 1 else 0)
  }

  /** Ids of the real edges and of the artificial ones, in one store. */
  lemma SeedIndex(e0: seq<Edge>, bal: seq<int>, root: nat, infinity: int, v: nat)
    requires v < |bal|
    ensures var r := e0 + Seeds(bal, root, infinity); var pair := SeedPair(bal[v], v, root, infinity);
      |e0| + 2 * v + 1 < |r| && r[|e0| + 2 * v] == pair[0] && r[|e0| + 2 * v + 1] == pair[1]
  {
    SeedsAt(bal, root, infinity, v);
  }

  /** The artificial edges are mirrored pairs within capacity. */
  lemma SeedsOk(e0: seq<Edge>, bal: seq<int>, root: nat, infinity: int)
    requires Paired(e0) && Feasible(e0) && |e0| % 2 == 0
    ensures Paired(e0 + Seeds(bal, root, infinity)) && Feasible(e0 + Seeds(bal, root, infinity))
  {
    var r := e0 + Seeds(bal, root, infinity);
    forall i | 0 <= i < |r|
      ensures PairedAt(r, i) && r[i].flow <= r[i].capacity
    {
      if i < |e0| {
        assert PairedAt(e0, i) && r[i] == e0[i] && r[Rev(i)] == e0[Rev(i)];
      } else {
        var m, v := |e0| / 2, (i - |e0|) / 2;
        assert |e0| == 2 * m && (i == 2 * (m + v) || i == 2 * (m + v) + 1);
        RevPair(m + v);
        SeedIndex(e0, bal, root, infinity, v);
      }
    }
  }

  /** The two ids `2k` and `2k + 1` of pair `k` are each other's reverse. */
  lemma RevPair(k: nat)
    ensures Rev(2 * k) == 2 * k + 1 && Rev(2 * k + 1) == 2 * k
  {
  }

  /** `UpId(v)` and its reverse are the two ids of the pair of `v`. */
  lemma UpIdRev(bal: seq<int>, base: nat, v: nat)
    requires v < |bal| && base % 2 == 0
    ensures Rev(UpId(bal, base, v)) == base + 2 * v + (if IsNegative(bal[v]) then 0 else 1)
  {
    var m := base / 2;
    assert base == 2 * m;
    RevPair(m + v);
  }

  /** The artificial edge `UpId(v)` runs from `v` to the root, its reverse back. */
  lemma SeedUp(e0: seq<Edge>, bal: seq<int>, root: nat, infinity: int, v: nat)
    requires v < |bal| && |e0| % 2 == 0
    ensures var r := e0 + Seeds(bal, root, infinity); var up := UpId(bal, |e0|, v);
      up < |r| && Rev(up) < |r| && r[up].src == v && r[up].dst == root &&
      r[up].cost == (if IsNegative(bal[v]) then -infinity else infinity) &&
      r[Rev(up)].src == root && r[Rev(up)].dst == v
  {
    SeedIndex(e0, bal, root, infinity, v);
    UpIdRev(bal, |e0|, v);
  }

  /** The pair of `v` carries `b` out of `v` and nothing out of any other real vertex. */
  lemma SeedPairNet(p: seq<Edge>, b: int, v: nat, root: nat, infinity: int, w: nat)
    requires w != root && v != root
    ensures Net(p + SeedPair(b, v, root, infinity), w) == Net(p, w) + (if w == v then b else 0)
  {
    var pair := SeedPair(b, v, root, infinity);
    assert p + pair == p + [pair[0]] + [pair[1]];
    NetAppend(p, pair[0], w);
    NetAppend(p + [pair[0]], pair[1], w);
  }

  /** Net flow out of a real vertex grows by its balance; the root and the others are not touched. */
  lemma {:induction false} SeedsNet(e0: seq<Edge>, bal: seq<int>, root: nat, infinity: int, w: nat)
    requires w != root && |bal| <= root
    ensures Net(e0 + Seeds(bal, root, infinity), w) == Net(e0, w) + (if w < |bal| then bal[w] else 0)
    decreases |bal|
  {
    if bal == [] {
      assert e0 + Seeds(bal, root, infinity) == e0;
    } else {
      var k := |bal| - 1;
      var p := e0 + Seeds(bal[..k], root, infinity);
      SeedsNet(e0, bal[..k], root, infinity, w);
      assert e0 + Seeds(bal, root, infinity) == p + SeedPair(bal[k], k, root, infinity);
      SeedPairNet(p, bal[k], k, root, infinity, w);
      if w < k {
        assert bal[..k][w] == bal[w];
      }
    }
  }

  /** `OutIds` of a vertex no edge leaves is empty. */
  lemma OutIdsNone(edges: seq<Edge>, u: nat)
    requires forall k :: 0 <= k < |edges| ==> edges[k].src != u
    ensures OutIds(edges, u) == []
  {
    OutIdsExact(edges, u);
    if OutIds(edges, u) != [] {
      assert OutIds(edges, u)[0] in OutIds(edges, u);
    }
  }

  /** The pairs of the first `v + 1` vertices extend those of the first `v` by one pair. */
  lemma SeedsSnoc(bal: seq<int>, root: nat, infinity: int, v: nat)
    requires v < |bal|
    ensures Seeds(bal[..v + 1], root, infinity) == Seeds(bal[..v], root, infinity) + SeedPair(bal[v], v, root, infinity)
  {
    assert bal[..v + 1][..v] == bal[..v];
  }

  /** Paired edges whose sources are below `n` have all their endpoints below `n`. */
  lemma PairedBelow(edges: seq<Edge>, n: nat)
    requires Paired(edges) && forall k :: 0 <= k < |edges| ==> edges[k].src < n
    ensures EndpointsBelow(edges, n)
  {
    forall k | 0 <= k < |edges|
      ensures edges[k].dst < n
    {
      assert PairedAt(edges, k);
    }
  }

  /** The balances zero-extended to `n` entries (`resize_with(n, zero)` on a shorter vector). */
  function Padded(b: seq<int>, n: nat): (r: seq<int>)
    requires |b| <= n
    ensures |r| == n && forall w :: 0 <= w < n ==> r[w] == if w < |b| then b[w] else 0
  {
    b + seq(n - |b|, _ => 0)
  }

  /** The root's tree edges after the first `v` rounds: the reverses of the artificial edges of vertices `0 .. v - 1`. */
  ghost function RootSeeds(bal: seq<int>, base: nat, v: nat): set<nat>
    requires v <= |bal|
  {
    set w | 0 <= w < v :: Rev(UpId(bal, base, w))
  }

  /** The tree edges of `u` after the first `v` rounds of the seeding loop. */
  ghost function SeedTree(bal: seq<int>, base: nat, root: nat, v: nat, u: nat): set<nat>
    requires v <= |bal|
  {
    if u < v then {UpId(bal, base, u)} else if u == root then RootSeeds(bal, base, v) else {}
  }

  /** The record of vertex `u` after `v` rounds: no parent, depth and potential 0, its out-edges listed. */
  ghost function SeededVertex(edges: seq<Edge>, bal: seq<int>, base: nat, root: nat, v: nat, u: nat): VertexData
    requires v <= |bal|
  {
    VertexData(0, OutIds(edges, u), None, None, 0, SeedTree(bal, base, root, v, u))
  }

  /**
    The invariant of the seeding loop of `prepare_data` after `v` rounds:
    the artificial pairs of vertices `0 .. v - 1` follow the real edges,
    their balances are spent, and every vertex has its out-edges and its
    artificial tree edges recorded.
  */
  ghost predicate Seeding(edges: seq<Edge>, balances: seq<int>, vs: seq<VertexData>,
                          e0: seq<Edge>, bal: seq<int>, root: nat, infinity: int, v: nat)
  {
    |bal| == root && v <= root && |e0| % 2 == 0 && Paired(e0) && Feasible(e0) &&
    (forall k :: 0 <= k < |e0| ==> e0[k].src < root) &&
    edges == e0 + Seeds(bal[..v], root, infinity) &&
    |balances| == root && (forall w :: 0 <= w < root ==> balances[w] == if w < v then 0 else bal[w]) &&
    |vs| == root + 1 && forall u :: 0 <= u <= root ==> vs[u] == SeededVertex(edges, bal, |e0|, root, v, u)
  }

  /** One round of the seeding loop moves the tree edges of `v` and of the root forward. */
  lemma SeedTreeStep(bal: seq<int>, base: nat, root: nat, v: nat, u: nat)
    requires v < |bal| == root && u <= root
    ensures SeedTree(bal, base, root, v + 1, u) ==
      SeedTree(bal, base, root, v, u) + (if u == v then {UpId(bal, base, v)} else {})
                                      + (if u == root then {Rev(UpId(bal, base, v))} else {})
  {
    if u == root {
      assert RootSeeds(bal, base, v + 1) == RootSeeds(bal, base, v) + {Rev(UpId(bal, base, v))};
    }
  }

  /** The parents of the star: every real vertex hangs from the root. */
  ghost function StarParents(root: nat): (np: seq<Option<nat>>)
    ensures |np| == root + 1 && np[root] == None
    ensures forall u :: 0 <= u < root ==> np[u] == Some(root)
  {
    seq(root + 1, u => if u < root then Some(root) else None)
  }

  /** The parent edges of the star: the artificial edge of each real vertex. */
  ghost function StarParentEdges(bal: seq<int>, base: nat, root: nat): (npe: seq<Option<nat>>)
    requires |bal| == root
    ensures |npe| == root + 1 && npe[root] == None
    ensures forall u :: 0 <= u < root ==> npe[u] == Some(UpId(bal, base, u))
  {
    seq(root + 1, u requires 0 <= u <= root => if u < root then Some(UpId(bal, base, u)) else None)
  }

  ghost function StarRanks(root: nat): (rank: seq<int>)
    ensures |rank| == root + 1 && rank[root] == 0
    ensures forall u :: 0 <= u < root ==> rank[u] == 1
  {
    seq(root + 1, u => if u < root then 1 else 0)
  }

  /** The real edges and their artificial pairs form a consistent store over the vertices `0 .. root`. */
  lemma SeedEdges(e0: seq<Edge>, bal: seq<int>, root: nat, infinity: int)
    requires |bal| == root && |e0| % 2 == 0 && Paired(e0) && Feasible(e0)
    requires forall k :: 0 <= k < |e0| ==> e0[k].src < root
    ensures Paired(e0 + Seeds(bal, root, infinity)) && Feasible(e0 + Seeds(bal, root, infinity))
    ensures EndpointsBelow(e0 + Seeds(bal, root, infinity), root + 1)
  {
    var edges := e0 + Seeds(bal, root, infinity);
    SeedsOk(e0, bal, root, infinity);
    forall k | 0 <= k < |edges|
      ensures edges[k].src < root + 1
    {
      if k >= |e0| {
        SeedIndex(e0, bal, root, infinity, (k - |e0|) / 2);
      }
    }
    PairedBelow(edges, root + 1);
  }

  /** What the seeding loop leaves for `update_tree`: parentless vertices whose tree-edge sets form the star. */
  ghost predicate StarInput(edges: seq<Edge>, vs: seq<VertexData>, e0: seq<Edge>, bal: seq<int>, root: nat, infinity: int)
  {
    |bal| == root && |e0| % 2 == 0 && edges == e0 + Seeds(bal, root, infinity) &&
    Paired(edges) && EndpointsBelow(edges, root + 1) && |vs| == root + 1 &&
    forall u :: 0 <= u <= root ==>
      vs[u].parent == None && vs[u].parentEdge == None && vs[u].potential == 0 && vs[u].depth == 0 && vs[u].treeEdges == SeedTree(bal, |e0|, root, root, u)
  }

  lemma SeedingStar(edges: seq<Edge>, balances: seq<int>, vs: seq<VertexData>,
                    e0: seq<Edge>, bal: seq<int>, root: nat, infinity: int)
    requires Seeding(edges, balances, vs, e0, bal, root, infinity, root)
    ensures StarInput(edges, vs, e0, bal, root, infinity)
  {
    assert bal[..root] == bal;
    SeedEdges(e0, bal, root, infinity);
  }

  /** A real vertex hangs from the root by its artificial edge. */
  lemma StarChild(edges: seq<Edge>, vs: seq<VertexData>, e0: seq<Edge>, bal: seq<int>, root: nat, infinity: int, w: nat)
    requires |bal| == root && |e0| % 2 == 0 && edges == e0 + Seeds(bal, root, infinity) && |vs| == root + 1 && w < root
    requires vs[w].treeEdges == {UpId(bal, |e0|, w)} && vs[root].treeEdges == RootSeeds(bal, |e0|, root)
    ensures ChildOk(edges, vs, StarParents(root), StarParentEdges(bal, |e0|, root), w)
  {
    SeedUp(e0, bal, root, infinity, w);
    assert Rev(UpId(bal, |e0|, w)) in RootSeeds(bal, |e0|, root);
  }

  /** Every tree edge of the root leads down to a real vertex, every other one up to the root. */
  lemma StarEdge(edges: seq<Edge>, vs: seq<VertexData>, e0: seq<Edge>, bal: seq<int>, root: nat, infinity: int, u: nat, e: nat)
    requires |bal| == root && |e0| % 2 == 0 && edges == e0 + Seeds(bal, root, infinity) && |vs| == root + 1 && u <= root
    requires vs[u].treeEdges == SeedTree(bal, |e0|, root, root, u) && e in vs[u].treeEdges
    ensures TreeEdgeOk(edges, vs, StarParents(root), StarParentEdges(bal, |e0|, root), u, e)
  {
    if u < root {
      SeedUp(e0, bal, root, infinity, u);
    } else {
      var w :| 0 <= w < root && e == Rev(UpId(bal, |e0|, w));
      SeedUp(e0, bal, root, infinity, w);
      RevRev(UpId(bal, |e0|, w));
    }
  }

  /** The tree-edge sets of the seeded vertices describe the star hanging from the root. */
  lemma SeedSetting(edges: seq<Edge>, vs: seq<VertexData>, e0: seq<Edge>, bal: seq<int>, root: nat, infinity: int)
    requires StarInput(edges, vs, e0, bal, root, infinity)
    ensures Setting(edges, vs, root, StarParents(root), StarParentEdges(bal, |e0|, root), StarRanks(root))
  {
    var np, npe := StarParents(root), StarParentEdges(bal, |e0|, root);
    forall w | 0 <= w <= root
      ensures ChildOk(edges, vs, np, npe, w)
    {
      if w < root {
        assert vs[w].treeEdges == SeedTree(bal, |e0|, root, root, w);
        assert vs[root].treeEdges == SeedTree(bal, |e0|, root, root, root);
        StarChild(edges, vs, e0, bal, root, infinity, w);
      }
    }
    forall u, e | 0 <= u <= root && e in vs[u].treeEdges
      ensures TreeEdgeOk(edges, vs, np, npe, u, e)
    {
      StarEdge(edges, vs, e0, bal, root, infinity, u, e);
    }
  }

  /**
    Relabelling the seeded vertices from the root hangs every real vertex
    from the root by its artificial edge, at depth 1 and with the potential
    that gives that edge reduced cost zero: `infinity` for a vertex fed
    from the root, `-infinity` for one draining to it.
  */
  lemma SeedStar(edges: seq<Edge>, vs: seq<VertexData>, vs': seq<VertexData>,
                 e0: seq<Edge>, bal: seq<int>, root: nat, infinity: int, a: set<nat>)
    requires StarInput(edges, vs, e0, bal, root, infinity)
    requires Relabelled(edges, vs, vs', root, StarParents(root), StarParentEdges(bal, |e0|, root), StarRanks(root), a)
    ensures vs'[root] == vs[root]
    ensures forall u :: 0 <= u < root ==>
      vs'[u] == vs[u].(parent := Some(root), parentEdge := Some(UpId(bal, |e0|, u)), depth := 1,
                       potential := if IsNegative(bal[u]) then infinity else -infinity)
  {
    var np, npe := StarParents(root), StarParentEdges(bal, |e0|, root);
    assert vs'[root] == vs[root];
    forall u | 0 <= u < root
      ensures vs'[u] == vs[u].(parent := Some(root), parentEdge := Some(UpId(bal, |e0|, u)), depth := 1,
                               potential := if IsNegative(bal[u]) then infinity else -infinity)
    {
      assert np[u] == Some(root);
      assert u in a;
      assert NewLabel(edges, vs, vs', np, npe, u);
      SeedUp(e0, bal, root, infinity, u);
    }
  }

  /** The star is a consistent tree. */
  lemma SeedTreeOk(edges: seq<Edge>, vs: seq<VertexData>, vs': seq<VertexData>,
                   e0: seq<Edge>, bal: seq<int>, root: nat, infinity: int)
    requires StarInput(edges, vs, e0, bal, root, infinity)
    requires |vs'| == |vs| && vs'[root] == vs[root]
    requires forall u :: 0 <= u < root ==>
      vs'[u] == vs[u].(parent := Some(root), parentEdge := Some(UpId(bal, |e0|, u)), depth := 1,
                       potential := if IsNegative(bal[u]) then infinity else -infinity)
    ensures TreeOk(edges, vs', root)
  {
    var np, npe, rank := StarParents(root), StarParentEdges(bal, |e0|, root), StarRanks(root);
    SeedSetting(edges, vs, e0, bal, root, infinity);
    forall u | 0 <= u < root
      ensures edges[UpId(bal, |e0|, u)].cost + vs'[u].potential - vs'[root].potential == 0
    {
      SeedUp(e0, bal, root, infinity, u);
    }
    assert ParentChain(vs', root) by {
      forall v {:trigger Par(vs', v)} | 0 <= v <= root && v != root
        ensures Par(vs', v) == root
      {
      }
    }
    forall u | 0 <= u <= root
      ensures vs'[u].parent == np[u] && vs'[u].parentEdge == npe[u] && vs'[u].treeEdges == vs[u].treeEdges
    {
    }
    assert Parents(vs') == np;
    assert ParentEdges(vs') == npe;
    forall w | 0 <= w <= root
      ensures ChildOk(edges, vs', np, npe, w)
    {
      assert ChildOk(edges, vs, np, npe, w);
    }
    forall u, e | 0 <= u <= root && e in vs'[u].treeEdges
      ensures TreeEdgeOk(edges, vs', np, npe, u, e)
    {
      assert TreeEdgeOk(edges, vs, np, npe, u, e);
    }
  }

  /** Before the seeding loop: the vertices of the first loop, padded with fresh records up to the root. */
  lemma SeedingStart(e0: seq<Edge>, vs1: seq<VertexData>, vs: seq<VertexData>, bal: seq<int>, root: nat, infinity: int)
    requires Paired(e0) && Feasible(e0) && |e0| % 2 == 0 && |bal| == root && |vs1| <= root
    requires forall k :: 0 <= k < |e0| ==> e0[k].src < |vs1|
    requires forall u :: 0 <= u < |vs1| ==> vs1[u] == DefaultVertex().(adjacentEdges := OutIds(e0, u))
    requires vs == vs1 + seq(root + 1 - |vs1|, _ => DefaultVertex())
    ensures Seeding(e0, bal, vs, e0, bal, root, infinity, 0)
  {
    assert e0 + Seeds(bal[..0], root, infinity) == e0;
    forall w | 0 <= w < root
      ensures bal[w] == if w < 0 then 0 else bal[w]
    {
    }
    forall u | 0 <= u <= root
      ensures vs[u] == SeededVertex(e0, bal, |e0|, root, 0, u)
    {
      assert RootSeeds(bal, |e0|, 0) == {};
      if u >= |vs1| {
        OutIdsNone(e0, u);
      }
    }
  }

  /**
    The two edges `add_edge(x, y, 0, cap, infinity)` appends for vertex `v`,
    after `add_flow` of `|b|` along the first, are the pair `SeedPair`.
  */
  lemma SeedFlow(p: seq<Edge>, b: int, v: nat, root: nat, infinity: int, x: nat, y: nat, cap: int)
    requires |p| % 2 == 0
    requires (x, y, cap) == if IsNegative(b) then (root, v, -b) else (v, root, b + One())
    ensures Rev(|p|) == |p| + 1
    ensures AddFlowTo(p + [Edge(x, y, Zero(), cap, infinity), Edge(y, x, -Zero(), -Zero(), -infinity)], |p|, Abs(b))
            == p + SeedPair(b, v, root, infinity)
  {
    RevPair(|p| / 2);
    var q := AddFlowTo(p + [Edge(x, y, Zero(), cap, infinity), Edge(y, x, -Zero(), -Zero(), -infinity)], |p|, Abs(b));
    var r := p + SeedPair(b, v, root, infinity);
    forall i | 0 <= i < |r|
      ensures q[i] == r[i]
    {
    }
  }

  /** The record of `u` after the round of the seeding loop that adds the ids `id` from `x` and `id + 1` from `y`. */
  function Stamped(d: VertexData, u: nat, x: nat, y: nat, id: nat): VertexData
  {
    d.(adjacentEdges := d.adjacentEdges + (if u == x then [id] else []) + (if u == y then [id + 1] else []),
       treeEdges := d.treeEdges + (if u == x then {id} else {}) + (if u == y then {id + 1} else {}))
  }

  /** The four record updates of one seeding round, vertex by vertex. */
  lemma StampAll(vs: seq<VertexData>, x: nat, y: nat, id: nat, vs': seq<VertexData>)
    requires x < |vs| && y < |vs| && x != y
    requires vs' == vs[x := vs[x].(adjacentEdges := vs[x].adjacentEdges + [id])]
                      [y := vs[y].(adjacentEdges := vs[y].adjacentEdges + [id + 1])]
                      [x := vs[x].(adjacentEdges := vs[x].adjacentEdges + [id], treeEdges := vs[x].treeEdges + {id})]
                      [y := vs[y].(adjacentEdges := vs[y].adjacentEdges + [id + 1], treeEdges := vs[y].treeEdges + {id + 1})]
    ensures |vs'| == |vs| && forall u :: 0 <= u < |vs| ==> vs'[u] == Stamped(vs[u], u, x, y, id)
  {
  }

  /** One vertex record through a seeding round. */
  lemma SeededStep(edges: seq<Edge>, bal: seq<int>, base: nat, root: nat, v: nat, x: nat, y: nat, u: nat, pair: seq<Edge>)
    requires v < |bal| == root && base % 2 == 0 && |edges| == base + 2 * v && u <= root
    requires (x, y) == if IsNegative(bal[v]) then (root, v) else (v, root)
    requires |pair| == 2 && pair[0].src == x && pair[1].src == y
    ensures Stamped(SeededVertex(edges, bal, base, root, v, u), u, x, y, |edges|) ==
            SeededVertex(edges + [pair[0]] + [pair[1]], bal, base, root, v + 1, u)
  {
    UpIdRev(bal, base, v);
    OutIdsAppend(edges, pair[0], u);
    OutIdsAppend(edges + [pair[0]], pair[1], u);
    SeedTreeStep(bal, base, root, v, u);
  }

  /**
    One round of the seeding loop for vertex `v`: its pair is appended, its
    balance spent, both ends list their new out-edge and take the new tree
    edge leaving them.
  */
  lemma SeedingStep(edges: seq<Edge>, balances: seq<int>, vs: seq<VertexData>,
                    e0: seq<Edge>, bal: seq<int>, root: nat, infinity: int, v: nat,
                    x: nat, y: nat, edges': seq<Edge>, vs': seq<VertexData>)
    requires Seeding(edges, balances, vs, e0, bal, root, infinity, v) && v < root
    requires (x, y) == if IsNegative(bal[v]) then (root, v) else (v, root)
    requires edges' == edges + SeedPair(bal[v], v, root, infinity)
    requires |vs'| == |vs| && forall u :: 0 <= u < |vs| ==> vs'[u] == Stamped(vs[u], u, x, y, |edges|)
    ensures Seeding(edges', balances[v := 0], vs', e0, bal, root, infinity, v + 1)
  {
    SeedsSnoc(bal, root, infinity, v);
    assert edges' == e0 + Seeds(bal[..v + 1], root, infinity);
    var pair := SeedPair(bal[v], v, root, infinity);
    assert edges' == edges + [pair[0]] + [pair[1]];
    forall u | 0 <= u <= root
      ensures vs'[u] == SeededVertex(edges', bal, |e0|, root, v + 1, u)
    {
      assert vs[u] == SeededVertex(edges, bal, |e0|, root, v, u);
      SeededStep(edges, bal, |e0|, root, v, x, y, u, pair);
    }
  }

  /**
    The state `prepare_data` hands to the pivot loop, for the real edges
    `e0` and the balances `b0` it starts from: the root is the vertex after
    every real one; the artificial pairs, fed by the balances zero-extended
    to the root, follow the real edges; the balances are all spent; and the
    vertices form the star: every real vertex hangs from the root by its
    artificial edge, with the potential giving that edge reduced cost zero.
  */
  ghost predicate Prepared(e0: seq<Edge>, b0: seq<int>, edges: seq<Edge>, balances: seq<int>, vs: seq<VertexData>, root: nat)
  {
    root == VertexBound(|b0|, e0) && |e0| % 2 == 0 &&
    var bal := Padded(b0, root);
    var infinity := One() + PositiveCosts(e0);
    edges == e0 + Seeds(bal, root, infinity) && balances == seq(root, _ => 0) && |vs| == root + 1 &&
    vs[root] == VertexData(0, OutIds(edges, root), None, None, 0, RootSeeds(bal, |e0|, root)) &&
    forall u :: 0 <= u < root ==>
      vs[u] == VertexData(if IsNegative(bal[u]) then infinity else -infinity, OutIds(edges, u),
                          Some(root), Some(UpId(bal, |e0|, u)), 1, {UpId(bal, |e0|, u)})
  }

  /** `prepare_data` moves every balance into the artificial edges: net flow plus balance is kept at every real vertex. */
  lemma PreparedConserves(e0: seq<Edge>, b0: seq<int>, edges: seq<Edge>, balances: seq<int>, vs: seq<VertexData>,
                          root: nat, w: nat)
    requires Prepared(e0, b0, edges, balances, vs, root) && w != root
    ensures Net(edges, w) + (if w < |balances| then balances[w] else 0) == Net(e0, w) + (if w < |b0| then b0[w] else 0)
  {
    var bal := Padded(b0, root);
    SeedsNet(e0, bal, root, One() + PositiveCosts(e0), w);
  }

  /** The seeded star, relabelled from the root, is the state `Prepared` describes. */
  lemma SeedPrepared(edges: seq<Edge>, balances: seq<int>, vs: seq<VertexData>, vs': seq<VertexData>,
                     e0: seq<Edge>, b0: seq<int>, bal: seq<int>, root: nat, infinity: int)
    requires Seeding(edges, balances, vs, e0, bal, root, infinity, root)
    requires root == VertexBound(|b0|, e0) && |b0| <= root && bal == Padded(b0, root) && infinity == One() + PositiveCosts(e0)
    requires |vs'| == |vs| && vs'[root] == vs[root]
    requires forall u :: 0 <= u < root ==>
      vs'[u] == vs[u].(parent := Some(root), parentEdge := Some(UpId(bal, |e0|, u)), depth := 1,
                       potential := if IsNegative(bal[u]) then infinity else -infinity)
    ensures Prepared(e0, b0, edges, balances, vs', root)
  {
    assert bal[..root] == bal;
    assert balances == seq(root, _ => 0);
    forall u | 0 <= u <= root
      ensures vs[u] == SeededVertex(edges, bal, |e0|, root, root, u)
    {
    }
  }
}
