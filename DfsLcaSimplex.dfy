/**
  The entering-edge rule of `dfs_lca_network_simplex.rs`, `dfs_lca_pivot`,
  and the `run` built on it.  One round walks the spanning tree depth first
  and puts every edge pair, by one of its edges, into the bucket of the depth
  just above the place where the walk has closed both ends (a union-find
  records, for every closed vertex, the depth of the deepest open ancestor
  when its subtree was closed).  The buckets, deepest first, are then the
  order in which the pairs are considered: each pair whose edge of negative
  reduced cost has residual capacity is pivoted in.  The round reports
  optimality when it pivots nothing.  Everything else (`prepare_data`,
  `pivot`, `update_tree`, the closing part of `run`) is the code shared with
  the block-search solver, in `NetworkSimplexCore`.
*/
module DfsLcaSimplex {
  import opened Wrappers
  import opened FlowNum
  import opened SimplexEdges
  import opened SimplexTree
  import opened SimplexSeed
  import opened SimplexSelect
  import opened SimplexOptimal
  import opened NetworkSimplexCore
  import opened DfsLcaTraversal
  import UF = UnionFind

  /** Every record lists exactly the ids of the edges leaving its vertex, in increasing order. */
  ghost predicate Adjacent(edges: seq<Edge>, vs: seq<VertexData>)
  {
    forall u :: 0 <= u < |vs| ==> vs[u].adjacentEdges == OutIds(edges, u)
  }

  /** No edge is a loop at the root, so that the walk never files a self-loop pair above the root. */
  ghost predicate NoRootLoop(edges: seq<Edge>, root: nat)
  {
    forall e :: 0 <= e < |edges| ==> edges[e].src != root || edges[e].dst != root
  }

  /** What `dfs_lca_pivot` works on: a consistent spanning tree over all `n` vertices, their adjacency lists, no loop at the root. */
  ghost predicate Ready(ns: NetworkSimplex, data: TemporaryData)
    reads ns, data
  {
    ns.Valid() && TreeOk(ns.edges, data.vertices, data.root) && data.n == |data.vertices| &&
    Adjacent(ns.edges, data.vertices) && NoRootLoop(ns.edges, data.root)
  }

  /** The adjacency lists only depend on the endpoints of the edges. */
  lemma {:induction false} OutIdsShape(e1: seq<Edge>, e2: seq<Edge>, u: nat)
    requires SameShape(e1, e2)
    ensures OutIds(e1, u) == OutIds(e2, u)
    decreases |e1|
  {
    if e1 != [] {
      var k := |e1| - 1;
      assert SameShape(e1[..k], e2[..k]);
      OutIdsShape(e1[..k], e2[..k], u);
    }
  }

  /** A pivot, which keeps the endpoints of the edges and the adjacency lists, keeps what `dfs_lca_pivot` needs of them. */
  lemma {:induction false} ShapeKeepsReady(e0: seq<Edge>, vs0: seq<VertexData>, e1: seq<Edge>, vs1: seq<VertexData>, root: nat)
    requires Adjacent(e0, vs0) && NoRootLoop(e0, root)
    requires SameShape(e0, e1) && SameAdjacency(vs0, vs1)
    ensures Adjacent(e1, vs1) && NoRootLoop(e1, root)
  {
    forall u | 0 <= u < |vs1|
      ensures vs1[u].adjacentEdges == OutIds(e1, u)
    {
      OutIdsShape(e0, e1, u);
    }
  }

  /** After `prepare_data` the records list the adjacent edges, and the root only meets the artificial edges, none of them a loop. */
  lemma {:induction false} PreparedReady(e0: seq<Edge>, b0: seq<int>, edges: seq<Edge>, balances: seq<int>, vs: seq<VertexData>, root: nat)
    requires Prepared(e0, b0, edges, balances, vs, root)
    ensures Adjacent(edges, vs) && NoRootLoop(edges, root)
  {
    var bal, infinity := Padded(b0, root), One() + PositiveCosts(e0);
    forall e | 0 <= e < |edges|
      ensures edges[e].src != root || edges[e].dst != root
    {
      if e < |e0| {
        assert edges[e] == e0[e];
      } else {
        var v := (e - |e0|) / 2;
        assert e == |e0| + 2 * v || e == |e0| + 2 * v + 1;
        SeedIndex(e0, bal, root, infinity, v);
      }
    }
  }

  /**
    The union-find state of the walk: for every closed vertex but the root,
    the representative of its set names a bucket.
  */
  ghost predicate TopsOk(uf: UF.UnionFind, topDepth: seq<nat>, closed: seq<bool>, root: nat)
    reads uf
  {
    uf.Valid() && |uf.nodes| == |closed| && |topDepth| == |closed| &&
    forall w :: 0 <= w < |closed| && closed[w] && w != root ==> topDepth[uf.Root(w)] < |closed|
  }

  /**
    `pre(v)` of `dfs_lca_pivot`: the `Pre(v)` entry just popped becomes
    `Post(v)`, and a `Pre` entry is pushed for the head of every tree edge of
    `v` that does not lead to `v`'s parent, in the iteration order of the
    tree-edge set, which is left open.  Those heads are exactly the children
    of `v`, each pushed once.
  */
  method EnterVertex(edges: seq<Edge>, vs: seq<VertexData>, root: nat, stack0: seq<State>, v: nat,
                     ghost status: seq<Status>, ghost pos: seq<nat>)
    returns (stack: seq<State>, ghost s: seq<Status>, ghost p: seq<nat>)
    requires TreeOk(edges, vs, root) && Traversal(vs, root, stack0 + [Pre(v)], status, pos)
    ensures Traversal(vs, root, stack, s, p)
    ensures CountPost(stack) == CountPost(stack0) + 1
    ensures forall w :: 0 <= w < |vs| ==> (s[w] == Status.Done <==> status[w] == Status.Done)
    ensures Unseens(s) < Unseens(status) || (Unseens(s) == Unseens(status) && Weight(stack) < Weight(stack0 + [Pre(v)]))
  {
    EnterLayout(|vs|, root, stack0, v, status, pos);
    stack, s, p := stack0 + [Post(v)], status[v := Open], pos;
    EnterStart(edges, vs, root, v, stack0, status, pos);
    var rest := vs[v].treeEdges;
    while rest != {}
      invariant Entering(vs, root, v, stack0, status, stack, s, p, rest)
      decreases |rest|
    {
      var eid :| eid in rest;
      stack, s, p := VisitTreeEdgeOf(edges, vs, root, v, stack0, status, stack, s, p, rest, eid);
      rest := rest - {eid};
    }
    EnterEnd(edges, vs, root, v, stack0, status, stack, s, p);
  }

  /** The loop of `pre(v)` starts with `Post(v)` on top of the stack and `v` open. */
  lemma {:induction false} EnterStart(edges: seq<Edge>, vs: seq<VertexData>, root: nat, v: nat, stack0: seq<State>,
                                      status: seq<Status>, pos: seq<nat>)
    requires TreeOk(edges, vs, root) && Traversal(vs, root, stack0 + [Pre(v)], status, pos) && v < |status|
    ensures Entering(vs, root, v, stack0, status, stack0 + [Post(v)], status[v := Open], pos, vs[v].treeEdges)
  {
    EnterStack(|vs|, root, v, stack0, status, pos);
    EnterFrontier(vs, root, v, status);
    ChildEdgesIn(edges, vs, root, v);
  }

  /** The edge down to every child of `v` is a tree edge of `v`. */
  lemma ChildEdgesIn(edges: seq<Edge>, vs: seq<VertexData>, root: nat, v: nat)
    requires TreeOk(edges, vs, root) && v < |vs|
    ensures forall u: nat :: IsChild(vs, root, v, u) ==> ChildEdge(vs, root, u) in vs[v].treeEdges
  {
    forall u: nat | IsChild(vs, root, v, u)
      ensures ChildEdge(vs, root, u) in vs[v].treeEdges
    {
      ChildEdgeIn(edges, vs, root, v, u);
    }
  }

  /** Entering `v` turns its `Pre` entry into `Post(v)` and opens `v`. */
  lemma {:induction false} EnterStack(n: nat, root: nat, v: nat, stack0: seq<State>, status: seq<Status>, pos: seq<nat>)
    requires Layout(n, root, stack0 + [Pre(v)], status, pos)
    ensures v < n && status[v] == Pending
    ensures Layout(n, root, stack0 + [Post(v)], status[v := Open], pos) && (stack0 + [Post(v)])[0].Post?
    ensures CountPost(stack0 + [Post(v)]) == CountPost(stack0) + 1
  {
    EnterLayout(n, root, stack0, v, status, pos);
    CountsSnoc(stack0, Post(v));
    var stack := stack0 + [Post(v)];
    if |stack| == 1 {
      assert stack[0] == Post(v);
    }
  }

  /** Once every tree edge of `v` is visited, the children of `v` are pending and the walk invariant holds again. */
  lemma {:induction false} EnterEnd(edges: seq<Edge>, vs: seq<VertexData>, root: nat, v: nat, stack0: seq<State>,
                                    status: seq<Status>, stack: seq<State>, s: seq<Status>, p: seq<nat>)
    requires TreeOk(edges, vs, root) && Entering(vs, root, v, stack0, status, stack, s, p, {})
    ensures Traversal(vs, root, stack, s, p)
    ensures CountPost(stack) == CountPost(stack0) + 1
    ensures forall w :: 0 <= w < |vs| ==> (s[w] == Status.Done <==> status[w] == Status.Done)
    ensures Unseens(s) < Unseens(status) || (Unseens(s) == Unseens(status) && Weight(stack) < Weight(stack0 + [Pre(v)]))
  {
    CountsSnoc(stack0, Pre(v));
    CountsSnoc(stack0, Post(v));
    CloseFrontier(vs, root, v, s);
  }

  /**
    The invariant of the loop of `pre(v)` over the tree edges of `v` with
    `rest` still to visit: the stack is `stack0` with `Post(v)` and the
    children reached so far on top; a child is pending exactly when its edge
    has been visited.
  */
  ghost predicate Entering(vs: seq<VertexData>, root: nat, v: nat, stack0: seq<State>, status: seq<Status>,
                           stack: seq<State>, s: seq<Status>, p: seq<nat>, rest: set<nat>)
  {
    ParentChain(vs, root) && v < |vs| && |status| == |vs| &&
    Layout(|vs|, root, stack, s, p) && stack != [] && stack[0].Post? &&
    FrontierBut(vs, root, s, v) && s[v] == Open &&
    rest <= vs[v].treeEdges &&
    (forall u: nat :: IsChild(vs, root, v, u) ==> (s[u] == Pending <==> ChildEdge(vs, root, u) !in rest)) &&
    (forall w :: 0 <= w < |vs| ==> (s[w] == Status.Done <==> status[w] == Status.Done)) &&
    CountPost(stack) == CountPost(stack0) + 1 &&
    (Unseens(s) < Unseens(status) || (Unseens(s) == Unseens(status) && stack == stack0 + [Post(v)]))
  }

  /** One tree edge `eid` of `v` in `pre(v)`: unless it leads to `v`'s parent, its head, a child of `v`, is pushed. */
  method VisitTreeEdgeOf(edges: seq<Edge>, vs: seq<VertexData>, root: nat, v: nat, ghost stack0: seq<State>, ghost status: seq<Status>,
                         stack: seq<State>, ghost s: seq<Status>, ghost p: seq<nat>, ghost rest: set<nat>, eid: nat)
    returns (stack': seq<State>, ghost s': seq<Status>, ghost p': seq<nat>)
    requires TreeOk(edges, vs, root) && Entering(vs, root, v, stack0, status, stack, s, p, rest) && eid in rest
    ensures Entering(vs, root, v, stack0, status, stack', s', p', rest - {eid})
  {
    TreeEdgeChild(edges, vs, root, v, eid);
    var u := edges[eid].dst;
    EdgeOnlyChild(edges, vs, root, v, eid);
    if vs[v].parent != Some(u) {
      PushChild(vs, root, v, stack0, status, stack, s, p, rest, eid, u);
      stack', s', p' := stack + [Pre(u)], s[u := Pending], p[u := |stack|];
    } else {
      PendingAfter(vs, root, v, s, s, rest, eid, u);
      stack', s', p' := stack, s, p;
    }
  }

  /** `u` is the only child of `v` below the tree edge `eid`. */
  ghost predicate OnlyChild(vs: seq<VertexData>, root: nat, v: nat, eid: nat, u: nat)
    requires ParentChain(vs, root)
  {
    forall w: nat :: IsChild(vs, root, v, w) && ChildEdge(vs, root, w) == eid ==> w == u
  }

  /** A child edge of `v` leads from `v` to that child, so an edge of `v` names at most one child: its head. */
  lemma EdgeOnlyChild(edges: seq<Edge>, vs: seq<VertexData>, root: nat, v: nat, eid: nat)
    requires TreeOk(edges, vs, root) && eid < |edges|
    ensures OnlyChild(vs, root, v, eid, edges[eid].dst)
  {
    forall w: nat | IsChild(vs, root, v, w) && ChildEdge(vs, root, w) == eid
      ensures w == edges[eid].dst
    {
      ChildEdgeEnds(edges, vs, root, v, w);
    }
  }

  /** A tree edge `eid` of `v` to a child `u`: pushing `Pre(u)` and marking `u` pending keeps the loop invariant. */
  lemma PushChild(vs: seq<VertexData>, root: nat, v: nat, stack0: seq<State>, status: seq<Status>,
                  stack: seq<State>, s: seq<Status>, p: seq<nat>, rest: set<nat>, eid: nat, u: nat)
    requires Entering(vs, root, v, stack0, status, stack, s, p, rest) && eid in rest
    requires IsChild(vs, root, v, u) && eid == ChildEdge(vs, root, u) && OnlyChild(vs, root, v, eid, u)
    ensures Entering(vs, root, v, stack0, status, stack + [Pre(u)], s[u := Pending], p[u := |stack|], rest - {eid})
  {
    PushLayout(|vs|, root, stack, u, s, p);
    PushFrontier(vs, root, v, u, s);
    CountsSnoc(stack, Pre(u));
    PendingAfter(vs, root, v, s, s[u := Pending], rest, eid, u);
    forall w | 0 <= w < |vs|
      ensures (s[u := Pending][w] == Status.Done <==> status[w] == Status.Done)
    {
      if w == u {
        assert s[u] == Unseen;
      }
    }
  }

  /** After the tree edge `eid` to `u`: a child is pending exactly when its edge has been visited. */
  lemma PendingAfter(vs: seq<VertexData>, root: nat, v: nat, s: seq<Status>, s': seq<Status>, rest: set<nat>, eid: nat, u: nat)
    requires ParentChain(vs, root) && |s| == |vs| && u < |vs|
    requires forall w: nat :: IsChild(vs, root, v, w) ==> (s[w] == Pending <==> ChildEdge(vs, root, w) !in rest)
    requires OnlyChild(vs, root, v, eid, u)
    requires IsChild(vs, root, v, u) ==> eid == ChildEdge(vs, root, u) && s' == s[u := Pending]
    requires !IsChild(vs, root, v, u) ==> s' == s
    ensures forall w: nat :: IsChild(vs, root, v, w) ==> (s'[w] == Pending <==> ChildEdge(vs, root, w) !in rest - {eid})
  {
  }

  /**
    One edge `eid` out of `v` in `post(v)`: when its head is closed it goes
    into the bucket its head's set names, when it is the first edge of a
    self-loop pair into the bucket `depth - 1`; otherwise it is not filed.
  */
  method FileEdge(edges: seq<Edge>, root: nat, v: nat, depth: nat, uf: UF.UnionFind, topDepth: seq<nat>,
                  closed: seq<bool>, buckets0: seq<seq<nat>>, eid: nat)
    returns (buckets: seq<seq<nat>>)
    requires Paired(edges) && EndpointsBelow(edges, |closed|) && NoRootLoop(edges, root)
    requires eid < |edges| && edges[eid].src == v && root < |closed|
    requires !closed[root] && depth <= |closed| && (v != root ==> depth >= 1)
    requires TopsOk(uf, topDepth, closed, root) && |buckets0| == |closed|
    modifies uf
    ensures TopsOk(uf, topDepth, closed, root) && |buckets| == |closed|
    ensures multiset(FlattenRev(buckets)) == multiset(FlattenRev(buckets0)) + multiset(if Closing(edges, closed, eid) then [eid] else [])
  {
    var e := edges[eid];
    buckets := buckets0;
    if closed[e.dst] {
      label found:
      var r := uf.FindMut(e.dst);
      forall w | 0 <= w < |closed| && closed[w] && w != root
        ensures topDepth[uf.Root(w)] < |closed|
      {
        assert uf.Root(w) == old@found(uf.Root(w));
      }
      var d := topDepth[r];
      FlattenRevPush(buckets, d, eid);
      var bucket := buckets[d] + [eid];
      buckets := buckets[d := bucket];
    } else if e.src == e.dst && eid < Rev(eid) {
      var d := depth - 1;
      FlattenRevPush(buckets, d, eid);
      var bucket := buckets[d] + [eid];
      buckets := buckets[d := bucket];
    }
  }

  /**
    The loop over `adjacent_edges` in `post(v)`: an edge whose head is
    closed goes into the bucket its head's set names, the first edge of a
    self-loop pair at `v` into the bucket just above `v`'s depth.  Looking a
    head up compresses paths in the union-find but names the same sets.
  */
  method FileEdges(edges: seq<Edge>, vs: seq<VertexData>, root: nat, v: nat, depth: nat,
                   uf: UF.UnionFind, topDepth: seq<nat>, closed: seq<bool>, buckets0: seq<seq<nat>>)
    returns (buckets: seq<seq<nat>>)
    requires Paired(edges) && EndpointsBelow(edges, |closed|) && NoRootLoop(edges, root)
    requires v < |vs| == |closed| && root < |closed| && vs[v].adjacentEdges == OutIds(edges, v)
    requires !closed[root] && depth <= |closed| && (v != root ==> depth >= 1)
    requires TopsOk(uf, topDepth, closed, root) && |buckets0| == |closed|
    modifies uf
    ensures TopsOk(uf, topDepth, closed, root) && |buckets| == |closed|
    ensures multiset(FlattenRev(buckets)) == multiset(FlattenRev(buckets0)) + multiset(PushedBy(edges, closed, OutIds(edges, v)))
  {
    var adj := vs[v].adjacentEdges;
    OutIdsSrc(edges, v);
    buckets := buckets0;
    for k := 0 to |adj|
      invariant TopsOk(uf, topDepth, closed, root) && |buckets| == |closed|
      invariant multiset(FlattenRev(buckets)) == multiset(FlattenRev(buckets0)) + multiset(PushedBy(edges, closed, adj[..k]))
    {
      ghost var m0 := multiset(FlattenRev(buckets));
      buckets := FileEdge(edges, root, v, depth, uf, topDepth, closed, buckets, adj[k]);
      FiledNext(edges, closed, adj, k, multiset(FlattenRev(buckets0)), m0, multiset(FlattenRev(buckets)));
    }
    assert adj[..|adj|] == adj;
  }

  /** Filing the edge `adj[k]` after those before it: the filed ids are those `PushedBy` keeps of `adj[..k + 1]`. */
  lemma FiledNext(edges: seq<Edge>, closed: seq<bool>, adj: seq<nat>, k: nat, base: multiset<nat>, m0: multiset<nat>, m: multiset<nat>)
    requires k < |adj| && m0 == base + multiset(PushedBy(edges, closed, adj[..k]))
    requires m == m0 + multiset(if Closing(edges, closed, adj[k]) then [adj[k]] else [])
    ensures m == base + multiset(PushedBy(edges, closed, adj[..k + 1]))
  {
    PushedBySnoc(edges, closed, adj, k);
  }

  /** Every id listed for `u` names an edge leaving `u`. */
  lemma OutIdsSrc(edges: seq<Edge>, u: nat)
    ensures forall i :: 0 <= i < |OutIds(edges, u)| ==> OutIds(edges, u)[i] < |edges| && edges[OutIds(edges, u)[i]].src == u
  {
    OutIdsExact(edges, u);
    forall i | 0 <= i < |OutIds(edges, u)|
      ensures OutIds(edges, u)[i] < |edges| && edges[OutIds(edges, u)[i]].src == u
    {
      assert OutIds(edges, u)[i] in OutIds(edges, u);
    }
  }

  /**
    `post(v)` of `dfs_lca_pivot`, after the depth counter has been lowered to
    `depth`: file the edges out of `v`, merge `v`'s set into its parent's
    and let the merged set name the bucket `depth - 1`, and close `v`.
  */
  method LeaveVertex(edges: seq<Edge>, vs: seq<VertexData>, root: nat, v: nat, depth: nat,
                     uf: UF.UnionFind, topDepth0: seq<nat>, closed0: seq<bool>, buckets0: seq<seq<nat>>)
    returns (topDepth: seq<nat>, closed: seq<bool>, buckets: seq<seq<nat>>)
    requires TreeOk(edges, vs, root) && Adjacent(edges, vs) && NoRootLoop(edges, root)
    requires v < |vs| == |closed0| && !closed0[root] && depth < |vs| && (v != root ==> depth >= 1)
    requires TopsOk(uf, topDepth0, closed0, root) && |buckets0| == |vs|
    modifies uf
    ensures closed == closed0[v := true]
    ensures TopsOk(uf, topDepth, closed, root) && |buckets| == |vs|
    ensures multiset(FlattenRev(buckets)) == multiset(FlattenRev(buckets0)) + multiset(PushedBy(edges, closed0, OutIds(edges, v)))
  {
    buckets := FileEdges(edges, vs, root, v, depth, uf, topDepth0, closed0, buckets0);
    topDepth := topDepth0;
    if vs[v].parent.Some? {
      var par := vs[v].parent.value;
      assert v != root && Par(vs, v) == par;
      topDepth := MergeUp(uf, topDepth0, closed0, root, par, v, depth);
    } else {
      var p := Par(vs, v);
      assert v == root;
    }
    closed := closed0[v := true];
  }

  /**
    The merge of `post(v)`: `v`'s set joins its parent's, and the merged set
    names the bucket `depth - 1`, that of the parent's depth.
  */
  method MergeUp(uf: UF.UnionFind, topDepth0: seq<nat>, closed0: seq<bool>, root: nat, par: nat, v: nat, depth: nat)
    returns (topDepth: seq<nat>)
    requires TopsOk(uf, topDepth0, closed0, root) && par < |closed0| && v < |closed0| && v != root
    requires 1 <= depth <= |closed0|
    modifies uf
    ensures TopsOk(uf, topDepth, closed0[v := true], root)
  {
    label united:
    var merged, r := uf.Unite(par, v);
    topDepth := topDepth0[r := depth - 1];
    forall w | 0 <= w < |closed0| && closed0[v := true][w] && w != root
      ensures topDepth[uf.Root(w)] < |closed0|
    {
      if w != v {
        assert old@united(topDepth0[uf.Root(w)]) < |closed0|;
      }
    }
  }

  /** The state of the walk of `dfs_lca_pivot` between two steps. */
  ghost predicate Walking(edges: seq<Edge>, vs: seq<VertexData>, root: nat, stack: seq<State>, status: seq<Status>,
                          pos: seq<nat>, closed: seq<bool>, ids: seq<nat>, buckets: seq<seq<nat>>, depth: nat,
                          uf: UF.UnionFind, topDepth: seq<nat>)
    reads uf
  {
    Traversal(vs, root, stack, status, pos) &&
    |closed| == |vs| && (forall u :: 0 <= u < |vs| ==> (closed[u] <==> status[u] == Status.Done)) &&
    Tally(edges, closed, ids) &&
    |buckets| == |vs| && multiset(FlattenRev(buckets)) == multiset(ids) &&
    depth == CountPost(stack) && TopsOk(uf, topDepth, closed, root)
  }

  /**
    The `Post(v)` arm of the walk: lower the depth counter, then leave `v`.
    The ids filed so far (`ids`, ghost) grow by the edges out of `v` that
    settle a pair.
  */
  method LeaveStep(edges: seq<Edge>, vs: seq<VertexData>, root: nat, rest: seq<State>, v: nat, depth0: nat,
                   uf: UF.UnionFind, topDepth0: seq<nat>, closed0: seq<bool>, buckets0: seq<seq<nat>>,
                   ghost status: seq<Status>, ghost pos: seq<nat>, ghost ids0: seq<nat>)
    returns (depth: nat, topDepth: seq<nat>, closed: seq<bool>, buckets: seq<seq<nat>>, ghost s: seq<Status>, ghost ids: seq<nat>)
    requires TreeOk(edges, vs, root) && Adjacent(edges, vs) && NoRootLoop(edges, root)
    requires Walking(edges, vs, root, rest + [Post(v)], status, pos, closed0, ids0, buckets0, depth0, uf, topDepth0)
    modifies uf
    ensures Walking(edges, vs, root, rest, s, pos, closed, ids, buckets, depth, uf, topDepth)
    ensures Unseens(s) == Unseens(status) && Weight(rest) < Weight(rest + [Post(v)])
  {
    CountsSnoc(rest, Post(v));
    depth := depth0 - 1;
    LeaveLayout(|vs|, root, rest, v, status, pos);
    if v != root {
      CountBottom(rest);
    }
    topDepth, closed, buckets := LeaveVertex(edges, vs, root, v, depth, uf, topDepth0, closed0, buckets0);
    OutIdsExact(edges, v);
    PostTally(edges, closed0, ids0, v, OutIds(edges, v));
    ids := ids0 + PushedBy(edges, closed0, OutIds(edges, v));
    LeaveFrontier(vs, root, v, status);
    s := status[v := Status.Done];
  }

  /**
    The walk of `dfs_lca_pivot` and its check that the buckets hold
    `|edges| / 2` ids: every pair of edges is filed once, by one of its two
    edges, into one of the `n` buckets.
  */
  method Bucket(ns: NetworkSimplex, data: TemporaryData) returns (buckets: seq<seq<nat>>)
    requires Ready(ns, data)
    ensures |buckets| == data.n
    ensures |FlattenRev(buckets)| == |ns.edges| / 2
    ensures forall j :: 0 <= j < |FlattenRev(buckets)| ==> FlattenRev(buckets)[j] < |ns.edges|
    ensures forall k :: 0 <= k < |ns.edges| ==> k in FlattenRev(buckets) || Rev(k) in FlattenRev(buckets)
  {
    buckets := BucketTree(ns.edges, data.vertices, data.root);
  }

  /** The walk of `Bucket` over the tree `vs` rooted at `root`. */
  method BucketTree(edges: seq<Edge>, vs: seq<VertexData>, root: nat) returns (buckets: seq<seq<nat>>)
    requires TreeOk(edges, vs, root) && Adjacent(edges, vs) && NoRootLoop(edges, root)
    ensures |buckets| == |vs|
    ensures |FlattenRev(buckets)| == |edges| / 2
    ensures forall j :: 0 <= j < |FlattenRev(buckets)| ==> FlattenRev(buckets)[j] < |edges|
    ensures forall k :: 0 <= k < |edges| ==> k in FlattenRev(buckets) || Rev(k) in FlattenRev(buckets)
  {
    var n := |vs|;
    var uf := new UF.UnionFind(n);
    var topDepth: seq<nat> := seq(n, _ => n);
    var stack := [Pre(root)];
    var closed := seq(n, _ => false);
    buckets := seq(n, _ => []);
    var depth: nat := 0;
    ghost var status, pos := StartStatus(n, root), seq(n, _ => 0);
    ghost var ids: seq<nat> := [];
    TraversalStart(vs, root);
    TallyStart(edges, closed);
    FlattenRevEmpty(buckets);
    while stack != []
      invariant Walking(edges, vs, root, stack, status, pos, closed, ids, buckets, depth, uf, topDepth)
      decreases Unseens(status), Weight(stack)
    {
      stack, depth, topDepth, closed, buckets, status, pos, ids :=
        WalkStep(edges, vs, root, stack, depth, uf, topDepth, closed, buckets, status, pos, ids);
    }
    FiledAll(edges, vs, root, status, pos, closed, ids, buckets);
    assert SumLens(buckets) == |edges| / 2;
  }

  /** The `Pre(v)` arm of the walk: raise the depth counter, then enter `v`. */
  method EnterStep(edges: seq<Edge>, vs: seq<VertexData>, root: nat, rest: seq<State>, v: nat, depth0: nat,
                   uf: UF.UnionFind, topDepth: seq<nat>, closed: seq<bool>, buckets: seq<seq<nat>>,
                   ghost status0: seq<Status>, ghost pos0: seq<nat>, ghost ids: seq<nat>)
    returns (stack: seq<State>, depth: nat, ghost status: seq<Status>, ghost pos: seq<nat>)
    requires TreeOk(edges, vs, root)
    requires Walking(edges, vs, root, rest + [Pre(v)], status0, pos0, closed, ids, buckets, depth0, uf, topDepth)
    ensures Walking(edges, vs, root, stack, status, pos, closed, ids, buckets, depth, uf, topDepth)
    ensures Unseens(status) < Unseens(status0) || (Unseens(status) == Unseens(status0) && Weight(stack) < Weight(rest + [Pre(v)]))
  {
    CountsSnoc(rest, Pre(v));
    depth := depth0 + 1;
    stack, status, pos := EnterVertex(edges, vs, root, rest, v, status0, pos0);
  }

  /** One step of the walk of `dfs_lca_pivot`: pop the top entry and run `pre` or `post` on it. */
  method WalkStep(edges: seq<Edge>, vs: seq<VertexData>, root: nat, stack0: seq<State>, depth0: nat,
                  uf: UF.UnionFind, topDepth0: seq<nat>, closed0: seq<bool>, buckets0: seq<seq<nat>>,
                  ghost status0: seq<Status>, ghost pos0: seq<nat>, ghost ids0: seq<nat>)
    returns (stack: seq<State>, depth: nat, topDepth: seq<nat>, closed: seq<bool>, buckets: seq<seq<nat>>,
             ghost status: seq<Status>, ghost pos: seq<nat>, ghost ids: seq<nat>)
    requires TreeOk(edges, vs, root) && Adjacent(edges, vs) && NoRootLoop(edges, root) && stack0 != []
    requires Walking(edges, vs, root, stack0, status0, pos0, closed0, ids0, buckets0, depth0, uf, topDepth0)
    modifies uf
    ensures Walking(edges, vs, root, stack, status, pos, closed, ids, buckets, depth, uf, topDepth)
    ensures Unseens(status) < Unseens(status0) || (Unseens(status) == Unseens(status0) && Weight(stack) < Weight(stack0))
  {
    var top := stack0[|stack0| - 1];
    var rest := stack0[..|stack0| - 1];
    assert stack0 == rest + [top];
    match top
    case Pre(v) =>
      topDepth, closed, buckets, ids := topDepth0, closed0, buckets0, ids0;
      stack, depth, status, pos := EnterStep(edges, vs, root, rest, v, depth0, uf, topDepth0, closed0, buckets0, status0, pos0, ids0);
    case Post(v) =>
      depth, topDepth, closed, buckets, status, ids := LeaveStep(edges, vs, root, rest, v, depth0, uf, topDepth0, closed0, buckets0, status0, pos0, ids0);
      stack, pos := rest, pos0;
  }

  /**
    When the walk ends every vertex is closed, so every pair has been filed
    once: the buckets hold `|edges| / 2` ids, one of each pair.
  */
  lemma {:induction false} FiledAll(edges: seq<Edge>, vs: seq<VertexData>, root: nat, status: seq<Status>, pos: seq<nat>,
                                    closed: seq<bool>, ids: seq<nat>, buckets: seq<seq<nat>>)
    requires Paired(edges) && EndpointsBelow(edges, |vs|) && Traversal(vs, root, [], status, pos)
    requires |closed| == |vs| && forall u :: 0 <= u < |vs| ==> (closed[u] <==> status[u] == Status.Done)
    requires Tally(edges, closed, ids) && multiset(FlattenRev(buckets)) == multiset(ids)
    ensures SumLens(buckets) == |edges| / 2 && |FlattenRev(buckets)| == |edges| / 2
    ensures forall j :: 0 <= j < |FlattenRev(buckets)| ==> FlattenRev(buckets)[j] < |edges|
    ensures forall k :: 0 <= k < |edges| ==> k in FlattenRev(buckets) || Rev(k) in FlattenRev(buckets)
  {
    TraversalDone(vs, root, status, pos);
    TallyDone(edges, closed, ids);
    SumLensFlatten(buckets);
    assert |multiset(FlattenRev(buckets))| == |multiset(ids)|;
    forall k | 0 <= k < |edges|
      ensures k in FlattenRev(buckets) || Rev(k) in FlattenRev(buckets)
    {
      assert k in multiset(ids) || Rev(k) in multiset(ids);
    }
    forall j | 0 <= j < |FlattenRev(buckets)|
      ensures FlattenRev(buckets)[j] < |edges|
    {
      assert FlattenRev(buckets)[j] in multiset(ids);
      var i :| 0 <= i < |ids| && ids[i] == FlattenRev(buckets)[j];
    }
  }

  /**
    One id of the pivot loop of `dfs_lca_pivot`: take the edge `id`, or its
    reverse when that has the negative reduced cost, and pivot it in when it
    is eligible.  Nothing changes when neither edge of the pair is
    eligible; a pivot happens only when one is.
  */
  method Consider(ns: NetworkSimplex, data: TemporaryData, id: nat) returns (pivoted: bool)
    requires Ready(ns, data) && id < |ns.edges|
    modifies ns, data`vertices
    ensures Ready(ns, data)
    ensures ns.balances == old(ns.balances) && SameShape(old(ns.edges), ns.edges)
    ensures forall v :: Net(ns.edges, v) == Net(old(ns.edges), v)
    ensures !pivoted ==> ns.edges == old(ns.edges) && data.vertices == old(data.vertices) && Quiet(ns.edges, data.vertices, id)
    ensures pivoted ==> !NoneEligible(old(ns.edges), old(data.vertices))
  {
    ReducedCostRev(ns.edges, data.vertices, id);
    var eid := id;
    var rc := ReducedCost(data.vertices, ns.edges[eid]);
    if IsPositive(rc) {
      eid := Rev(id);
      rc := -rc;
    }
    pivoted := false;
    if ns.edges[eid].flow != ns.edges[eid].capacity && IsNegative(rc) {
      assert Eligible(data.vertices, ns.edges[eid]);
      PivotOn(ns, data, eid);
      pivoted := true;
    }
  }

  /** `pivot` inside `dfs_lca_pivot`: the state stays ready, with the same balances, edge shapes and net flows. */
  method PivotOn(ns: NetworkSimplex, data: TemporaryData, eid: nat)
    requires Ready(ns, data) && eid < |ns.edges| && ReducedCost(data.vertices, ns.edges[eid]) != 0
    modifies ns, data`vertices
    ensures Ready(ns, data) && ns.balances == old(ns.balances) && SameShape(old(ns.edges), ns.edges)
    ensures forall v :: Net(ns.edges, v) == Net(old(ns.edges), v)
  {
    ghost var e0, vs0 := ns.edges, data.vertices;
    ghost var leaving, side, ka, kb, f := ns.Pivot(data, eid);
    ShapeKeepsReady(e0, vs0, ns.edges, data.vertices, data.root);
  }

  /** The pivot loop of `dfs_lca_pivot` over the ids `order`: `true` when it pivoted nothing. */
  method PivotAll(ns: NetworkSimplex, data: TemporaryData, order: seq<nat>) returns (opt: bool)
    requires Ready(ns, data) && forall j :: 0 <= j < |order| ==> order[j] < |ns.edges|
    modifies ns, data`vertices
    ensures Ready(ns, data)
    ensures ns.balances == old(ns.balances) && SameShape(old(ns.edges), ns.edges)
    ensures forall v :: Net(ns.edges, v) == Net(old(ns.edges), v)
    ensures opt ==> ns.edges == old(ns.edges) && data.vertices == old(data.vertices)
    ensures opt ==> forall j :: 0 <= j < |order| ==> Quiet(ns.edges, data.vertices, order[j])
    ensures !opt ==> !NoneEligible(old(ns.edges), old(data.vertices))
  {
    opt := true;
    for i := 0 to |order|
      invariant Ready(ns, data)
      invariant ns.balances == old(ns.balances) && SameShape(old(ns.edges), ns.edges)
      invariant forall v :: Net(ns.edges, v) == Net(old(ns.edges), v)
      invariant opt ==> ns.edges == old(ns.edges) && data.vertices == old(data.vertices)
      invariant opt ==> forall j :: 0 <= j < i ==> Quiet(ns.edges, data.vertices, order[j])
      invariant !opt ==> !NoneEligible(old(ns.edges), old(data.vertices))
    {
      ghost var e1 := ns.edges;
      var pivoted := Consider(ns, data, order[i]);
      SameShapeTrans(old(ns.edges), e1, ns.edges);
      if pivoted {
        opt := false;
      }
    }
  }

  /**
    `dfs_lca_pivot`: bucket the pairs by the walk, then consider them
    bucket by bucket from the deepest.  The result is `true` exactly when no
    edge was eligible at the start, and then nothing was changed; otherwise
    the round has pivoted, keeping the tree consistent and the net flow of
    every vertex.
  */
  method DfsLcaPivot(ns: NetworkSimplex, data: TemporaryData) returns (opt: bool)
    requires Ready(ns, data)
    modifies ns, data`vertices
    ensures Ready(ns, data)
    ensures ns.balances == old(ns.balances) && SameShape(old(ns.edges), ns.edges)
    ensures forall v :: Net(ns.edges, v) == Net(old(ns.edges), v)
    ensures opt <==> NoneEligible(old(ns.edges), old(data.vertices))
    ensures opt ==> ns.edges == old(ns.edges) && data.vertices == old(data.vertices)
  {
    var buckets := Bucket(ns, data);
    var order := FlattenRev(buckets);
    opt := PivotAll(ns, data, order);
    if opt {
      QuietCover(ns.edges, data.vertices, order);
    }
  }

  /**
    `run` of `dfs_lca_network_simplex.rs`: prepare the artificial star,
    repeat `dfs_lca_pivot` until a round reports optimality (at most `fuel`
    rounds), then split off the artificial pairs as the shared `Finish`
    does.  A `Some` result solves the caller's problem; the ghost `pivoted`
    is the edge store when the rounds stop, and the result is `None`
    exactly when one of its artificial edges carries flow.  `PrepareData`
    also sets the block-search fields, which nothing here reads.
  */
  method Run(ns: NetworkSimplex, fuel: nat) returns (outcome: RunOutcome, ghost pivoted: seq<Edge>)
    requires ns.Valid()
    modifies ns
    ensures ns.Valid()
    ensures outcome.Done? ==>
      SameShape(old(ns.edges), ns.edges) && ns.balances == seq(VertexBound(|old(ns.balances)|, old(ns.edges)), _ => 0)
    ensures outcome.Done? ==>
      SameShape(Star(old(ns.edges), old(ns.balances)), pivoted) && ns.edges == pivoted[..|old(ns.edges)|] &&
      forall v: nat :: Net(pivoted, v) == Net(Star(old(ns.edges), old(ns.balances)), v)
    ensures outcome.Done? ==> (outcome.result.None? <==> exists i :: |old(ns.edges)| <= i < |pivoted| && pivoted[i].flow != 0)
    ensures outcome.Done? && outcome.result.Some? ==> Solves(old(ns.edges), old(ns.balances), ns.edges, outcome.result.value)
  {
    ghost var e0, b0 := ns.edges, ns.balances;
    var data := ns.PrepareData(0);
    ghost var e1, bal1, vs1, root := ns.edges, ns.balances, data.vertices, data.root;
    PreparedReady(e0, b0, e1, bal1, vs1, root);
    var finished := Rounds(ns, data, fuel);
    pivoted := ns.edges;
    if !finished {
      return OutOfFuel, pivoted;
    }
    var result := ns.Conclude(data, e0, b0, e1, bal1, vs1);
    return RunOutcome.Done(result), pivoted;
  }

  /**
    The loop of `run`: call `dfs_lca_pivot` until it reports optimality (at
    most `fuel` rounds).  `true` means no edge is eligible any more.
  */
  method Rounds(ns: NetworkSimplex, data: TemporaryData, fuel: nat) returns (finished: bool)
    requires Ready(ns, data)
    modifies ns, data`vertices
    ensures Ready(ns, data) && ns.balances == old(ns.balances) && SameShape(old(ns.edges), ns.edges)
    ensures forall v: nat :: Net(ns.edges, v) == Net(old(ns.edges), v)
    ensures |data.vertices| == old(|data.vertices|)
    ensures finished ==> NoneEligible(ns.edges, data.vertices)
  {
    var left := fuel;
    var opt := false;
    while !opt
      invariant Ready(ns, data) && ns.balances == old(ns.balances) && SameShape(old(ns.edges), ns.edges)
      invariant forall v: nat :: Net(ns.edges, v) == Net(old(ns.edges), v)
      invariant |data.vertices| == old(|data.vertices|)
      invariant opt ==> NoneEligible(ns.edges, data.vertices)
      decreases left
    {
      if left == 0 {
        return false;
      }
      ghost var before := ns.edges;
      opt := DfsLcaPivot(ns, data);
      SameShapeTrans(old(ns.edges), before, ns.edges);
      left := left - 1;
    }
    return true;
  }

  /**
    The source's unit test run with this solver: a `Some` result has the
    value `-2` and the flows `1, 0, 3, 3, 0`; the potentials, offset by
    vertex 0's, are `0` for vertex 0, `-1` for vertex 2 and between `-3`
    and `-1` for vertex 1.
  */
  method Example(fuel: nat) returns (value: Option<int>, flow: seq<int>, potential: seq<int>)
    ensures value.Some? ==> value.value == -2 && flow == [1, 0, 3, 3, 0]
    ensures value.Some? ==> |potential| == 3 && potential[0] == 0 && potential[2] == -1 && -3 <= potential[1] <= -1
    ensures value.None? ==> flow == [] && potential == []
  {
    var ns := ExampleNetwork();
    var outcome, pivoted := Run(ns, fuel);
    value, flow, potential := None, [], [];
    if outcome.Done? && outcome.result.Some? {
      var ret := outcome.result.value;
      ExampleValue(ns.edges, ret);
      value := Some(GetValue(ret));
      flow := [GetFlow(ret, 0), GetFlow(ret, 2), GetFlow(ret, 4), GetFlow(ret, 6), GetFlow(ret, 8)];
      var offset := GetPotential(ret, 0);
      potential := [0, GetPotential(ret, 1) - offset, GetPotential(ret, 2) - offset];
    }
  }
}
