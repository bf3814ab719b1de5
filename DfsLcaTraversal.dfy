/**
  The bucketing traversal of `dfs_lca_pivot`, stated on values.  An
  explicit stack of `Pre(v)` (enter `v`) and `Post(v)` (leave `v`) entries
  walks the spanning tree depth first; the `depth` counter is the number of
  `Post` entries on the stack.  Each vertex is unseen, on the stack once, or
  closed.  On leaving `v`, every edge out of `v` whose head is already
  closed is put into a bucket, and so is the first edge of each self-loop
  pair at `v`; then `v` is closed.  `Traversal` is the invariant of the
  stack walk and `Tally` the invariant of the buckets: each edge pair whose
  two ends are closed has had exactly one of its edges put into a bucket.
*/
module DfsLcaTraversal {
  import opened Wrappers
  import opened SimplexEdges
  import opened SimplexTree
  import opened SimplexSelect

  /** An entry of the traversal stack. */
  datatype State = Pre(v: nat) | Post(v: nat)

  /** The entries `Pre(u)` for the vertices `us`, in order. */
  function PreAll(us: seq<nat>): (r: seq<State>)
    ensures |r| == |us| && forall i :: 0 <= i < |us| ==> r[i] == Pre(us[i])
  {
    if us == [] then [] else PreAll(us[..|us| - 1]) + [Pre(us[|us| - 1])]
  }

  /** Pushing one more `Pre` entry. */
  lemma PreAllSnoc(us: seq<nat>, u: nat)
    ensures PreAll(us + [u]) == PreAll(us) + [Pre(u)]
  {
    assert (us + [u])[..|us|] == us;
  }

  /** The `depth` counter of the traversal: the number of `Post` entries. */
  function CountPost(stack: seq<State>): (r: nat)
    ensures r <= |stack|
  {
    if stack == [] then 0
    else CountPost(stack[..|stack| - 1]) + (if stack[|stack| - 1].Post? then 1 else 0)
  }

  /** Two units for each `Pre` entry and one for each `Post` entry: what each step of the walk reduces. */
  function Weight(stack: seq<State>): nat
  {
    if stack == [] then 0
    else Weight(stack[..|stack| - 1]) + (if stack[|stack| - 1].Pre? then 2 else 1)
  }

  lemma {:induction false} CountsAppend(a: seq<State>, b: seq<State>)
    ensures CountPost(a + b) == CountPost(a) + CountPost(b)
    ensures Weight(a + b) == Weight(a) + Weight(b)
    decreases |b|
  {
    if b == [] {
      assert a + b == a;
    } else {
      var m := |b| - 1;
      assert (a + b)[..|a| + m] == a + b[..m];
      CountsAppend(a, b[..m]);
    }
  }

  lemma {:induction false} CountsPreAll(us: seq<nat>)
    ensures CountPost(PreAll(us)) == 0 && Weight(PreAll(us)) == 2 * |us|
    decreases |us|
  {
    if us != [] {
      var m := |us| - 1;
      assert PreAll(us)[..m] == PreAll(us[..m]);
      CountsPreAll(us[..m]);
    }
  }

  /** The elements of `s` as a set. */
  ghost function Elements(s: seq<nat>): (r: set<nat>)
    ensures forall x :: x in r <==> x in s
  {
    if s == [] then {} else Elements(s[..|s| - 1]) + {s[|s| - 1]}
  }

  /** A set of distinct elements below `n` has at most `n` elements. */
  lemma {:induction false} SetBound(xs: set<nat>, n: nat)
    requires forall x :: x in xs ==> x < n
    ensures |xs| <= n
    decreases n
  {
    if n > 0 {
      SetBound(xs - {n - 1}, n - 1);
    } else {
      assert xs == {};
    }
  }

  /** A sequence of distinct elements has as many elements as its set. */
  lemma {:induction false} DistinctElements(s: seq<nat>)
    requires Distinct(s)
    ensures |Elements(s)| == |s|
    decreases |s|
  {
    if s != [] {
      var m := |s| - 1;
      assert Distinct(s[..m]);
      DistinctElements(s[..m]);
      assert s[m] !in s[..m];
      assert Elements(s[..m]) == Elements(s) - {s[m]};
    }
  }

  /** The set `{0, ..., n - 1}` has `n` elements. */
  lemma {:induction false} RangeCard(xs: set<nat>, n: nat)
    requires forall x: nat :: x in xs <==> x < n
    ensures |xs| == n
    decreases n
  {
    if n > 0 {
      RangeCard(xs - {n - 1}, n - 1);
    } else {
      assert xs == {};
    }
  }

  /** The vertices of the stack entries. */
  function Vertices(stack: seq<State>): (r: seq<nat>)
    ensures |r| == |stack| && forall i :: 0 <= i < |stack| ==> r[i] == stack[i].v
  {
    if stack == [] then [] else Vertices(stack[..|stack| - 1]) + [stack[|stack| - 1].v]
  }

  /** `u` is a child of `v` in the spanning tree. */
  ghost predicate IsChild(vs: seq<VertexData>, root: nat, v: nat, u: nat)
  {
    u < |vs| && u != root && Par(vs, u) == v
  }

  /** The tree edge from the parent of `u` down to `u`. */
  ghost function ChildEdge(vs: seq<VertexData>, root: nat, u: nat): nat
    requires ParentChain(vs, root) && u < |vs| && u != root
  {
    Rev(PE(vs, root, u))
  }

  /**
    A tree edge leaving `v` goes to `v`'s parent or to a child of `v`, and
    it is the parent-side edge of that child; `pre` in `dfs_lca_pivot` pushes
    its head exactly in the second case.
  */
  lemma TreeEdgeChild(edges: seq<Edge>, vs: seq<VertexData>, root: nat, v: nat, eid: nat)
    requires TreeOk(edges, vs, root) && v < |vs| && eid in vs[v].treeEdges
    ensures eid < |edges| && edges[eid].src == v && edges[eid].dst < |vs|
    ensures vs[v].parent != Some(edges[eid].dst) <==> IsChild(vs, root, v, edges[eid].dst)
    ensures IsChild(vs, root, v, edges[eid].dst) ==> eid == ChildEdge(vs, root, edges[eid].dst)
  {
    assert TreeEdgeOk(edges, vs, Parents(vs), ParentEdges(vs), v, eid);
    var w := edges[eid].dst;
    if vs[w].parent == Some(v) {
      var p := Par(vs, w);
      RevRev(eid);
      if v != root {
        var q := Par(vs, v);
      }
    } else {
      assert vs[v].parent == Some(w);
      var q := Par(vs, v);
      if w != root {
        var p := Par(vs, w);
      }
    }
  }

  /** Every child of `v` hangs from a tree edge leaving `v`. */
  lemma ChildEdgeIn(edges: seq<Edge>, vs: seq<VertexData>, root: nat, v: nat, u: nat)
    requires TreeOk(edges, vs, root) && IsChild(vs, root, v, u)
    ensures ChildEdge(vs, root, u) in vs[v].treeEdges
  {
    assert ChildOk(edges, vs, Parents(vs), ParentEdges(vs), u);
    var p := Par(vs, u);
  }

  /** The tree edge down to a child `u` of `v` leaves `v` and enters `u`. */
  lemma ChildEdgeEnds(edges: seq<Edge>, vs: seq<VertexData>, root: nat, v: nat, u: nat)
    requires TreeOk(edges, vs, root) && IsChild(vs, root, v, u)
    ensures ChildEdge(vs, root, u) < |edges|
    ensures edges[ChildEdge(vs, root, u)].src == v && edges[ChildEdge(vs, root, u)].dst == u
  {
    assert ChildOk(edges, vs, Parents(vs), ParentEdges(vs), u);
    var p := Par(vs, u);
    assert PairedAt(edges, PE(vs, root, u));
  }

  /** Where a vertex stands in the walk: not reached, entered as `Pre`, entered as `Post`, or closed. */
  datatype Status = Unseen | Pending | Open | Done

  /** The unseen vertices. */
  ghost function Unseens(status: seq<Status>): (r: set<nat>)
    ensures forall u: nat :: u in r <==> u < |status| && status[u] == Unseen
  {
    set u: nat | u < |status| && status[u] == Unseen
  }

  /**
    The shape of the stack.  `pos` gives the stack position of every
    vertex on it: each entry's vertex is pending if the entry is `Pre` and
    open if it is `Post`, and every pending or open vertex is on the stack
    at its position, so no vertex is on it twice.  The bottom entry is the
    root's, and a `Post` entry as soon as anything lies above it; the root
    is closed only once the stack is empty.
  */
  ghost predicate Layout(n: nat, root: nat, stack: seq<State>, status: seq<Status>, pos: seq<nat>)
  {
    |status| == n && |pos| == n && root < n &&
    (forall i :: 0 <= i < |stack| ==>
      stack[i].v < n && pos[stack[i].v] == i && status[stack[i].v] == (if stack[i].Pre? then Pending else Open)) &&
    (forall u :: 0 <= u < n && (status[u] == Pending || status[u] == Open) ==> pos[u] < |stack| && stack[pos[u]].v == u) &&
    status[root] != Unseen && (stack != [] ==> stack[0].v == root) && (|stack| >= 2 ==> stack[0] == Post(root)) &&
    (status[root] == Done ==> stack == [])
  }

  /**
    A vertex other than the root and not a child of `v` is unseen exactly
    when its parent is unseen or not yet entered; the children of `v` are
    unseen or pending.  With `v` outside the tree this is the invariant of
    the walk between two steps; with `v` the vertex being entered it holds
    while `v`'s children are pushed.
  */
  ghost predicate FrontierBut(vs: seq<VertexData>, root: nat, status: seq<Status>, v: int)
  {
    |status| == |vs| &&
    forall u {:trigger Par(vs, u)} :: 0 <= u < |vs| && u != root ==>
      Par(vs, u) < |vs| &&
      (Par(vs, u) != v ==> (status[u] == Unseen <==> status[Par(vs, u)] == Unseen || status[Par(vs, u)] == Pending)) &&
      (Par(vs, u) == v ==> status[u] == Unseen || status[u] == Pending)
  }

  /** The invariant of the stack walk over the tree of `vs`. */
  ghost predicate Traversal(vs: seq<VertexData>, root: nat, stack: seq<State>, status: seq<Status>, pos: seq<nat>)
  {
    ParentChain(vs, root) && Layout(|vs|, root, stack, status, pos) && FrontierBut(vs, root, status, -1)
  }

  /** The statuses when the walk starts: the root pending, every other vertex unseen. */
  ghost function StartStatus(n: nat, root: nat): (r: seq<Status>)
    ensures |r| == n && forall u :: 0 <= u < n ==> r[u] == if u == root then Pending else Unseen
  {
    seq(n, u => if u == root then Pending else Unseen)
  }

  /** The walk starts with only the root on the stack. */
  lemma {:induction false} TraversalStart(vs: seq<VertexData>, root: nat)
    requires ParentChain(vs, root)
    ensures Traversal(vs, root, [Pre(root)], StartStatus(|vs|, root), seq(|vs|, _ => 0))
  {
    var status := StartStatus(|vs|, root);
    forall u | 0 <= u < |vs| && u != root
      ensures Par(vs, u) < |vs| && (status[u] == Unseen <==> status[Par(vs, u)] == Unseen || status[Par(vs, u)] == Pending)
    {
      var p := Par(vs, u);
    }
  }

  /** The stack holds distinct vertices below `n`, so no more than `n` entries. */
  lemma {:induction false} StackBound(n: nat, root: nat, stack: seq<State>, status: seq<Status>, pos: seq<nat>)
    requires Layout(n, root, stack, status, pos)
    ensures |stack| <= n
  {
    var vs := Vertices(stack);
    forall i, j | 0 <= i < j < |vs|
      ensures vs[i] != vs[j]
    {
      assert pos[stack[i].v] == i && pos[stack[j].v] == j;
    }
    DistinctBound(vs, n);
  }

  /** Distinct elements below `n` are no more than `n`. */
  lemma {:induction false} DistinctBound(s: seq<nat>, n: nat)
    requires Distinct(s) && forall i :: 0 <= i < |s| ==> s[i] < n
    ensures |s| <= n
  {
    DistinctElements(s);
    SetBound(Elements(s), n);
  }

  /** Entering `v`: its `Pre` entry on top becomes a `Post` entry, and `v` is open. */
  lemma {:induction false} EnterLayout(n: nat, root: nat, stack0: seq<State>, v: nat, status: seq<Status>, pos: seq<nat>)
    requires Layout(n, root, stack0 + [Pre(v)], status, pos)
    ensures v < n && status[v] == Pending
    ensures Layout(n, root, stack0 + [Post(v)], status[v := Open], pos)
  {
    var s0 := stack0 + [Pre(v)];
    var s1 := stack0 + [Post(v)];
    assert s0[|stack0|] == Pre(v);
    assert forall i :: 0 <= i < |stack0| ==> s1[i] == s0[i];
    if |s1| >= 2 {
      assert s1[0] == s0[0];
    }
  }

  /** Pushing the unseen vertex `u` as pending. */
  lemma {:induction false} PushLayout(n: nat, root: nat, stack: seq<State>, u: nat, status: seq<Status>, pos: seq<nat>)
    requires Layout(n, root, stack, status, pos) && stack != [] && stack[0].Post?
    requires u < n && status[u] == Unseen
    ensures Layout(n, root, stack + [Pre(u)], status[u := Pending], pos[u := |stack|])
  {
    var s1 := stack + [Pre(u)];
    assert forall i :: 0 <= i < |stack| ==> s1[i] == stack[i];
    assert s1[|stack|] == Pre(u);
  }

  /** Leaving the open vertex `v` on top of the stack: its entry goes and `v` is closed. */
  lemma {:induction false} LeaveLayout(n: nat, root: nat, stack0: seq<State>, v: nat, status: seq<Status>, pos: seq<nat>)
    requires Layout(n, root, stack0 + [Post(v)], status, pos)
    ensures v < n && status[v] == Open && status[root] != Done && |stack0| < n
    ensures v != root ==> stack0 != [] && stack0[0] == Post(root)
    ensures v == root ==> stack0 == []
    ensures Layout(n, root, stack0, status[v := Done], pos)
  {
    var s0 := stack0 + [Post(v)];
    assert s0[|stack0|] == Post(v);
    assert forall i :: 0 <= i < |stack0| ==> s0[i] == stack0[i];
    StackBound(n, root, s0, status, pos);
    if stack0 != [] {
      assert s0[0] == stack0[0];
    }
  }

  /** A `Post` entry at the bottom of the stack keeps the counter positive. */
  lemma CountBottom(stack: seq<State>)
    requires stack != [] && stack[0].Post?
    ensures CountPost(stack) >= 1
  {
    CountsAppend([stack[0]], stack[1..]);
    assert [stack[0]] + stack[1..] == stack;
    assert CountPost([stack[0]]) == 1;
  }

  /** The counter and the weight after one more entry on top. */
  lemma CountsSnoc(stack: seq<State>, s: State)
    ensures CountPost(stack + [s]) == CountPost(stack) + (if s.Post? then 1 else 0)
    ensures Weight(stack + [s]) == Weight(stack) + (if s.Pre? then 2 else 1)
  {
    assert (stack + [s])[..|stack|] == stack;
  }

  /** Entering the pending vertex `v`: its children are unseen, and the frontier holds but for them. */
  lemma {:induction false} EnterFrontier(vs: seq<VertexData>, root: nat, v: nat, status: seq<Status>)
    requires FrontierBut(vs, root, status, -1) && v < |vs| && status[v] == Pending
    ensures forall u: nat :: IsChild(vs, root, v, u) ==> status[u] == Unseen
    ensures FrontierBut(vs, root, status[v := Open], v)
    ensures Unseens(status[v := Open]) == Unseens(status)
  {
    forall u: nat | IsChild(vs, root, v, u)
      ensures status[u] == Unseen
    {
      var p := Par(vs, u);
    }
    var s' := status[v := Open];
    forall u {:trigger Par(vs, u)} | 0 <= u < |vs| && u != root
      ensures Par(vs, u) < |vs| &&
        (Par(vs, u) != v ==> (s'[u] == Unseen <==> s'[Par(vs, u)] == Unseen || s'[Par(vs, u)] == Pending)) &&
        (Par(vs, u) == v ==> s'[u] == Unseen || s'[u] == Pending)
    {
      var p := Par(vs, u);
    }
  }

  /** Pushing an unseen child of the vertex being entered keeps the frontier, and one vertex fewer is unseen. */
  lemma {:induction false} PushFrontier(vs: seq<VertexData>, root: nat, v: nat, u: nat, status: seq<Status>)
    requires FrontierBut(vs, root, status, v) && IsChild(vs, root, v, u) && status[u] == Unseen
    requires status[v] == Open
    ensures FrontierBut(vs, root, status[u := Pending], v)
    ensures Unseens(status[u := Pending]) < Unseens(status)
  {
    var s' := status[u := Pending];
    forall w {:trigger Par(vs, w)} | 0 <= w < |vs| && w != root
      ensures Par(vs, w) < |vs| &&
        (Par(vs, w) != v ==> (s'[w] == Unseen <==> s'[Par(vs, w)] == Unseen || s'[Par(vs, w)] == Pending)) &&
        (Par(vs, w) == v ==> s'[w] == Unseen || s'[w] == Pending)
    {
      var p := Par(vs, w);
      var q := Par(vs, u);
    }
    assert u in Unseens(status) && u !in Unseens(s');
  }

  /** Once every child of the vertex being entered is pending, the frontier holds again. */
  lemma {:induction false} CloseFrontier(vs: seq<VertexData>, root: nat, v: nat, status: seq<Status>)
    requires FrontierBut(vs, root, status, v) && v < |vs| && status[v] == Open
    requires forall u: nat :: IsChild(vs, root, v, u) ==> status[u] == Pending
    ensures FrontierBut(vs, root, status, -1)
  {
    forall u {:trigger Par(vs, u)} | 0 <= u < |vs| && u != root
      ensures Par(vs, u) < |vs| && (status[u] == Unseen <==> status[Par(vs, u)] == Unseen || status[Par(vs, u)] == Pending)
    {
      var p := Par(vs, u);
      if p == v {
        assert IsChild(vs, root, v, u);
      }
    }
  }

  /** Closing an open vertex keeps the frontier. */
  lemma {:induction false} LeaveFrontier(vs: seq<VertexData>, root: nat, v: nat, status: seq<Status>)
    requires FrontierBut(vs, root, status, -1) && v < |vs| && status[v] == Open
    ensures FrontierBut(vs, root, status[v := Done], -1) && Unseens(status[v := Done]) == Unseens(status)
  {
    var s' := status[v := Done];
    forall u {:trigger Par(vs, u)} | 0 <= u < |vs| && u != root
      ensures Par(vs, u) < |vs| && (s'[u] == Unseen <==> s'[Par(vs, u)] == Unseen || s'[Par(vs, u)] == Pending)
    {
      var p := Par(vs, u);
    }
  }

  /** Once the stack is empty, every vertex is closed. */
  lemma {:induction false} TraversalDone(vs: seq<VertexData>, root: nat, status: seq<Status>, pos: seq<nat>)
    requires Traversal(vs, root, [], status, pos)
    ensures forall u :: 0 <= u < |vs| ==> status[u] == Done
  {
    forall u | 0 <= u < |vs|
      ensures status[u] == Done
    {
      SeenAll(vs, root, status, pos, u);
    }
  }

  /** With nothing left on the stack, an unseen vertex would have an unseen root above it. */
  lemma {:induction false} SeenAll(vs: seq<VertexData>, root: nat, status: seq<Status>, pos: seq<nat>, u: nat)
    requires Traversal(vs, root, [], status, pos) && u < |vs|
    ensures status[u] != Unseen
    decreases vs[u].depth
  {
    if u != root {
      var p := Par(vs, u);
      SeenAll(vs, root, status, pos, p);
    }
  }

  /** The test of `post`: the head of `e` is closed, or `e` is the first edge of a self-loop pair. */
  ghost predicate Closing(edges: seq<Edge>, closed: seq<bool>, e: nat)
  {
    e < |edges| && edges[e].dst < |closed| &&
    (closed[edges[e].dst] || (edges[e].src == edges[e].dst && e < Rev(e)))
  }

  /** The edges of `ids` that `post` puts into a bucket, in order. */
  ghost function PushedBy(edges: seq<Edge>, closed: seq<bool>, ids: seq<nat>): (r: seq<nat>)
  {
    if ids == [] then []
    else PushedBy(edges, closed, ids[..|ids| - 1]) + (if Closing(edges, closed, ids[|ids| - 1]) then [ids[|ids| - 1]] else [])
  }

  /** Pushing is a filter: it keeps exactly the closing edges, in increasing order when `ids` is. */
  lemma {:induction false} PushedByFilter(edges: seq<Edge>, closed: seq<bool>, ids: seq<nat>)
    ensures forall e :: e in PushedBy(edges, closed, ids) <==> e in ids && Closing(edges, closed, e)
    decreases |ids|
  {
    if ids != [] {
      var m := |ids| - 1;
      PushedByFilter(edges, closed, ids[..m]);
      assert ids == ids[..m] + [ids[m]];
    }
  }

  /** Filtering a strictly increasing list keeps it strictly increasing. */
  lemma {:induction false} PushedBySorted(edges: seq<Edge>, closed: seq<bool>, ids: seq<nat>)
    requires forall i, j :: 0 <= i < j < |ids| ==> ids[i] < ids[j]
    ensures forall i, j :: 0 <= i < j < |PushedBy(edges, closed, ids)| ==> PushedBy(edges, closed, ids)[i] < PushedBy(edges, closed, ids)[j]
    decreases |ids|
  {
    if ids != [] {
      var m := |ids| - 1;
      var pre := ids[..m];
      PushedBySorted(edges, closed, pre);
      PushedByFilter(edges, closed, pre);
      var q := PushedBy(edges, closed, pre);
      forall k | 0 <= k < |q|
        ensures q[k] < ids[m]
      {
        assert q[k] in q;
        var i :| 0 <= i < m && pre[i] == q[k];
      }
    }
  }

  /** Scanning one more id of the adjacency list. */
  lemma PushedBySnoc(edges: seq<Edge>, closed: seq<bool>, ids: seq<nat>, k: nat)
    requires k < |ids|
    ensures PushedBy(edges, closed, ids[..k + 1]) ==
      PushedBy(edges, closed, ids[..k]) + (if Closing(edges, closed, ids[k]) then [ids[k]] else [])
  {
    assert ids[..k + 1][..k] == ids[..k];
  }

  /** The pair indices of the ids. */
  function Halves(ids: seq<nat>): (r: seq<nat>)
    ensures |r| == |ids| && forall j :: 0 <= j < |ids| ==> r[j] == ids[j] / 2
  {
    if ids == [] then [] else Halves(ids[..|ids| - 1]) + [ids[|ids| - 1] / 2]
  }

  lemma HalvesAppend(a: seq<nat>, b: seq<nat>)
    ensures Halves(a + b) == Halves(a) + Halves(b)
  {
  }

  /** Both ends of the pair `p` are closed. */
  ghost predicate Settled(edges: seq<Edge>, closed: seq<bool>, p: nat)
  {
    2 * p < |edges| && edges[2 * p].src < |closed| && edges[2 * p].dst < |closed| &&
    closed[edges[2 * p].src] && closed[edges[2 * p].dst]
  }

  /** The bucket invariant: the pushed ids name distinct pairs, and exactly the settled ones. */
  ghost predicate Tally(edges: seq<Edge>, closed: seq<bool>, ids: seq<nat>)
  {
    (forall j :: 0 <= j < |ids| ==> ids[j] < |edges|) && Distinct(Halves(ids)) &&
    forall p :: 0 <= p < |edges| / 2 ==> (p in Halves(ids) <==> Settled(edges, closed, p))
  }

  /** Nothing is settled before any vertex is closed. */
  lemma TallyStart(edges: seq<Edge>, closed: seq<bool>)
    requires forall u :: 0 <= u < |closed| ==> !closed[u]
    ensures Tally(edges, closed, [])
  {
  }

  /** The id of the pair `p` that leaves `v`, when `v` is one of its ends. */
  lemma PairAt(edges: seq<Edge>, p: nat, v: nat) returns (e: nat)
    requires Paired(edges) && 2 * p < |edges|
    requires edges[2 * p].src == v || edges[2 * p].dst == v
    ensures e / 2 == p && e < |edges| && edges[e].src == v
    ensures edges[e].dst == (if edges[2 * p].src == v then edges[2 * p].dst else edges[2 * p].src)
    ensures edges[2 * p].src == v ==> e == 2 * p
  {
    assert PairedAt(edges, 2 * p);
    if edges[2 * p].src == v {
      e := 2 * p;
    } else {
      e := Rev(2 * p);
    }
  }

  /** The pair of an edge is one of the `|edges| / 2` pairs. */
  lemma HalfBelow(edges: seq<Edge>, e: nat)
    requires Paired(edges) && e < |edges|
    ensures e / 2 < |edges| / 2
  {
    assert PairedAt(edges, e);
  }

  /** An id `post` pushes at `v` settles its pair, which was unsettled. */
  lemma ClosingSettles(edges: seq<Edge>, closed: seq<bool>, v: nat, e: nat)
    requires Paired(edges) && EndpointsBelow(edges, |closed|) && v < |closed| && !closed[v]
    requires e < |edges| && edges[e].src == v && Closing(edges, closed, e)
    ensures !Settled(edges, closed, e / 2) && Settled(edges, closed[v := true], e / 2)
  {
    assert PairedAt(edges, e);
    assert e == 2 * (e / 2) || Rev(e) == 2 * (e / 2);
  }

  /** A pair that closing `v` settles has an id out of `v` that `post` pushes. */
  lemma SettlingCloses(edges: seq<Edge>, closed: seq<bool>, v: nat, p: nat) returns (e: nat)
    requires Paired(edges) && EndpointsBelow(edges, |closed|) && v < |closed|
    requires Settled(edges, closed[v := true], p) && !Settled(edges, closed, p)
    ensures e < |edges| && e / 2 == p && edges[e].src == v && Closing(edges, closed, e)
  {
    e := PairAt(edges, p, v);
    assert PairedAt(edges, 2 * p);
  }

  /** Two ids out of `v` that `post` pushes are of different pairs: a self-loop pair gives only its first id. */
  lemma DistinctPairs(edges: seq<Edge>, closed: seq<bool>, v: nat, a: nat, b: nat)
    requires Paired(edges) && v < |closed| && !closed[v] && a < b < |edges|
    requires edges[a].src == v && edges[b].src == v && Closing(edges, closed, a) && Closing(edges, closed, b)
    ensures a / 2 != b / 2
  {
    assert PairedAt(edges, a);
  }

  /** No two ids `post` pushes at `v` share a pair. */
  lemma {:induction false} PushedHalvesDistinct(edges: seq<Edge>, closed: seq<bool>, v: nat, out: seq<nat>)
    requires Paired(edges) && EndpointsBelow(edges, |closed|) && v < |closed| && !closed[v]
    requires forall i, j :: 0 <= i < j < |out| ==> out[i] < out[j]
    requires forall e: nat :: e in out ==> e < |edges| && edges[e].src == v
    ensures Distinct(Halves(PushedBy(edges, closed, out)))
  {
    var pushed := PushedBy(edges, closed, out);
    PushedByFilter(edges, closed, out);
    PushedBySorted(edges, closed, out);
    var hn := Halves(pushed);
    forall i, j | 0 <= i < j < |pushed|
      ensures hn[i] != hn[j]
    {
      assert pushed[i] in pushed && pushed[j] in pushed;
      DistinctPairs(edges, closed, v, pushed[i], pushed[j]);
    }
  }

  lemma {:induction false} DistinctAppend(a: seq<nat>, b: seq<nat>)
    requires Distinct(a) && Distinct(b) && forall i, j :: 0 <= i < |a| && 0 <= j < |b| ==> a[i] != b[j]
    ensures Distinct(a + b)
  {
    forall i, j | 0 <= i < j < |a + b|
      ensures (a + b)[i] != (a + b)[j]
    {
      if i < |a| && j >= |a| {
        assert (a + b)[j] == b[j - |a|];
      } else if i >= |a| {
        assert (a + b)[i] == b[i - |a|] && (a + b)[j] == b[j - |a|];
      }
    }
  }

  /**
    Leaving `v` keeps the bucket invariant: the edges out of `v` that `post`
    pushes settle exactly the pairs between `v` and a closed vertex and the
    self-loop pairs at `v`, one push per pair.
  */
  lemma {:induction false} PostTally(edges: seq<Edge>, closed: seq<bool>, ids: seq<nat>, v: nat, out: seq<nat>)
    requires Paired(edges) && EndpointsBelow(edges, |closed|) && v < |closed| && !closed[v]
    requires Tally(edges, closed, ids)
    requires forall i, j :: 0 <= i < j < |out| ==> out[i] < out[j]
    requires forall e: nat :: e in out <==> e < |edges| && edges[e].src == v
    ensures Tally(edges, closed[v := true], ids + PushedBy(edges, closed, out))
  {
    var pushed := PushedBy(edges, closed, out);
    PushedSettle(edges, closed, v, out);
    PushedHalvesDistinct(edges, closed, v, out);
    HalvesAppend(ids, pushed);
    TallyFresh(edges, closed, ids, pushed);
    PostSettled(edges, closed, ids, v, out);
    var all := ids + pushed;
    assert forall j :: 0 <= j < |all| ==> all[j] < |edges| by {
      forall j | 0 <= j < |all|
        ensures all[j] < |edges|
      {
        if j >= |ids| {
          assert all[j] == pushed[j - |ids|];
        }
      }
    }
  }

  /** Every id pushed on leaving `v` settles a pair that was unsettled. */
  lemma {:induction false} PushedSettle(edges: seq<Edge>, closed: seq<bool>, v: nat, out: seq<nat>)
    requires Paired(edges) && EndpointsBelow(edges, |closed|) && v < |closed| && !closed[v]
    requires forall e: nat :: e in out ==> e < |edges| && edges[e].src == v
    ensures forall j :: 0 <= j < |PushedBy(edges, closed, out)| ==> PushedBy(edges, closed, out)[j] < |edges|
    ensures forall j :: 0 <= j < |PushedBy(edges, closed, out)| ==> !Settled(edges, closed, PushedBy(edges, closed, out)[j] / 2)
    ensures forall j :: 0 <= j < |PushedBy(edges, closed, out)| ==> Settled(edges, closed[v := true], PushedBy(edges, closed, out)[j] / 2)
  {
    var pushed := PushedBy(edges, closed, out);
    PushedByFilter(edges, closed, out);
    forall j | 0 <= j < |pushed|
      ensures pushed[j] < |edges| && !Settled(edges, closed, pushed[j] / 2) && Settled(edges, closed[v := true], pushed[j] / 2)
    {
      assert pushed[j] in pushed;
      ClosingSettles(edges, closed, v, pushed[j]);
    }
  }

  /** Ids of distinct, unsettled pairs extend the ids of the settled pairs without repeating a pair. */
  lemma {:induction false} TallyFresh(edges: seq<Edge>, closed: seq<bool>, ids: seq<nat>, pushed: seq<nat>)
    requires Paired(edges) && Tally(edges, closed, ids) && Distinct(Halves(pushed))
    requires forall j :: 0 <= j < |pushed| ==> !Settled(edges, closed, pushed[j] / 2)
    ensures Distinct(Halves(ids) + Halves(pushed))
  {
    var hs, hn := Halves(ids), Halves(pushed);
    forall i, j | 0 <= i < |hs| && 0 <= j < |hn|
      ensures hs[i] != hn[j]
    {
      HalfBelow(edges, ids[i]);
      assert hs[i] in hs;
      assert Settled(edges, closed, hs[i]);
    }
    DistinctAppend(hs, hn);
  }

  /** After leaving `v`, the pairs of the ids so far and of the pushed ids are exactly the settled pairs. */
  lemma {:induction false} PostSettled(edges: seq<Edge>, closed: seq<bool>, ids: seq<nat>, v: nat, out: seq<nat>)
    requires Paired(edges) && EndpointsBelow(edges, |closed|) && v < |closed| && !closed[v]
    requires Tally(edges, closed, ids)
    requires forall e: nat :: e in out <==> e < |edges| && edges[e].src == v
    requires forall j :: 0 <= j < |PushedBy(edges, closed, out)| ==> Settled(edges, closed[v := true], PushedBy(edges, closed, out)[j] / 2)
    ensures forall p :: 0 <= p < |edges| / 2 ==>
      (p in Halves(ids) + Halves(PushedBy(edges, closed, out)) <==> Settled(edges, closed[v := true], p))
  {
    var pushed := PushedBy(edges, closed, out);
    PushedByFilter(edges, closed, out);
    var hs, hn := Halves(ids), Halves(pushed);
    forall p | 0 <= p < |edges| / 2
      ensures p in hs + hn <==> Settled(edges, closed[v := true], p)
    {
      if Settled(edges, closed[v := true], p) && !Settled(edges, closed, p) {
        var e := SettlingCloses(edges, closed, v, p);
        assert e in pushed;
        var k :| 0 <= k < |pushed| && pushed[k] == e;
        assert hn[k] == p;
      }
      if p in hn {
        var k :| 0 <= k < |hn| && hn[k] == p;
      }
    }
  }

  /**
    At the end of the walk every vertex is closed, so each of the
    `|edges| / 2` pairs has exactly one pushed id: there are `|edges| / 2`
    of them, and every edge or its reverse is among them.
  */
  lemma TallyDone(edges: seq<Edge>, closed: seq<bool>, ids: seq<nat>)
    requires Tally(edges, closed, ids) && EndpointsBelow(edges, |closed|) && Paired(edges)
    requires forall u :: 0 <= u < |closed| ==> closed[u]
    ensures |ids| == |edges| / 2
    ensures forall k :: 0 <= k < |edges| ==> k in ids || Rev(k) in ids
  {
    TallyCount(edges, closed, ids);
    forall k | 0 <= k < |edges|
      ensures k in ids || Rev(k) in ids
    {
      TallyCovers(edges, closed, ids, k);
    }
  }

  /** With every pair settled, the distinct pairs of the ids are all `|edges| / 2` of them. */
  lemma {:induction false} TallyCount(edges: seq<Edge>, closed: seq<bool>, ids: seq<nat>)
    requires Tally(edges, closed, ids) && EndpointsBelow(edges, |closed|) && Paired(edges)
    requires forall u :: 0 <= u < |closed| ==> closed[u]
    ensures |ids| == |edges| / 2
  {
    var hs := Halves(ids);
    DistinctElements(hs);
    HalvesRange(edges, closed, ids);
    assert forall x: nat :: x in Elements(hs) <==> x < |edges| / 2;
    RangeCard(Elements(hs), |edges| / 2);
  }

  /** With every pair settled, the pairs of the ids are exactly the pairs below `|edges| / 2`. */
  lemma {:induction false} HalvesRange(edges: seq<Edge>, closed: seq<bool>, ids: seq<nat>)
    requires Tally(edges, closed, ids) && EndpointsBelow(edges, |closed|) && Paired(edges)
    requires forall u :: 0 <= u < |closed| ==> closed[u]
    ensures forall x: nat :: x in Halves(ids) <==> x < |edges| / 2
  {
    var hs := Halves(ids);
    forall x: nat
      ensures x in hs <==> x < |edges| / 2
    {
      if x < |edges| / 2 {
        assert Settled(edges, closed, x);
      }
      if x in hs {
        var j :| 0 <= j < |hs| && hs[j] == x;
        HalfBelow(edges, ids[j]);
      }
    }
  }

  /** With every pair settled, each edge or its reverse is among the ids. */
  lemma {:induction false} TallyCovers(edges: seq<Edge>, closed: seq<bool>, ids: seq<nat>, k: nat)
    requires Tally(edges, closed, ids) && EndpointsBelow(edges, |closed|) && Paired(edges)
    requires forall u :: 0 <= u < |closed| ==> closed[u]
    requires k < |edges|
    ensures k in ids || Rev(k) in ids
  {
    var hs := Halves(ids);
    var p := k / 2;
    HalfBelow(edges, k);
    assert PairedAt(edges, k);
    assert Settled(edges, closed, p);
    var j :| 0 <= j < |hs| && hs[j] == p;
    assert ids[j] == k || ids[j] == Rev(k);
  }

  /** The buckets in decreasing order of their index, each in push order: the order of the pivot loop. */
  function FlattenRev(buckets: seq<seq<nat>>): seq<nat>
  {
    if buckets == [] then [] else buckets[|buckets| - 1] + FlattenRev(buckets[..|buckets| - 1])
  }

  /** The sum of the bucket lengths, which `dfs_lca_pivot` checks against the number of pairs. */
  function SumLens(buckets: seq<seq<nat>>): nat
  {
    if buckets == [] then 0 else SumLens(buckets[..|buckets| - 1]) + |buckets[|buckets| - 1]|
  }

  lemma {:induction false} SumLensFlatten(buckets: seq<seq<nat>>)
    ensures SumLens(buckets) == |FlattenRev(buckets)|
    decreases |buckets|
  {
    if buckets != [] {
      SumLensFlatten(buckets[..|buckets| - 1]);
    }
  }

  /** Appending `e` to bucket `d` adds `e` once to the flattened buckets. */
  lemma {:induction false} FlattenRevPush(buckets: seq<seq<nat>>, d: nat, e: nat)
    requires d < |buckets|
    ensures multiset(FlattenRev(buckets[d := buckets[d] + [e]])) == multiset(FlattenRev(buckets)) + multiset{e}
    decreases |buckets|
  {
    var m := |buckets| - 1;
    var b' := buckets[d := buckets[d] + [e]];
    if d == m {
      assert b'[..m] == buckets[..m];
    } else {
      assert b'[..m] == buckets[..m][d := buckets[d] + [e]];
      FlattenRevPush(buckets[..m], d, e);
    }
  }

  /** Empty buckets flatten to nothing. */
  lemma {:induction false} FlattenRevEmpty(buckets: seq<seq<nat>>)
    requires forall i :: 0 <= i < |buckets| ==> buckets[i] == []
    ensures FlattenRev(buckets) == []
    decreases |buckets|
  {
    if buckets != [] {
      FlattenRevEmpty(buckets[..|buckets| - 1]);
    }
  }

  /** Neither `id` nor its reverse is eligible: what the pivot loop finds when it leaves the pair alone. */
  ghost predicate Quiet(edges: seq<Edge>, vs: seq<VertexData>, id: nat)
  {
    id < |edges| && Rev(id) < |edges| && EndpointsBelow(edges, |vs|) &&
    !Eligible(vs, edges[id]) && !Eligible(vs, edges[Rev(id)])
  }

  /** Quiet pairs covering every edge leave no edge eligible. */
  lemma {:induction false} QuietCover(edges: seq<Edge>, vs: seq<VertexData>, order: seq<nat>)
    requires EndpointsBelow(edges, |vs|)
    requires forall k :: 0 <= k < |edges| ==> k in order || Rev(k) in order
    requires forall j :: 0 <= j < |order| ==> Quiet(edges, vs, order[j])
    ensures forall i :: 0 <= i < |edges| ==> !Eligible(vs, edges[i])
  {
    forall i | 0 <= i < |edges|
      ensures !Eligible(vs, edges[i])
    {
      if i in order {
        var j :| 0 <= j < |order| && order[j] == i;
        assert Quiet(edges, vs, order[j]);
      } else {
        var j :| 0 <= j < |order| && order[j] == Rev(i);
        assert Quiet(edges, vs, order[j]);
        RevRev(i);
      }
    }
  }
}
