/**
  Pushing flow around the cycle of a pivot.  `PushAll(edges, ids, f)` is the
  edge store after `add_flow(x, f)` for every `x` of `ids` in order; `Delta`
  counts how often an edge is pushed along (and its reverse withdrawn), and
  `Through` is the net number of those edges leaving a vertex.  The cycle of
  a pivot is the tree path from the entering edge's source up to the apex,
  walked downwards, then the entering edge, then the tree path from its
  destination up to the apex: every vertex is left as often as it is
  entered, and no pair of stored edges occurs twice.
*/
module SimplexCycle {
  import opened Wrappers
  import opened SimplexEdges
  import opened SimplexTree

  ghost predicate IdsIn(edges: seq<Edge>, ids: seq<nat>)
  {
    forall k :: 0 <= k < |ids| ==> ids[k] < |edges| && Rev(ids[k]) < |edges|
  }

  /** The edges after `add_flow(x, f)` for every `x` of `ids`, in order. */
  ghost function PushAll(edges: seq<Edge>, ids: seq<nat>, f: int): (r: seq<Edge>)
    requires IdsIn(edges, ids)
    ensures |r| == |edges|
    decreases |ids|
  {
    if ids == [] then edges
    else
      var k := |ids| - 1;
      assert IdsIn(edges, ids[..k]);
      AddFlowTo(PushAll(edges, ids[..k], f), ids[k], f)
  }

  /** How often `x` is pushed along, minus how often its reverse is. */
  ghost function Delta(ids: seq<nat>, x: nat): int
    decreases |ids|
  {
    if ids == [] then 0
    else
      var k := |ids| - 1;
      Delta(ids[..k], x) + (if ids[k] == x then 1 else 0) - (if Rev(ids[k]) == x then 1 else 0)
  }

  /** Net number of the edges of `ids` leaving `v`. */
  ghost function Through(edges: seq<Edge>, ids: seq<nat>, v: nat): int
    requires forall k :: 0 <= k < |ids| ==> ids[k] < |edges|
    decreases |ids|
  {
    if ids == [] then 0
    else
      var k := |ids| - 1;
      Through(edges, ids[..k], v) + (if edges[ids[k]].src == v then 1 else 0) - (if edges[ids[k]].dst == v then 1 else 0)
  }

  lemma Shift(f: int, d: int, up: bool, down: bool)
    ensures f * (d + (if up then 1 else 0) - (if down then 1 else 0)) == f * d + (if up then f else 0) - (if down then f else 0)
  {
    if up && !down {
      assert f * (d + 1) == f * d + f;
    } else if down && !up {
      assert f * (d - 1) == f * d - f;
    }
  }

  /** Every edge gains `f` for each push along it and loses `f` for each push along its reverse. */
  lemma {:induction false} PushAllAt(edges: seq<Edge>, ids: seq<nat>, f: int, x: nat)
    requires IdsIn(edges, ids) && x < |edges|
    ensures PushAll(edges, ids, f)[x] == edges[x].(flow := edges[x].flow + f * Delta(ids, x))
    decreases |ids|
  {
    if ids != [] {
      var k := |ids| - 1;
      assert IdsIn(edges, ids[..k]);
      PushAllAt(edges, ids[..k], f, x);
      Shift(f, Delta(ids[..k], x), ids[k] == x, Rev(ids[k]) == x);
    }
  }

  lemma {:induction false} DeltaRev(ids: seq<nat>, x: nat)
    ensures Delta(ids, Rev(x)) == -Delta(ids, x)
    decreases |ids|
  {
    if ids != [] {
      DeltaRev(ids[..|ids| - 1], x);
      RevRev(x);
      RevRev(ids[|ids| - 1]);
    }
  }

  lemma PushAllShape(edges: seq<Edge>, ids: seq<nat>, f: int)
    requires IdsIn(edges, ids)
    ensures SameShape(edges, PushAll(edges, ids, f))
  {
    forall x | 0 <= x < |edges|
      ensures PushAll(edges, ids, f)[x] == edges[x].(flow := edges[x].flow + f * Delta(ids, x))
    {
      PushAllAt(edges, ids, f, x);
    }
  }

  /** Pushing keeps every pair mirrored. */
  lemma PushAllPaired(edges: seq<Edge>, ids: seq<nat>, f: int)
    requires Paired(edges) && IdsIn(edges, ids)
    ensures Paired(PushAll(edges, ids, f))
  {
    var r := PushAll(edges, ids, f);
    forall x | 0 <= x < |r|
      ensures PairedAt(r, x)
    {
      assert PairedAt(edges, x);
      PushAllAt(edges, ids, f, x);
      PushAllAt(edges, ids, f, Rev(x));
      DeltaRev(ids, x);
      Negate(f, Delta(ids, x));
    }
  }

  lemma Negate(f: int, d: int)
    ensures f * -d == -(f * d)
  {
  }

  /** Net flow out of `v` changes by `f` for every edge of `ids` leaving `v`, less those entering it. */
  lemma {:induction false} PushAllNet(edges: seq<Edge>, ids: seq<nat>, f: int, v: nat)
    requires Paired(edges) && IdsIn(edges, ids)
    ensures Net(PushAll(edges, ids, f), v) == Net(edges, v) + f * Through(edges, ids, v)
    decreases |ids|
  {
    if ids != [] {
      var k := |ids| - 1;
      assert IdsIn(edges, ids[..k]);
      var prev := PushAll(edges, ids[..k], f);
      PushAllNet(edges, ids[..k], f, v);
      PushAllPaired(edges, ids[..k], f);
      PushAllAt(edges, ids[..k], f, ids[k]);
      AddFlowNet(prev, ids[k], f, v);
      assert prev[ids[k]].src == edges[ids[k]].src && prev[ids[k]].dst == edges[ids[k]].dst;
      Shift(f, Through(edges, ids[..k], v), edges[ids[k]].src == v, edges[ids[k]].dst == v);
    }
  }

  lemma {:induction false} ThroughConcat(edges: seq<Edge>, a: seq<nat>, b: seq<nat>, v: nat)
    requires forall k :: 0 <= k < |a| ==> a[k] < |edges|
    requires forall k :: 0 <= k < |b| ==> b[k] < |edges|
    ensures forall k :: 0 <= k < |a + b| ==> (a + b)[k] < |edges|
    ensures Through(edges, a + b, v) == Through(edges, a, v) + Through(edges, b, v)
    decreases |b|
  {
    if b == [] {
      assert a + b == a;
    } else {
      var k := |b| - 1;
      assert (a + b)[..|a + b| - 1] == a + b[..k];
      ThroughConcat(edges, a, b[..k], v);
    }
  }

  /** The pair index of the `i`-th id. */
  ghost function PairAt(ids: seq<nat>, i: nat): nat
    requires i < |ids|
  {
    ids[i] / 2
  }

  /**
    No two ids belong to the same pair.  The facts are triggered by
    `PairAt` only, so that indexing into `ids` does not by itself produce
    the pairwise comparisons.
  */
  ghost predicate PairsDistinct(ids: seq<nat>)
  {
    forall i, j :: 0 <= i < j < |ids| ==> PairAt(ids, i) != PairAt(ids, j)
  }

  /** An edge whose pair does not occur in `ids` is not pushed at all. */
  lemma {:induction false} DeltaOutside(ids: seq<nat>, x: nat)
    requires forall k :: 0 <= k < |ids| ==> ids[k] / 2 != x / 2
    ensures Delta(ids, x) == 0
    decreases |ids|
  {
    if ids != [] {
      var k := |ids| - 1;
      DeltaOutside(ids[..k], x);
      SamePair(ids[k], x);
    }
  }

  /** With distinct pairs every id of `ids` is pushed exactly once and its reverse withdrawn once. */
  lemma {:induction false} DeltaDistinct(ids: seq<nat>, i: nat)
    requires PairsDistinct(ids) && i < |ids|
    ensures Delta(ids, ids[i]) == 1 && Delta(ids, Rev(ids[i])) == -1
    decreases |ids|
  {
    var k := |ids| - 1;
    var x := ids[i];
    if i == k {
      forall m | 0 <= m < k
        ensures ids[..k][m] / 2 != x / 2
      {
        assert PairAt(ids, m) != PairAt(ids, k);
      }
      DeltaOutside(ids[..k], x);
    } else {
      forall a, b | 0 <= a < b < k
        ensures PairAt(ids[..k], a) != PairAt(ids[..k], b)
      {
        assert PairAt(ids, a) != PairAt(ids, b);
      }
      assert ids[..k][i] == x;
      DeltaDistinct(ids[..k], i);
      assert PairAt(ids, i) != PairAt(ids, k);
      SamePair(ids[k], x);
    }
    DeltaRev(ids, x);
  }

  /**
    Pushing `f` along distinct pairs, with `f` between zero and every
    residual capacity of the pushed edges, keeps all edges within capacity.
  */
  lemma PushAllFeasible(edges: seq<Edge>, ids: seq<nat>, f: int)
    requires Paired(edges) && Feasible(edges) && IdsIn(edges, ids) && PairsDistinct(ids) && f >= 0
    requires forall k :: 0 <= k < |ids| ==> f <= ResidualCapacity(edges[ids[k]])
    ensures Feasible(PushAll(edges, ids, f))
  {
    var r := PushAll(edges, ids, f);
    forall x | 0 <= x < |r|
      ensures r[x].flow <= r[x].capacity
    {
      PushAllAt(edges, ids, f, x);
      if k :| 0 <= k < |ids| && ids[k] / 2 == x / 2 {
        DeltaDistinct(ids, k);
        SamePair(ids[k], x);
      } else {
        DeltaOutside(ids, x);
      }
    }
  }

  /** An edge that `add_flow(x, f)` saturates. */
  ghost predicate Sat(edges: seq<Edge>, f: int, x: nat)
    requires x < |edges|
  {
    edges[x].flow + f == edges[x].capacity
  }

  /** With distinct pairs, an id that `Sat` names is at capacity once `f` is pushed along `ids`. */
  lemma PushAllSat(edges: seq<Edge>, ids: seq<nat>, f: int, k: nat)
    requires IdsIn(edges, ids) && PairsDistinct(ids) && k < |ids| && Sat(edges, f, ids[k])
    ensures PushAll(edges, ids, f)[ids[k]].flow == PushAll(edges, ids, f)[ids[k]].capacity
  {
    PushAllAt(edges, ids, f, ids[k]);
    DeltaDistinct(ids, k);
  }

  /** The first id of `ids` that pushing `f` saturates. */
  ghost function FirstSat(edges: seq<Edge>, f: int, ids: seq<nat>): (r: Option<nat>)
    requires forall k :: 0 <= k < |ids| ==> ids[k] < |edges|
    ensures r.None? <==> forall k :: 0 <= k < |ids| ==> !Sat(edges, f, ids[k])
    ensures r.Some? ==> exists k :: 0 <= k < |ids| && ids[k] == r.value && Sat(edges, f, ids[k]) &&
                                    forall j :: 0 <= j < k ==> !Sat(edges, f, ids[j])
    decreases |ids|
  {
    if ids == [] then None
    else
      var k := |ids| - 1;
      var before := FirstSat(edges, f, ids[..k]);
      var r := if before.Some? then before else if Sat(edges, f, ids[k]) then Some(ids[k]) else None;
      FirstSatExtend(edges, f, ids, before, r);
      r
  }

  /** The step of `FirstSat` to one more id: a saturated id of the prefix still comes first. */
  lemma FirstSatExtend(edges: seq<Edge>, f: int, ids: seq<nat>, before: Option<nat>, r: Option<nat>)
    requires |ids| > 0 && forall k :: 0 <= k < |ids| ==> ids[k] < |edges|
    requires var p := ids[..|ids| - 1];
      (before.None? <==> forall k :: 0 <= k < |p| ==> !Sat(edges, f, p[k])) &&
      (before.Some? ==> exists k :: 0 <= k < |p| && p[k] == before.value && Sat(edges, f, p[k]) &&
                                    forall j :: 0 <= j < k ==> !Sat(edges, f, p[j]))
    requires r == if before.Some? then before else if Sat(edges, f, ids[|ids| - 1]) then Some(ids[|ids| - 1]) else None
    ensures r.None? <==> forall k :: 0 <= k < |ids| ==> !Sat(edges, f, ids[k])
    ensures r.Some? ==> exists k :: 0 <= k < |ids| && ids[k] == r.value && Sat(edges, f, ids[k]) &&
                                    forall j :: 0 <= j < k ==> !Sat(edges, f, ids[j])
  {
    var p := ids[..|ids| - 1];
    assert forall j :: 0 <= j < |p| ==> p[j] == ids[j];
    if before.Some? {
      var k :| 0 <= k < |p| && p[k] == before.value && Sat(edges, f, p[k]) && forall j :: 0 <= j < k ==> !Sat(edges, f, p[j]);
      assert ids[k] == r.value && Sat(edges, f, ids[k]);
    } else if r.Some? {
      assert ids[|p|] == r.value;
    }
  }

  /** The last id of `ids` that pushing `f` saturates. */
  ghost function LastSat(edges: seq<Edge>, f: int, ids: seq<nat>): (r: Option<nat>)
    requires forall k :: 0 <= k < |ids| ==> ids[k] < |edges|
    ensures r.None? <==> forall k :: 0 <= k < |ids| ==> !Sat(edges, f, ids[k])
    ensures r.Some? ==> exists k :: 0 <= k < |ids| && ids[k] == r.value && Sat(edges, f, ids[k]) &&
                                    forall j :: k < j < |ids| ==> !Sat(edges, f, ids[j])
    decreases |ids|
  {
    if ids == [] then None
    else
      var k := |ids| - 1;
      if Sat(edges, f, ids[k]) then Some(ids[k])
      else
        var before := LastSat(edges, f, ids[..k]);
        LastSatExtend(edges, f, ids, before);
        before
  }

  /** The step of `LastSat` past an unsaturated last id: the answer for the prefix stays right. */
  lemma LastSatExtend(edges: seq<Edge>, f: int, ids: seq<nat>, r: Option<nat>)
    requires |ids| > 0 && forall k :: 0 <= k < |ids| ==> ids[k] < |edges|
    requires !Sat(edges, f, ids[|ids| - 1])
    requires var p := ids[..|ids| - 1];
      (r.None? <==> forall k :: 0 <= k < |p| ==> !Sat(edges, f, p[k])) &&
      (r.Some? ==> exists k :: 0 <= k < |p| && p[k] == r.value && Sat(edges, f, p[k]) &&
                              forall j :: k < j < |p| ==> !Sat(edges, f, p[j]))
    ensures r.None? <==> forall k :: 0 <= k < |ids| ==> !Sat(edges, f, ids[k])
    ensures r.Some? ==> exists k :: 0 <= k < |ids| && ids[k] == r.value && Sat(edges, f, ids[k]) &&
                                    forall j :: k < j < |ids| ==> !Sat(edges, f, ids[j])
  {
    var p := ids[..|ids| - 1];
    assert forall j :: 0 <= j < |p| ==> p[j] == ids[j];
    if r.Some? {
      var k :| 0 <= k < |p| && p[k] == r.value && Sat(edges, f, p[k]) && forall j :: k < j < |p| ==> !Sat(edges, f, p[j]);
      assert ids[k] == r.value && Sat(edges, f, ids[k]);
    }
  }

  /**
    The leaving edge among `down`, `x`, `up` after `f` is pushed along all
    three in order: the last saturated id of `up`, else `x`, else the first
    saturated id of `down`.
  */
  ghost function SatChoice(edges: seq<Edge>, f: int, down: seq<nat>, x: nat, up: seq<nat>): Option<nat>
    requires IdsIn(edges, down) && x < |edges| && IdsIn(edges, up)
  {
    var last := LastSat(edges, f, up);
    if last.Some? then last
    else if Sat(edges, f, x) then Some(x)
    else FirstSat(edges, f, down)
  }

  /** With distinct pairs the id `SatChoice` picks is at capacity after the push. */
  lemma SatChoiceSaturated(edges: seq<Edge>, f: int, down: seq<nat>, x: nat, up: seq<nat>)
    requires IdsIn(edges, down) && x < |edges| && IdsIn(edges, up)
    requires IdsIn(edges, down + [x] + up) && PairsDistinct(down + [x] + up)
    requires SatChoice(edges, f, down, x, up).Some?
    ensures var l, r := SatChoice(edges, f, down, x, up).value, PushAll(edges, down + [x] + up, f);
            l < |r| && r[l].flow == r[l].capacity
  {
    var c := down + [x] + up;
    var l := SatChoice(edges, f, down, x, up).value;
    if LastSat(edges, f, up).Some? {
      var k :| 0 <= k < |up| && up[k] == l && Sat(edges, f, up[k]);
      assert c[|down| + 1 + k] == l;
      PushAllSat(edges, c, f, |down| + 1 + k);
    } else if Sat(edges, f, x) {
      assert c[|down|] == x;
      PushAllSat(edges, c, f, |down|);
    } else {
      var k :| 0 <= k < |down| && down[k] == l && Sat(edges, f, down[k]);
      assert c[k] == l;
      PushAllSat(edges, c, f, k);
    }
  }

  /** The downward edge above the `i`-th ancestor of `s` runs from the `(i+1)`-th ancestor to the `i`-th. */
  lemma DownAtEnds(edges: seq<Edge>, vs: seq<VertexData>, root: nat, s: nat, i: nat)
    requires TreeOk(edges, vs, root) && s < |vs| && i < vs[s].depth
    ensures DownAt(vs, root, s, i) < |edges| && Rev(DownAt(vs, root, s, i)) < |edges|
    ensures edges[DownAt(vs, root, s, i)].src == Up(vs, root, s, i + 1)
    ensures edges[DownAt(vs, root, s, i)].dst == Up(vs, root, s, i)
  {
    UpStep(vs, root, s, i);
    var w := Up(vs, root, s, i);
    assert ChildOk(edges, vs, Parents(vs), ParentEdges(vs), w);
    assert PairedAt(edges, PE(vs, root, w));
    RevRev(PE(vs, root, w));
  }

  /** The upward edge above the `j`-th ancestor of `t` runs from the `j`-th ancestor to the `(j+1)`-th. */
  lemma UpAtEnds(edges: seq<Edge>, vs: seq<VertexData>, root: nat, t: nat, j: nat)
    requires TreeOk(edges, vs, root) && t < |vs| && j < vs[t].depth
    ensures UpAt(vs, root, t, j) < |edges| && Rev(UpAt(vs, root, t, j)) < |edges|
    ensures edges[UpAt(vs, root, t, j)].src == Up(vs, root, t, j)
    ensures edges[UpAt(vs, root, t, j)].dst == Up(vs, root, t, j + 1)
  {
    UpStep(vs, root, t, j);
    var w := Up(vs, root, t, j);
    assert ChildOk(edges, vs, Parents(vs), ParentEdges(vs), w);
    assert PairedAt(edges, PE(vs, root, w));
  }

  lemma PathsIn(edges: seq<Edge>, vs: seq<VertexData>, root: nat, s: nat, ka: nat, t: nat, kb: nat)
    requires TreeOk(edges, vs, root) && s < |vs| && t < |vs| && ka <= vs[s].depth && kb <= vs[t].depth
    ensures IdsIn(edges, DownPath(vs, root, s, ka)) && IdsIn(edges, UpPath(vs, root, t, kb))
  {
    forall i | 0 <= i < ka
      ensures DownAt(vs, root, s, i) < |edges| && Rev(DownAt(vs, root, s, i)) < |edges|
    {
      DownAtEnds(edges, vs, root, s, i);
    }
    forall j | 0 <= j < kb
      ensures UpAt(vs, root, t, j) < |edges| && Rev(UpAt(vs, root, t, j)) < |edges|
    {
      UpAtEnds(edges, vs, root, t, j);
    }
  }

  /** Walking down from the `k`-th ancestor of `s` to `s` leaves that ancestor once and enters `s` once. */
  lemma {:induction false} DownThrough(edges: seq<Edge>, vs: seq<VertexData>, root: nat, s: nat, k: nat, v: nat)
    requires TreeOk(edges, vs, root) && s < |vs| && k <= vs[s].depth
    requires IdsIn(edges, DownPath(vs, root, s, k))
    ensures Through(edges, DownPath(vs, root, s, k), v)
         == (if v == Up(vs, root, s, k) then 1 else 0) - (if v == s then 1 else 0)
    decreases k
  {
    if k > 0 {
      var p := DownPath(vs, root, s, k);
      assert p[..k - 1] == DownPath(vs, root, s, k - 1);
      DownThrough(edges, vs, root, s, k - 1, v);
      DownAtEnds(edges, vs, root, s, k - 1);
    }
  }

  /** Walking up from `t` to its `k`-th ancestor leaves `t` once and enters that ancestor once. */
  lemma {:induction false} UpThrough(edges: seq<Edge>, vs: seq<VertexData>, root: nat, t: nat, k: nat, v: nat)
    requires TreeOk(edges, vs, root) && t < |vs| && k <= vs[t].depth
    requires IdsIn(edges, UpPath(vs, root, t, k))
    ensures Through(edges, UpPath(vs, root, t, k), v)
         == (if v == t then 1 else 0) - (if v == Up(vs, root, t, k) then 1 else 0)
    decreases k
  {
    if k > 0 {
      var p := UpPath(vs, root, t, k);
      assert p[..k - 1] == UpPath(vs, root, t, k - 1);
      UpThrough(edges, vs, root, t, k - 1, v);
      UpAtEnds(edges, vs, root, t, k - 1);
    }
  }

  /** The cycle closed by the entering edge `x` from `s` to `t`, through the apex `Up(s, ka) == Up(t, kb)`. */
  ghost function Cycle(vs: seq<VertexData>, root: nat, s: nat, t: nat, x: nat, ka: nat, kb: nat): seq<nat>
    requires ParentChain(vs, root) && s < |vs| && t < |vs| && ka <= vs[s].depth && kb <= vs[t].depth
  {
    DownPath(vs, root, s, ka) + [x] + UpPath(vs, root, t, kb)
  }

  /** The paths below the apex from both ends of the entering edge share no vertex. */
  ghost predicate Apex(vs: seq<VertexData>, root: nat, s: nat, t: nat, ka: nat, kb: nat)
  {
    ParentChain(vs, root) && s < |vs| && t < |vs| && ka <= vs[s].depth && kb <= vs[t].depth &&
    Up(vs, root, s, ka) == Up(vs, root, t, kb) &&
    forall i, j :: 0 <= i < ka && 0 <= j < kb ==> Up(vs, root, s, i) != Up(vs, root, t, j)
  }

  /** Pushing around the cycle leaves every vertex's net flow unchanged. */
  lemma CycleThrough(edges: seq<Edge>, vs: seq<VertexData>, root: nat, s: nat, t: nat, x: nat, ka: nat, kb: nat, v: nat)
    requires TreeOk(edges, vs, root) && Apex(vs, root, s, t, ka, kb)
    requires x < |edges| && Rev(x) < |edges| && edges[x].src == s && edges[x].dst == t
    ensures IdsIn(edges, Cycle(vs, root, s, t, x, ka, kb))
    ensures Through(edges, Cycle(vs, root, s, t, x, ka, kb), v) == 0
  {
    var down := DownPath(vs, root, s, ka);
    var up := UpPath(vs, root, t, kb);
    PathsIn(edges, vs, root, s, ka, t, kb);
    DownThrough(edges, vs, root, s, ka, v);
    UpThrough(edges, vs, root, t, kb, v);
    ThroughConcat(edges, down, [x], v);
    ThroughConcat(edges, down + [x], up, v);
    assert [x][..0] == [];
    var c := Cycle(vs, root, s, t, x, ka, kb);
    forall k | 0 <= k < |c|
      ensures c[k] < |edges| && Rev(c[k]) < |edges|
    {
      if k < ka {
        assert c[k] == down[k];
      } else if k > ka {
        assert c[k] == up[k - ka - 1];
      }
    }
  }

  /** Distinct non-root vertices hang from tree edges of distinct pairs. */
  lemma ParentEdgePairs(edges: seq<Edge>, vs: seq<VertexData>, root: nat, w1: nat, w2: nat)
    requires TreeOk(edges, vs, root) && w1 < |vs| && w2 < |vs| && w1 != root && w2 != root && w1 != w2
    ensures PE(vs, root, w1) / 2 != PE(vs, root, w2) / 2
  {
    var p1, p2 := Par(vs, w1), Par(vs, w2);
    var np, npe := Parents(vs), ParentEdges(vs);
    assert ChildOk(edges, vs, np, npe, w1);
    assert ChildOk(edges, vs, np, npe, w2);
    var e1, e2 := PE(vs, root, w1), PE(vs, root, w2);
    SamePair(e1, e2);
    assert PairedAt(edges, e1);
    assert vs[w1].depth == vs[p1].depth + 1;
    assert vs[w2].depth == vs[p2].depth + 1;
  }

  /** An edge of non-zero reduced cost is in no tree pair. */
  lemma NonTreePair(edges: seq<Edge>, vs: seq<VertexData>, root: nat, x: nat, w: nat)
    requires TreeOk(edges, vs, root) && x < |edges| && ReducedCost(vs, edges[x]) != 0
    requires w < |vs| && w != root
    ensures PE(vs, root, w) / 2 != x / 2
  {
    var p := Par(vs, w);
    var np, npe := Parents(vs), ParentEdges(vs);
    assert ChildOk(edges, vs, np, npe, w);
    var e := PE(vs, root, w);
    SamePair(e, x);
    assert ReducedCost(vs, edges[e]) == 0;
    ReducedCostRev(edges, vs, e);
    RevRev(e);
  }

  lemma PairsDistinctConcat(a: seq<nat>, b: seq<nat>)
    requires PairsDistinct(a) && PairsDistinct(b)
    requires forall i, j :: 0 <= i < |a| && 0 <= j < |b| ==> a[i] / 2 != b[j] / 2
    ensures PairsDistinct(a + b)
  {
    var c := a + b;
    forall i, j | 0 <= i < j < |c|
      ensures c[i] / 2 != c[j] / 2
    {
      if j < |a| {
        assert c[i] == a[i] && c[j] == a[j];
        assert PairAt(a, i) != PairAt(a, j);
      } else if i < |a| {
        assert c[i] == a[i] && c[j] == b[j - |a|];
      } else {
        assert c[i] == b[i - |a|] && c[j] == b[j - |a|];
        assert PairAt(b, i - |a|) != PairAt(b, j - |a|);
      }
    }
  }

  /** The `i`-th edge of either path lies in the pair of the `i`-th ancestor's parent edge. */
  lemma PathPair(vs: seq<VertexData>, root: nat, s: nat, i: nat)
    requires ParentChain(vs, root) && s < |vs| && i < vs[s].depth
    ensures Up(vs, root, s, i) != root
    ensures DownAt(vs, root, s, i) / 2 == PE(vs, root, Up(vs, root, s, i)) / 2
    ensures UpAt(vs, root, s, i) == PE(vs, root, Up(vs, root, s, i))
  {
    UpStep(vs, root, s, i);
  }

  lemma DownPairsDistinct(edges: seq<Edge>, vs: seq<VertexData>, root: nat, s: nat, k: nat)
    requires TreeOk(edges, vs, root) && s < |vs| && k <= vs[s].depth
    ensures PairsDistinct(DownPath(vs, root, s, k))
  {
    var p := DownPath(vs, root, s, k);
    forall i, j | 0 <= i < j < k
      ensures p[i] / 2 != p[j] / 2
    {
      PathPair(vs, root, s, i);
      PathPair(vs, root, s, j);
      ParentEdgePairs(edges, vs, root, Up(vs, root, s, i), Up(vs, root, s, j));
    }
  }

  lemma UpPairsDistinct(edges: seq<Edge>, vs: seq<VertexData>, root: nat, t: nat, k: nat)
    requires TreeOk(edges, vs, root) && t < |vs| && k <= vs[t].depth
    ensures PairsDistinct(UpPath(vs, root, t, k))
  {
    var p := UpPath(vs, root, t, k);
    forall i, j | 0 <= i < j < k
      ensures p[i] / 2 != p[j] / 2
    {
      PathPair(vs, root, t, i);
      PathPair(vs, root, t, j);
      ParentEdgePairs(edges, vs, root, Up(vs, root, t, i), Up(vs, root, t, j));
    }
  }

  /** The pairs along the cycle are distinct. */
  lemma CyclePairsDistinct(edges: seq<Edge>, vs: seq<VertexData>, root: nat, s: nat, t: nat, x: nat, ka: nat, kb: nat)
    requires TreeOk(edges, vs, root) && Apex(vs, root, s, t, ka, kb)
    requires x < |edges| && ReducedCost(vs, edges[x]) != 0
    ensures PairsDistinct(Cycle(vs, root, s, t, x, ka, kb))
  {
    var down := DownPath(vs, root, s, ka);
    var up := UpPath(vs, root, t, kb);
    DownPairsDistinct(edges, vs, root, s, ka);
    UpPairsDistinct(edges, vs, root, t, kb);
    forall i | 0 <= i < ka
      ensures down[i] / 2 != x / 2
    {
      PathPair(vs, root, s, i);
      NonTreePair(edges, vs, root, x, Up(vs, root, s, i));
    }
    PairsDistinctConcat(down, [x]);
    forall i, j | 0 <= i < |down + [x]| && 0 <= j < kb
      ensures (down + [x])[i] / 2 != up[j] / 2
    {
      PathPair(vs, root, t, j);
      if i < ka {
        assert (down + [x])[i] == down[i];
        PathPair(vs, root, s, i);
        ParentEdgePairs(edges, vs, root, Up(vs, root, s, i), Up(vs, root, t, j));
      } else {
        NonTreePair(edges, vs, root, x, Up(vs, root, t, j));
      }
    }
    PairsDistinctConcat(down + [x], up);
  }
}
