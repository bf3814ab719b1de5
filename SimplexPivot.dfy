/**
  The facts behind `pivot`.  The loop that finds the apex climbs from both
  ends of the entering edge, always from the deeper side, and keeps the
  smallest residual capacity seen (`Climbing`, `Lowest`).  The two push
  loops and the push along the entering edge together push around the whole
  cycle; the leaving edge is the last saturated edge on the destination
  side, else the entering edge, else the first saturated edge on the source
  side; and the four `tree_edges` updates of `pivot` are the exchange of
  `SimplexExchange`.
*/
module SimplexPivot {
  import opened Wrappers
  import opened SimplexEdges
  import opened SimplexTree
  import opened SimplexCycle
  import opened SimplexExchange

  /** Which push of `pivot` saturated the leaving edge. */
  datatype LeavingSide = Src | Dst | Enter

  /**
    The state of the apex search after `ka` steps up from `s` and `kb` from
    `t`: every vertex passed on the `s` side is deeper than the current `t`
    side vertex, every vertex passed on the `t` side is at least as deep as
    the current `s` side vertex and differs from it, and no vertex was
    passed on both sides.
  */
  ghost predicate Climbing(vs: seq<VertexData>, root: nat, s: nat, t: nat, ka: nat, kb: nat)
  {
    ParentChain(vs, root) && s < |vs| && t < |vs| && ka <= vs[s].depth && kb <= vs[t].depth &&
    (forall i :: 0 <= i < ka ==> vs[Up(vs, root, s, i)].depth > vs[Up(vs, root, t, kb)].depth) &&
    (forall j :: 0 <= j < kb ==>
       vs[Up(vs, root, t, j)].depth >= vs[Up(vs, root, s, ka)].depth && Up(vs, root, t, j) != Up(vs, root, s, ka)) &&
    (forall i, j :: 0 <= i < ka && 0 <= j < kb ==> Up(vs, root, s, i) != Up(vs, root, t, j))
  }

  /** `f` is the smallest residual capacity of the edges in `ids`, attained at `wx`. */
  ghost predicate Lowest(edges: seq<Edge>, ids: seq<nat>, f: int, wx: nat)
  {
    (forall y :: y in ids ==> y < |edges| && f <= ResidualCapacity(edges[y])) &&
    wx in ids && wx < |edges| && f == ResidualCapacity(edges[wx])
  }

  /** `f` is the smallest residual capacity of the edges in `ids`. */
  ghost predicate Bottleneck(edges: seq<Edge>, ids: seq<nat>, f: int)
  {
    (forall y :: y in ids ==> y < |edges| && f <= ResidualCapacity(edges[y])) &&
    exists y :: y in ids && y < |edges| && f == ResidualCapacity(edges[y])
  }

  lemma LowestStart(edges: seq<Edge>, vs: seq<VertexData>, root: nat, s: nat, t: nat, x: nat)
    requires ParentChain(vs, root) && s < |vs| && t < |vs| && x < |edges|
    ensures Climbing(vs, root, s, t, 0, 0)
    ensures Lowest(edges, Cycle(vs, root, s, t, x, 0, 0), ResidualCapacity(edges[x]), x)
  {
    assert Cycle(vs, root, s, t, x, 0, 0) == [x];
  }

  /** Taking the minimum with one more edge. */
  lemma LowestGrow(edges: seq<Edge>, ids: seq<nat>, ids': seq<nat>, y: nat, f: int, wx: nat)
    requires Lowest(edges, ids, f, wx) && y < |edges|
    requires forall z :: z in ids' <==> z in ids || z == y
    ensures var r := ResidualCapacity(edges[y]);
            Lowest(edges, ids', if f <= r then f else r, if f <= r then wx else y)
  {
  }

  /** A step up on the `s` side, taken when its current vertex is the deeper one. */
  lemma ClimbDown(edges: seq<Edge>, vs: seq<VertexData>, root: nat, s: nat, t: nat, x: nat, ka: nat, kb: nat)
    requires TreeOk(edges, vs, root) && Climbing(vs, root, s, t, ka, kb)
    requires vs[Up(vs, root, s, ka)].depth > vs[Up(vs, root, t, kb)].depth
    ensures ka < vs[s].depth && Up(vs, root, s, ka) != root
    ensures vs[Up(vs, root, s, ka)].parentEdge.Some?
    ensures DownAt(vs, root, s, ka) == Rev(vs[Up(vs, root, s, ka)].parentEdge.value)
    ensures DownAt(vs, root, s, ka) < |edges|
    ensures edges[DownAt(vs, root, s, ka)].src == Up(vs, root, s, ka + 1)
    ensures Climbing(vs, root, s, t, ka + 1, kb)
    ensures forall z :: z in Cycle(vs, root, s, t, x, ka + 1, kb) <==>
                        z in Cycle(vs, root, s, t, x, ka, kb) || z == DownAt(vs, root, s, ka)
  {
    UpStep(vs, root, s, ka);
    DownAtEnds(edges, vs, root, s, ka);
    var down, up := DownPath(vs, root, s, ka), UpPath(vs, root, t, kb);
    assert DownPath(vs, root, s, ka + 1) == down + [DownAt(vs, root, s, ka)];
    assert Cycle(vs, root, s, t, x, ka + 1, kb) == down + [DownAt(vs, root, s, ka)] + [x] + up;
    assert Cycle(vs, root, s, t, x, ka, kb) == down + [x] + up;
  }

  /** A step up on the `t` side, taken when its current vertex is at least as deep and is not the other. */
  lemma ClimbUp(edges: seq<Edge>, vs: seq<VertexData>, root: nat, s: nat, t: nat, x: nat, ka: nat, kb: nat)
    requires TreeOk(edges, vs, root) && Climbing(vs, root, s, t, ka, kb)
    requires vs[Up(vs, root, s, ka)].depth <= vs[Up(vs, root, t, kb)].depth
    requires Up(vs, root, s, ka) != Up(vs, root, t, kb)
    ensures kb < vs[t].depth && Up(vs, root, t, kb) != root
    ensures vs[Up(vs, root, t, kb)].parentEdge.Some?
    ensures UpAt(vs, root, t, kb) == vs[Up(vs, root, t, kb)].parentEdge.value
    ensures UpAt(vs, root, t, kb) < |edges|
    ensures edges[UpAt(vs, root, t, kb)].dst == Up(vs, root, t, kb + 1)
    ensures Climbing(vs, root, s, t, ka, kb + 1)
    ensures forall z :: z in Cycle(vs, root, s, t, x, ka, kb + 1) <==>
                        z in Cycle(vs, root, s, t, x, ka, kb) || z == UpAt(vs, root, t, kb)
  {
    var a := Up(vs, root, s, ka);
    if vs[a].depth == 0 {
      DepthZeroIsRoot(vs, root, a);
    }
    if vs[Up(vs, root, t, kb)].depth == 0 {
      DepthZeroIsRoot(vs, root, Up(vs, root, t, kb));
    }
    UpStep(vs, root, t, kb);
    UpAtEnds(edges, vs, root, t, kb);
    var down, up := DownPath(vs, root, s, ka), UpPath(vs, root, t, kb);
    assert UpPath(vs, root, t, kb + 1) == up + [UpAt(vs, root, t, kb)];
    assert Cycle(vs, root, s, t, x, ka, kb + 1) == down + [x] + up + [UpAt(vs, root, t, kb)];
    assert Cycle(vs, root, s, t, x, ka, kb) == down + [x] + up;
  }

  /** The search stops at the apex. */
  lemma ClimbDone(vs: seq<VertexData>, root: nat, s: nat, t: nat, ka: nat, kb: nat)
    requires Climbing(vs, root, s, t, ka, kb) && Up(vs, root, s, ka) == Up(vs, root, t, kb)
    ensures Apex(vs, root, s, t, ka, kb)
  {
  }

  /** The apex seen from the other end of the entering edge. */
  lemma ApexSym(vs: seq<VertexData>, root: nat, s: nat, t: nat, ka: nat, kb: nat)
    requires Apex(vs, root, s, t, ka, kb)
    ensures Apex(vs, root, t, s, kb, ka)
  {
  }

  /** The far end of the entering edge is not below any vertex strictly between `s` and the apex. */
  lemma ApexNotInSub(vs: seq<VertexData>, root: nat, s: nat, t: nat, ka: nat, kb: nat, i: nat)
    requires Apex(vs, root, s, t, ka, kb) && i < ka
    ensures !InSub(vs, root, t, Up(vs, root, s, i))
  {
    var w := Up(vs, root, s, i);
    if vs[t].depth >= vs[w].depth {
      var j := vs[t].depth - vs[w].depth;
      assert j < kb;
      assert Up(vs, root, t, j) != w;
    }
  }

  /** Pushing along one more id is one more `add_flow`. */
  lemma PushAllSnoc(edges: seq<Edge>, ids: seq<nat>, y: nat, f: int)
    requires IdsIn(edges, ids) && y < |edges| && Rev(y) < |edges|
    ensures IdsIn(edges, ids + [y])
    ensures PushAll(edges, ids + [y], f) == AddFlowTo(PushAll(edges, ids, f), y, f)
  {
    assert (ids + [y])[..|ids|] == ids;
  }

  /** Pushing along `a` and then along `b` is pushing along `a + b`. */
  lemma {:induction false} PushAllConcat(edges: seq<Edge>, a: seq<nat>, b: seq<nat>, f: int)
    requires IdsIn(edges, a) && IdsIn(edges, b)
    ensures IdsIn(edges, a + b) && IdsIn(PushAll(edges, a, f), b)
    ensures PushAll(PushAll(edges, a, f), b, f) == PushAll(edges, a + b, f)
    decreases |b|
  {
    var e1 := PushAll(edges, a, f);
    if b == [] {
      assert a + b == a;
    } else {
      var k := |b| - 1;
      var b', y := b[..k], b[k];
      assert b == b' + [y];
      assert a + b == (a + b') + [y];
      assert IdsIn(edges, b');
      PushAllConcat(edges, a, b', f);
      PushAllSnoc(e1, b', y, f);
      PushAllSnoc(edges, a + b', y, f);
    }
  }

  /** A prefix of a path of distinct pairs. */
  lemma PrefixIn(edges: seq<Edge>, ids: seq<nat>, n: nat)
    requires IdsIn(edges, ids) && PairsDistinct(ids) && n <= |ids|
    ensures IdsIn(edges, ids[..n]) && PairsDistinct(ids[..n])
  {
    forall i, j | 0 <= i < j < n
      ensures ids[..n][i] / 2 != ids[..n][j] / 2
    {
      assert ids[..n][i] == ids[i] && ids[..n][j] == ids[j];
      assert PairAt(ids, i) != PairAt(ids, j);
    }
  }

  /** The first saturated edge of a path one edge longer. */
  lemma FirstSatSnoc(edges: seq<Edge>, f: int, ids: seq<nat>, y: nat)
    requires forall k :: 0 <= k < |ids| ==> ids[k] < |edges|
    requires y < |edges|
    ensures forall k :: 0 <= k < |ids + [y]| ==> (ids + [y])[k] < |edges|
    ensures FirstSat(edges, f, ids + [y]) ==
            if FirstSat(edges, f, ids).Some? then FirstSat(edges, f, ids)
            else if Sat(edges, f, y) then Some(y) else None
  {
    assert (ids + [y])[..|ids|] == ids;
  }

  /** The last saturated edge of a path one edge longer. */
  lemma LastSatSnoc(edges: seq<Edge>, f: int, ids: seq<nat>, y: nat)
    requires forall k :: 0 <= k < |ids| ==> ids[k] < |edges|
    requires y < |edges|
    ensures forall k :: 0 <= k < |ids + [y]| ==> (ids + [y])[k] < |edges|
    ensures LastSat(edges, f, ids + [y]) == if Sat(edges, f, y) then Some(y) else LastSat(edges, f, ids)
  {
    assert (ids + [y])[..|ids|] == ids;
  }

  /**
    One round of a push loop of `pivot`: after the prefix `path[..k]` of a
    path of distinct pairs, pushing along `path[k]` gives the push along
    `path[..k+1]`, and it saturates `path[k]` exactly when `Sat` says so.
  */
  lemma PushStep(e0: seq<Edge>, path: seq<nat>, k: nat, f: int, e1: seq<Edge>)
    requires IdsIn(e0, path) && PairsDistinct(path) && k < |path|
    requires IdsIn(e0, path[..k]) && e1 == AddFlowTo(PushAll(e0, path[..k], f), path[k], f)
    ensures IdsIn(e0, path[..k + 1]) && e1 == PushAll(e0, path[..k + 1], f)
    ensures path[k] < |e1| && (e1[path[k]].flow == e1[path[k]].capacity <==> Sat(e0, f, path[k]))
    ensures FirstSat(e0, f, path[..k + 1]) ==
              if FirstSat(e0, f, path[..k]).Some? then FirstSat(e0, f, path[..k])
              else if Sat(e0, f, path[k]) then Some(path[k]) else None
    ensures LastSat(e0, f, path[..k + 1]) == if Sat(e0, f, path[k]) then Some(path[k]) else LastSat(e0, f, path[..k])
  {
    PushStepFlow(e0, path, k, f, e1);
    PushStepSat(e0, path, k, f);
  }

  /** The flow half of `PushStep`: one more edge pushed, and whether it is now saturated. */
  lemma PushStepFlow(e0: seq<Edge>, path: seq<nat>, k: nat, f: int, e1: seq<Edge>)
    requires IdsIn(e0, path) && PairsDistinct(path) && k < |path|
    requires IdsIn(e0, path[..k]) && e1 == AddFlowTo(PushAll(e0, path[..k], f), path[k], f)
    ensures IdsIn(e0, path[..k + 1]) && e1 == PushAll(e0, path[..k + 1], f)
    ensures path[k] < |e1| && (e1[path[k]].flow == e1[path[k]].capacity <==> Sat(e0, f, path[k]))
  {
    var pushed, y, full := path[..k], path[k], path[..k + 1];
    assert full == pushed + [y];
    PrefixIn(e0, path, k + 1);
    PushAllSnoc(e0, pushed, y, f);
    assert e1 == PushAll(e0, full, f);
    DeltaDistinct(full, k);
    PushAllAt(e0, full, f, y);
  }

  /** The saturation half of `PushStep`: the first and the last saturated edge after one more edge. */
  lemma PushStepSat(e0: seq<Edge>, path: seq<nat>, k: nat, f: int)
    requires IdsIn(e0, path) && PairsDistinct(path) && k < |path| && IdsIn(e0, path[..k])
    ensures IdsIn(e0, path[..k + 1])
    ensures FirstSat(e0, f, path[..k + 1]) ==
              if FirstSat(e0, f, path[..k]).Some? then FirstSat(e0, f, path[..k])
              else if Sat(e0, f, path[k]) then Some(path[k]) else None
    ensures LastSat(e0, f, path[..k + 1]) == if Sat(e0, f, path[k]) then Some(path[k]) else LastSat(e0, f, path[..k])
  {
    var pushed, y := path[..k], path[k];
    assert path[..k + 1] == pushed + [y];
    PrefixIn(e0, path, k + 1);
    FirstSatSnoc(e0, f, pushed, y);
    LastSatSnoc(e0, f, pushed, y);
  }

  /** The vertices `v`, its parent, ..., its `k`-th ancestor. */
  ghost function Ancestors(vs: seq<VertexData>, root: nat, v: nat, k: nat): (r: seq<nat>)
    requires ParentChain(vs, root) && v < |vs| && k <= vs[v].depth
    ensures |r| == k + 1 && forall i :: 0 <= i <= k ==> r[i] == Up(vs, root, v, i)
  {
    if k == 0 then [v] else Ancestors(vs, root, v, k - 1) + [Up(vs, root, v, k)]
  }

  /**
    `walk` climbs parent pointers and `path` holds the parent edge of each
    vertex left, reversed when `down`; the last vertex is met only at the end.
  */
  ghost predicate Climb(vs: seq<VertexData>, walk: seq<nat>, path: seq<nat>, down: bool)
  {
    |walk| == |path| + 1 && (forall i :: 0 <= i < |walk| ==> walk[i] < |vs|) &&
    (forall i :: 0 <= i < |path| ==> walk[i] != walk[|path|]) &&
    forall i {:trigger path[i]} :: 0 <= i < |path| ==>
      walk[i] < |vs| && vs[walk[i]].parent == Some(walk[i + 1]) && vs[walk[i]].parentEdge.Some? &&
      path[i] == if down then Rev(vs[walk[i]].parentEdge.value) else vs[walk[i]].parentEdge.value
  }

  /** The `i`-th step of the walk from `s` up `ka` levels. */
  lemma ClimbAt(vs: seq<VertexData>, root: nat, s: nat, ka: nat, i: nat)
    requires ParentChain(vs, root) && s < |vs| && i < ka <= vs[s].depth
    ensures var w := Up(vs, root, s, i);
            w != Up(vs, root, s, ka) && vs[w].parent == Some(Up(vs, root, s, i + 1)) && vs[w].parentEdge.Some? &&
            DownAt(vs, root, s, i) == Rev(vs[w].parentEdge.value) && UpAt(vs, root, s, i) == vs[w].parentEdge.value
  {
    UpStep(vs, root, s, i);
    var p := Par(vs, Up(vs, root, s, i));
  }

  /** Each vertex of the walk from `v` up `k` levels but the last has a parent, the next one. */
  lemma AncestorsClimb(vs: seq<VertexData>, root: nat, v: nat, k: nat)
    requires ParentChain(vs, root) && v < |vs| && k <= vs[v].depth
    ensures var walk := Ancestors(vs, root, v, k);
            walk[0] == v && walk[k] == Up(vs, root, v, k) && (forall i :: 0 <= i <= k ==> walk[i] < |vs|) &&
            (forall i :: 0 <= i < k ==> walk[i] != walk[k]) &&
            forall i {:trigger vs[walk[i]].parentEdge} :: 0 <= i < k ==>
              vs[walk[i]].parent == Some(walk[i + 1]) && vs[walk[i]].parentEdge.Some?
  {
    var walk := Ancestors(vs, root, v, k);
    forall i | 0 <= i < k
      ensures walk[i] != walk[k]
    {
      ClimbAt(vs, root, v, k, i);
    }
    forall i | 0 <= i < k
      ensures vs[walk[i]].parent == Some(walk[i + 1]) && vs[walk[i]].parentEdge.Some?
    {
      ClimbAt(vs, root, v, k, i);
    }
  }

  /** The downward path from `s` reverses the parent edges of the walk. */
  lemma DownPathEdges(vs: seq<VertexData>, root: nat, s: nat, ka: nat)
    requires ParentChain(vs, root) && s < |vs| && ka <= vs[s].depth
    ensures var walk := Ancestors(vs, root, s, ka);
            forall i :: 0 <= i < ka ==> vs[walk[i]].parentEdge.Some? && DownPath(vs, root, s, ka)[i] == Rev(vs[walk[i]].parentEdge.value)
  {
    var walk := Ancestors(vs, root, s, ka);
    forall i | 0 <= i < ka
      ensures vs[walk[i]].parentEdge.Some? && DownPath(vs, root, s, ka)[i] == Rev(vs[walk[i]].parentEdge.value)
    {
      ClimbAt(vs, root, s, ka, i);
    }
  }

  /** The upward path from `t` follows the parent edges of the walk. */
  lemma UpPathEdges(vs: seq<VertexData>, root: nat, t: nat, kb: nat)
    requires ParentChain(vs, root) && t < |vs| && kb <= vs[t].depth
    ensures var walk := Ancestors(vs, root, t, kb);
            forall j :: 0 <= j < kb ==> vs[walk[j]].parentEdge.Some? && UpPath(vs, root, t, kb)[j] == vs[walk[j]].parentEdge.value
  {
    var walk := Ancestors(vs, root, t, kb);
    forall j | 0 <= j < kb
      ensures vs[walk[j]].parentEdge.Some? && UpPath(vs, root, t, kb)[j] == vs[walk[j]].parentEdge.value
    {
      ClimbAt(vs, root, t, kb, j);
    }
  }

  /** The walk from `s` up `ka` levels climbs along the downward path. */
  lemma ClimbDownOf(vs: seq<VertexData>, root: nat, s: nat, ka: nat)
    requires ParentChain(vs, root) && s < |vs| && ka <= vs[s].depth
    ensures Climb(vs, Ancestors(vs, root, s, ka), DownPath(vs, root, s, ka), true)
    ensures Ancestors(vs, root, s, ka)[0] == s && Ancestors(vs, root, s, ka)[ka] == Up(vs, root, s, ka)
  {
    AncestorsClimb(vs, root, s, ka);
    DownPathEdges(vs, root, s, ka);
  }

  /** The walk from `t` up `kb` levels climbs along the upward path. */
  lemma ClimbUpOf(vs: seq<VertexData>, root: nat, t: nat, kb: nat)
    requires ParentChain(vs, root) && t < |vs| && kb <= vs[t].depth
    ensures Climb(vs, Ancestors(vs, root, t, kb), UpPath(vs, root, t, kb), false)
    ensures Ancestors(vs, root, t, kb)[0] == t && Ancestors(vs, root, t, kb)[kb] == Up(vs, root, t, kb)
  {
    AncestorsClimb(vs, root, t, kb);
    UpPathEdges(vs, root, t, kb);
  }

  /** Pushing the smallest residual capacity saturates an edge of the cycle. */
  lemma SomeSat(edges: seq<Edge>, down: seq<nat>, x: nat, up: seq<nat>, f: int, wx: nat)
    requires IdsIn(edges, down) && IdsIn(edges, up) && x < |edges| && Lowest(edges, down + [x] + up, f, wx)
    ensures FirstSat(edges, f, down).Some? || Sat(edges, f, x) || LastSat(edges, f, up).Some?
  {
    assert Sat(edges, f, wx);
    if wx in down {
      var k :| 0 <= k < |down| && down[k] == wx;
    } else if wx in up {
      var k :| 0 <= k < |up| && up[k] == wx;
    }
  }

  /** Flows and capacities that agree on `ids` give the same last saturated edge. */
  lemma {:induction false} LastSatAgree(e0: seq<Edge>, e1: seq<Edge>, f: int, ids: seq<nat>)
    requires forall k :: 0 <= k < |ids| ==>
               ids[k] < |e0| && ids[k] < |e1| && e1[ids[k]].flow == e0[ids[k]].flow && e1[ids[k]].capacity == e0[ids[k]].capacity
    ensures LastSat(e1, f, ids) == LastSat(e0, f, ids)
    decreases |ids|
  {
    if ids != [] {
      LastSatAgree(e0, e1, f, ids[..|ids| - 1]);
    }
  }

  /**
    The three pushes of `pivot`: along the source side, then along the
    entering edge `x`, then along the destination side.  Pushing along `x`
    raises its flow by exactly `f`, and the destination side sees the flows
    it had before any push.
  */
  lemma PushPhases(edges: seq<Edge>, vs: seq<VertexData>, root: nat, s: nat, t: nat, x: nat, ka: nat, kb: nat, f: int)
    requires TreeOk(edges, vs, root) && Apex(vs, root, s, t, ka, kb)
    requires x < |edges| && edges[x].src == s && edges[x].dst == t && ReducedCost(vs, edges[x]) != 0
    ensures IdsIn(edges, DownPath(vs, root, s, ka)) && IdsIn(edges, UpPath(vs, root, t, kb))
    ensures IdsIn(edges, Cycle(vs, root, s, t, x, ka, kb)) && Rev(x) < |edges|
    ensures PairsDistinct(Cycle(vs, root, s, t, x, ka, kb))
    ensures var down := DownPath(vs, root, s, ka);
            var e1 := AddFlowTo(PushAll(edges, down, f), x, f);
            e1[x] == edges[x].(flow := edges[x].flow + f) &&
            IdsIn(e1, UpPath(vs, root, t, kb)) &&
            PushAll(e1, UpPath(vs, root, t, kb), f) == PushAll(edges, Cycle(vs, root, s, t, x, ka, kb), f) &&
            LastSat(e1, f, UpPath(vs, root, t, kb)) == LastSat(edges, f, UpPath(vs, root, t, kb))
  {
    PathsIn(edges, vs, root, s, ka, t, kb);
    assert PairedAt(edges, x);
    assert Cycle(vs, root, s, t, x, ka, kb) == DownPath(vs, root, s, ka) + [x] + UpPath(vs, root, t, kb);
    CycleThrough(edges, vs, root, s, t, x, ka, kb, s);
    CyclePairsDistinct(edges, vs, root, s, t, x, ka, kb);
    PushSplit(edges, DownPath(vs, root, s, ka), x, UpPath(vs, root, t, kb), f);
  }

  /** The pairs of a sequence with distinct pairs, split in three. */
  lemma PairsApart(a: seq<nat>, x: nat, b: seq<nat>)
    requires PairsDistinct(a + [x] + b)
    ensures PairsDistinct(a + [x])
    ensures forall k :: 0 <= k < |a + [x]| ==> (a + [x])[k] == (a + [x] + b)[k]
    ensures forall j, m :: 0 <= j < |b| && 0 <= m < |a + [x]| ==> (a + [x])[m] / 2 != b[j] / 2
  {
    var c := a + [x] + b;
    forall i, j | 0 <= i < j < |a + [x]|
      ensures (a + [x])[i] / 2 != (a + [x])[j] / 2
    {
      assert c[i] == (a + [x])[i] && c[j] == (a + [x])[j];
      assert PairAt(c, i) != PairAt(c, j);
    }
    forall j, m | 0 <= j < |b| && 0 <= m < |a + [x]|
      ensures (a + [x])[m] / 2 != b[j] / 2
    {
      assert c[m] == (a + [x])[m] && c[|a| + 1 + j] == b[j];
      assert PairAt(c, m) != PairAt(c, |a| + 1 + j);
    }
  }

  /**
    Pushing along `down + [x] + up` in three phases: pushing along `x` raises
    its flow by exactly `f`, and `up` sees the flows it had before any push.
  */
  lemma PushSplit(edges: seq<Edge>, down: seq<nat>, x: nat, up: seq<nat>, f: int)
    requires IdsIn(edges, down) && IdsIn(edges, up) && x < |edges| && Rev(x) < |edges|
    requires PairsDistinct(down + [x] + up)
    ensures var e1 := AddFlowTo(PushAll(edges, down, f), x, f);
            e1[x] == edges[x].(flow := edges[x].flow + f) &&
            IdsIn(e1, up) &&
            PushAll(e1, up, f) == PushAll(edges, down + [x] + up, f) &&
            LastSat(e1, f, up) == LastSat(edges, f, up)
  {
    var dx := down + [x];
    PushAllSnoc(edges, down, x, f);
    var e1 := PushAll(edges, dx, f);
    PairsApart(down, x, up);
    DeltaDistinct(dx, |down|);
    PushAllAt(edges, dx, f, x);
    PushAllConcat(edges, dx, up, f);
    forall k | 0 <= k < |up|
      ensures up[k] < |edges| && e1[up[k]].flow == edges[up[k]].flow && e1[up[k]].capacity == edges[up[k]].capacity
    {
      DeltaOutside(dx, up[k]);
      PushAllAt(edges, dx, f, up[k]);
    }
    LastSatAgree(edges, e1, f, up);
  }

  /** The tree-edge set of `u` after `pivot` inserts `x` and its reverse and removes `l` and its reverse. */
  ghost function TreeEdgesAfter(te: set<nat>, u: nat, src: nat, dst: nat, x: nat, ls: nat, ld: nat, l: nat): set<nat>
  {
    (te + (if u == src then {x} else {}) + (if u == dst then {Rev(x)} else {}))
      - (if u == ls then {l} else {}) - (if u == ld then {Rev(l)} else {})
  }

  /** Leaving on the source side: the exchange that hangs the cut subtree below `t`. */
  lemma SwapSrc(edges: seq<Edge>, vs: seq<VertexData>, root: nat, s: nat, t: nat, x: nat, ka: nat, kb: nat, i: nat)
    requires TreeOk(edges, vs, root) && Apex(vs, root, s, t, ka, kb) && i < ka
    requires x < |edges| && edges[x].src == s && edges[x].dst == t && ReducedCost(vs, edges[x]) != 0
    ensures ExchangeOk(edges, vs, root, s, t, x, i)
  {
    ApexNotInSub(vs, root, s, t, ka, kb, i);
  }

  /** Leaving on the destination side: the exchange along the reversed entering edge, hanging the cut subtree below `s`. */
  lemma SwapDst(edges: seq<Edge>, vs: seq<VertexData>, root: nat, s: nat, t: nat, x: nat, ka: nat, kb: nat, j: nat)
    requires TreeOk(edges, vs, root) && Apex(vs, root, s, t, ka, kb) && j < kb
    requires x < |edges| && edges[x].src == s && edges[x].dst == t && ReducedCost(vs, edges[x]) != 0
    ensures Rev(x) < |edges| && edges[Rev(x)].src == t && edges[Rev(x)].dst == s
    ensures ExchangeOk(edges, vs, root, t, s, Rev(x), j)
  {
    ApexSym(vs, root, s, t, ka, kb);
    ApexNotInSub(vs, root, t, s, kb, ka, j);
    ReducedCostRev(edges, vs, x);
    assert PairedAt(edges, x);
  }

  /** An edge of non-zero reduced cost is no tree edge. */
  lemma NotTreeEdge(edges: seq<Edge>, vs: seq<VertexData>, root: nat, u: nat, e: nat)
    requires TreeOk(edges, vs, root) && u < |vs| && e < |edges| && ReducedCost(vs, edges[e]) != 0
    ensures e !in vs[u].treeEdges
  {
    if e in vs[u].treeEdges {
      TreeEdgeReducedCost(edges, vs, root, u, e);
    }
  }

  /**
    The four `tree_edges` updates of `pivot`, for the entering edge `eid`
    and the leaving edge `l`, on either side: `eid` and its reverse are not
    yet tree edges, `l` and its reverse are, and the updated sets are the
    swapped ones of the exchange along `x` (`eid` or its reverse).
  */
  lemma LeavingSets(edges: seq<Edge>, vs: seq<VertexData>, root: nat, c: nat, d: nat, x: nat, i: nat, eid: nat, l: nat)
    requires ExchangeOk(edges, vs, root, c, d, x, i) && eid < |edges|
    requires (x == eid && l == DownAt(vs, root, c, i)) || (x == Rev(eid) && l == UpAt(vs, root, c, i))
    ensures Rev(eid) < |edges| && l < |edges| && Rev(l) != l
    ensures eid !in vs[edges[eid].src].treeEdges && Rev(eid) !in vs[edges[eid].dst].treeEdges
    ensures l in vs[edges[l].src].treeEdges && Rev(l) in vs[edges[l].dst].treeEdges
    ensures forall u :: 0 <= u < |vs| ==>
              TreeEdgesAfter(vs[u].treeEdges, u, edges[eid].src, edges[eid].dst, eid, edges[l].src, edges[l].dst, l)
                == SwappedSet(vs, root, c, d, x, i, u)
  {
    UpStep(vs, root, c, i);
    var w := Up(vs, root, c, i);
    var ew := PE(vs, root, w);
    OldParentEdge(edges, vs, root, w);
    assert ChildOk(edges, vs, Parents(vs), ParentEdges(vs), w);
    RevRev(ew);
    RevRev(eid);
    assert PairedAt(edges, eid);
    ReducedCostRev(edges, vs, eid);
    NotTreeEdge(edges, vs, root, edges[eid].src, eid);
    NotTreeEdge(edges, vs, root, edges[eid].dst, Rev(eid));
  }

  /**
    The four `tree_edges` updates of `pivot` produce the swapped vertex data,
    and each of them is allowed: the insertions are new, the removals find
    their edge.
  */
  lemma SwapPlan(edges: seq<Edge>, vs: seq<VertexData>, root: nat, c: nat, d: nat, x: nat, i: nat, eid: nat, l: nat)
    requires ExchangeOk(edges, vs, root, c, d, x, i) && eid < |edges|
    requires (x == eid && l == DownAt(vs, root, c, i)) || (x == Rev(eid) && l == UpAt(vs, root, c, i))
    ensures Cut(vs, root, c, i) && l < |edges|
    ensures edges[eid].src < |vs| && edges[eid].dst < |vs| && edges[l].src < |vs| && edges[l].dst < |vs|
    ensures eid !in vs[edges[eid].src].treeEdges && Rev(eid) !in vs[edges[eid].dst].treeEdges
    ensures l in vs[edges[l].src].treeEdges && Rev(l) in vs[edges[l].dst].treeEdges
    ensures SameAdjacency(vs, Swapped(vs, root, c, d, x, i))
    ensures forall u :: 0 <= u < |vs| ==>
              Swapped(vs, root, c, d, x, i)[u] ==
                vs[u].(treeEdges := TreeEdgesAfter(vs[u].treeEdges, u, edges[eid].src, edges[eid].dst, eid, edges[l].src, edges[l].dst, l))
  {
    LeavingSets(edges, vs, root, c, d, x, i, eid, l);
    SwappedSets(vs, root, c, d, x, i, edges[eid].src, edges[eid].dst, eid, edges[l].src, edges[l].dst, l);
  }

  /** The swapped vertex data, when the four updates give the swapped sets: only the tree-edge sets change. */
  lemma SwappedSets(vs: seq<VertexData>, root: nat, c: nat, d: nat, x: nat, i: nat,
                    src: nat, dst: nat, eid: nat, ls: nat, ld: nat, l: nat)
    requires Cut(vs, root, c, i)
    requires forall u :: 0 <= u < |vs| ==> TreeEdgesAfter(vs[u].treeEdges, u, src, dst, eid, ls, ld, l) == SwappedSet(vs, root, c, d, x, i, u)
    ensures SameAdjacency(vs, Swapped(vs, root, c, d, x, i))
    ensures forall u :: 0 <= u < |vs| ==>
              Swapped(vs, root, c, d, x, i)[u] == vs[u].(treeEdges := TreeEdgesAfter(vs[u].treeEdges, u, src, dst, eid, ls, ld, l))
  {
  }

  /**
    Pushing the bottleneck `f` around the cycle of the entering edge `x`:
    `f` is not negative and no larger than any residual capacity on the
    cycle, and the pushed edges stay paired, within capacity and a valid
    tree with the same potentials; every vertex keeps its net outflow.
  */
  lemma CyclePush(edges: seq<Edge>, vs: seq<VertexData>, root: nat, s: nat, t: nat, x: nat, ka: nat, kb: nat, f: int, wx: nat)
    requires TreeOk(edges, vs, root) && Feasible(edges) && Apex(vs, root, s, t, ka, kb)
    requires x < |edges| && edges[x].src == s && edges[x].dst == t && ReducedCost(vs, edges[x]) != 0
    requires Lowest(edges, Cycle(vs, root, s, t, x, ka, kb), f, wx)
    ensures IdsIn(edges, Cycle(vs, root, s, t, x, ka, kb))
    ensures f >= 0 && Bottleneck(edges, Cycle(vs, root, s, t, x, ka, kb), f)
    ensures var r := PushAll(edges, Cycle(vs, root, s, t, x, ka, kb), f);
            Paired(r) && Feasible(r) && SameShape(edges, r) && TreeOk(r, vs, root) &&
            forall v :: Net(r, v) == Net(edges, v)
  {
    var cycle := Cycle(vs, root, s, t, x, ka, kb);
    PushPhases(edges, vs, root, s, t, x, ka, kb, f);
    PushAllPaired(edges, cycle, f);
    PushAllShape(edges, cycle, f);
    forall k | 0 <= k < |cycle|
      ensures f <= ResidualCapacity(edges[cycle[k]])
    {
      assert cycle[k] in cycle;
    }
    PushAllFeasible(edges, cycle, f);
    var r := PushAll(edges, cycle, f);
    TreeOkShape(edges, r, vs, root);
    forall v
      ensures Net(r, v) == Net(edges, v)
    {
      PushAllNet(edges, cycle, f, v);
      CycleThrough(edges, vs, root, s, t, x, ka, kb, v);
    }
  }

  /** The ids of a cycle are those of its two tree paths and the entering edge. */
  lemma CycleIds(edges: seq<Edge>, vs: seq<VertexData>, root: nat, s: nat, t: nat, x: nat, ka: nat, kb: nat)
    requires Apex(vs, root, s, t, ka, kb) && IdsIn(edges, Cycle(vs, root, s, t, x, ka, kb))
    ensures IdsIn(edges, DownPath(vs, root, s, ka)) && IdsIn(edges, UpPath(vs, root, t, kb)) && x < |edges|
  {
    var down, up, c := DownPath(vs, root, s, ka), UpPath(vs, root, t, kb), Cycle(vs, root, s, t, x, ka, kb);
    assert c[|down|] == x;
    assert forall k :: 0 <= k < |down| ==> down[k] == c[k];
    assert forall k :: 0 <= k < |up| ==> up[k] == c[|down| + 1 + k];
  }

  /**
    The rule by which `pivot` picks the leaving edge once `f` is pushed
    around the cycle of the entering edge `x`: the last edge of the head's
    side that the push saturates, else `x` if it saturates, else the first
    edge of the tail's side that it saturates.  Every later saturating
    `add_flow` overrides an earlier one on the head's side and at `x`,
    while on the tail's side only the first one is kept.
  */
  ghost function LeavingChoice(edges: seq<Edge>, vs: seq<VertexData>, root: nat, s: nat, t: nat, x: nat,
                               ka: nat, kb: nat, f: int): Option<nat>
    requires Apex(vs, root, s, t, ka, kb) && IdsIn(edges, Cycle(vs, root, s, t, x, ka, kb))
  {
    CycleIds(edges, vs, root, s, t, x, ka, kb);
    SatChoice(edges, f, DownPath(vs, root, s, ka), x, UpPath(vs, root, t, kb))
  }

  /**
    The leaving edge `pivot` picks: the last edge the push from `t` saturates,
    else the entering edge `x` if it is saturated, else the first edge the
    push from `s` saturates.  Pushing the bottleneck saturates one of them,
    so there always is one, and it is the entering edge exactly when the
    side says so; otherwise it is a tree edge on that side of the cycle.
  */
  lemma LeavingOnCycle(edges: seq<Edge>, vs: seq<VertexData>, root: nat, s: nat, t: nat, x: nat, ka: nat, kb: nat,
                       f: int, wx: nat, e1: seq<Edge>, saturated: bool,
                       found: Option<nat>, fside: LeavingSide, leaving: Option<nat>, side: LeavingSide)
    requires TreeOk(edges, vs, root) && Apex(vs, root, s, t, ka, kb)
    requires x < |edges| && edges[x].src == s && edges[x].dst == t && ReducedCost(vs, edges[x]) != 0
    requires Lowest(edges, Cycle(vs, root, s, t, x, ka, kb), f, wx)
    requires IdsIn(edges, DownPath(vs, root, s, ka)) && Rev(x) < |edges|
    requires found == FirstSat(edges, f, DownPath(vs, root, s, ka)) && fside == if found.Some? then Src else Enter
    requires e1 == AddFlowTo(PushAll(edges, DownPath(vs, root, s, ka), f), x, f)
    requires saturated <==> e1[x].flow == e1[x].capacity
    requires IdsIn(e1, UpPath(vs, root, t, kb))
    requires LastSat(e1, f, UpPath(vs, root, t, kb)).Some? ==> leaving == LastSat(e1, f, UpPath(vs, root, t, kb)) && side == Dst
    requires LastSat(e1, f, UpPath(vs, root, t, kb)).None? ==>
               if saturated then leaving == Some(x) && side == Enter else leaving == found && side == fside
    ensures IdsIn(edges, Cycle(vs, root, s, t, x, ka, kb))
    ensures leaving == LeavingChoice(edges, vs, root, s, t, x, ka, kb, f) && leaving.Some?
    ensures var r := PushAll(edges, Cycle(vs, root, s, t, x, ka, kb), f);
            leaving.value < |r| && r[leaving.value].flow == r[leaving.value].capacity
    ensures side == Enter <==> leaving.value == x
    ensures side == Src ==> exists i :: 0 <= i < ka && leaving.value == DownAt(vs, root, s, i)
    ensures side == Dst ==> exists j :: 0 <= j < kb && leaving.value == UpAt(vs, root, t, j)
  {
    var down, up := DownPath(vs, root, s, ka), UpPath(vs, root, t, kb);
    PushPhases(edges, vs, root, s, t, x, ka, kb, f);
    assert saturated <==> Sat(edges, f, x);
    SomeSat(edges, down, x, up, f, wx);
    ChoiceSaturated(edges, vs, root, s, t, x, ka, kb, f);
    if side == Src {
      var i :| 0 <= i < ka && down[i] == leaving.value;
      PathPair(vs, root, s, i);
      NonTreePair(edges, vs, root, x, Up(vs, root, s, i));
    } else if side == Dst {
      var j :| 0 <= j < kb && up[j] == leaving.value;
      PathPair(vs, root, t, j);
      NonTreePair(edges, vs, root, x, Up(vs, root, t, j));
    }
  }

  /** The edge `LeavingChoice` picks is at capacity after the push around the cycle. */
  lemma ChoiceSaturated(edges: seq<Edge>, vs: seq<VertexData>, root: nat, s: nat, t: nat, x: nat, ka: nat, kb: nat, f: int)
    requires TreeOk(edges, vs, root) && Apex(vs, root, s, t, ka, kb)
    requires x < |edges| && ReducedCost(vs, edges[x]) != 0
    requires IdsIn(edges, Cycle(vs, root, s, t, x, ka, kb))
    requires LeavingChoice(edges, vs, root, s, t, x, ka, kb, f).Some?
    ensures var l, r := LeavingChoice(edges, vs, root, s, t, x, ka, kb, f).value, PushAll(edges, Cycle(vs, root, s, t, x, ka, kb), f);
            l < |r| && r[l].flow == r[l].capacity
  {
    CycleIds(edges, vs, root, s, t, x, ka, kb);
    CyclePairsDistinct(edges, vs, root, s, t, x, ka, kb);
    SatChoiceSaturated(edges, f, DownPath(vs, root, s, ka), x, UpPath(vs, root, t, kb));
  }
}
