/**
  The stack walk of `update_tree`, stated on values.  `Walk` is the loop
  invariant: `moved` holds the vertices pushed so far, `popped` the ones whose
  tree edges were fully visited, and `pending` the tree edges of the vertex
  being expanded that are still to be visited.  A vertex other than the start
  `v0` has been pushed exactly when its target parent was popped and the edge
  from that parent to it has been visited.
*/
module SimplexRelabel {
  import opened Wrappers
  import opened SimplexEdges
  import opened SimplexTree

  /** The set `{0, ..., n - 1}`. */
  ghost function Below(n: nat): (s: set<nat>)
    ensures forall w: nat :: w in s <==> w < n
  {
    if n == 0 then {} else Below(n - 1) + {n - 1}
  }

  /** What `update_tree(v0)` relies on: the orientation `np`/`npe` describes the tree-edge sets. */
  ghost predicate Setting(edges: seq<Edge>, vs0: seq<VertexData>, v0: nat,
                          np: seq<Option<nat>>, npe: seq<Option<nat>>, rank: seq<int>)
  {
    v0 < |vs0| && Paired(edges) && EndpointsBelow(edges, |vs0|) &&
    OrientsEdges(edges, vs0, np, npe) && Ranked(np, rank) && vs0[v0].parent == np[v0]
  }

  /** The stack holds distinct pushed, unpopped vertices; every pushed vertex is popped or still stacked. */
  ghost predicate StackOk(stack: seq<nat>, moved: set<nat>, popped: set<nat>, todo: set<nat>, n: nat)
  {
    Distinct(stack) &&
    (forall i :: 0 <= i < |stack| ==> stack[i] in moved && stack[i] !in popped && stack[i] in todo) &&
    (forall w :: w in moved ==> w < n && (w in popped || w in stack)) &&
    popped <= moved &&
    (forall w :: 0 <= w < n && w !in popped ==> w in todo)
  }

  /** A vertex other than `v0` is pushed exactly when its target parent is popped and the edge to it visited. */
  ghost predicate Closed(np: seq<Option<nat>>, npe: seq<Option<nat>>, v0: nat,
                         moved: set<nat>, popped: set<nat>, pending: set<nat>)
  {
    forall w {:trigger np[w]} :: 0 <= w < |np| && w != v0 ==>
      (w in moved <==> np[w].Some? && np[w].value in popped && w < |npe| && npe[w].Some? &&
                       Rev(npe[w].value) !in pending)
  }

  /** Pushed vertices carry their new labels, the others their old ones. */
  ghost predicate Labels(edges: seq<Edge>, vs0: seq<VertexData>, vs: seq<VertexData>, v0: nat,
                         np: seq<Option<nat>>, npe: seq<Option<nat>>, rank: seq<int>, moved: set<nat>)
  {
    |vs| == |vs0| && |np| == |vs0| && |npe| == |vs0| && |rank| == |vs0| && v0 < |vs0| && v0 in moved &&
    (forall w :: w in moved && w != v0 ==> w < |vs0| && rank[v0] < rank[w]) &&
    (forall w :: 0 <= w < |vs0| && (w !in moved || w == v0) ==> vs[w] == vs0[w]) &&
    (forall w {:trigger NewLabel(edges, vs0, vs, np, npe, w)} :: w in moved && w != v0 ==> NewLabel(edges, vs0, vs, np, npe, w))
  }

  ghost predicate Walk(edges: seq<Edge>, vs0: seq<VertexData>, vs: seq<VertexData>, v0: nat,
                       np: seq<Option<nat>>, npe: seq<Option<nat>>, rank: seq<int>,
                       stack: seq<nat>, moved: set<nat>, popped: set<nat>, todo: set<nat>, pending: set<nat>)
  {
    StackOk(stack, moved, popped, todo, |vs0|) &&
    Closed(np, npe, v0, moved, popped, pending) &&
    Labels(edges, vs0, vs, v0, np, npe, rank, moved)
  }

  /** The edges still to visit belong to `u`, which has been popped. */
  ghost predicate Expanding(vs0: seq<VertexData>, u: nat, popped: set<nat>, pending: set<nat>)
  {
    u < |vs0| && u in popped && pending <= vs0[u].treeEdges
  }

  lemma WalkStart(edges: seq<Edge>, vs0: seq<VertexData>, v0: nat,
                  np: seq<Option<nat>>, npe: seq<Option<nat>>, rank: seq<int>)
    requires Setting(edges, vs0, v0, np, npe, rank)
    ensures Walk(edges, vs0, vs0, v0, np, npe, rank, [v0], {v0}, {}, Below(|vs0|), {})
  {
  }

  /** Every relabelled vertex already carries its target parent. */
  lemma LabelsParent(edges: seq<Edge>, vs0: seq<VertexData>, vs: seq<VertexData>, v0: nat,
                     np: seq<Option<nat>>, npe: seq<Option<nat>>, rank: seq<int>, moved: set<nat>, u: nat)
    requires Setting(edges, vs0, v0, np, npe, rank)
    requires Labels(edges, vs0, vs, v0, np, npe, rank, moved)
    requires u in moved && u < |vs0|
    ensures vs[u].parent == np[u] && vs[u].treeEdges == vs0[u].treeEdges
    ensures u == v0 || rank[v0] < rank[u]
  {
    if u != v0 {
      assert NewLabel(edges, vs0, vs, np, npe, u);
    }
  }

  lemma StackPop(stack: seq<nat>, moved: set<nat>, popped: set<nat>, todo: set<nat>, n: nat)
    requires StackOk(stack, moved, popped, todo, n) && stack != []
    ensures var u := stack[|stack| - 1];
      u in moved && u < n && u !in popped && u in todo &&
      StackOk(stack[..|stack| - 1], moved, popped + {u}, todo - {u}, n)
  {
    var k := |stack| - 1;
    var u := stack[k];
    var st := stack[..k];
    forall w | w in moved
      ensures w in popped + {u} || w in st
    {
      if w !in popped {
        var i :| 0 <= i < |stack| && stack[i] == w;
        if i < k {
          assert st[i] == w;
        }
      }
    }
  }

  lemma StackPush(stack: seq<nat>, moved: set<nat>, popped: set<nat>, todo: set<nat>, n: nat, w: nat)
    requires StackOk(stack, moved, popped, todo, n) && w < n && w !in moved
    ensures StackOk(stack + [w], moved + {w}, popped, todo, n)
  {
    var st := stack + [w];
    forall i | 0 <= i < |st|
      ensures st[i] in moved + {w} && st[i] !in popped && st[i] in todo
    {
      if i < |stack| {
        assert st[i] == stack[i];
      }
    }
    forall x | x in moved + {w}
      ensures x in popped || x in st
    {
      if x != w && x !in popped {
        var i :| 0 <= i < |stack| && stack[i] == x;
        assert st[i] == x;
      }
    }
    forall i, j | 0 <= i < j < |st|
      ensures st[i] != st[j]
    {
      if j < |stack| {
        assert st[i] == stack[i] && st[j] == stack[j];
      }
    }
  }

  /** The tree edges of `u` are the edges from `u` to its children, plus the one to its parent. */
  lemma ClosedPop(edges: seq<Edge>, vs0: seq<VertexData>, v0: nat,
                  np: seq<Option<nat>>, npe: seq<Option<nat>>, rank: seq<int>,
                  moved: set<nat>, popped: set<nat>, u: nat)
    requires Setting(edges, vs0, v0, np, npe, rank)
    requires Closed(np, npe, v0, moved, popped, {}) && u < |vs0| && u !in popped
    ensures Closed(np, npe, v0, moved, popped + {u}, vs0[u].treeEdges)
  {
    forall w | 0 <= w < |vs0| && w != v0
      ensures w in moved <==> np[w].Some? && np[w].value in popped + {u} && w < |npe| && npe[w].Some? &&
                              Rev(npe[w].value) !in vs0[u].treeEdges
    {
      assert ChildOk(edges, vs0, np, npe, w);
      if np[w].Some? {
        var r := Rev(npe[w].value);
        assert PairedAt(edges, npe[w].value);
        if r in vs0[u].treeEdges {
          assert TreeEdgeOk(edges, vs0, np, npe, u, r);
        }
      }
    }
  }

  /** Popping `u` from the stack starts the visit of its tree edges. */
  lemma WalkPop(edges: seq<Edge>, vs0: seq<VertexData>, vs: seq<VertexData>, v0: nat,
                np: seq<Option<nat>>, npe: seq<Option<nat>>, rank: seq<int>,
                stack: seq<nat>, moved: set<nat>, popped: set<nat>, todo: set<nat>)
    requires Setting(edges, vs0, v0, np, npe, rank)
    requires Walk(edges, vs0, vs, v0, np, npe, rank, stack, moved, popped, todo, {})
    requires stack != []
    ensures var u := stack[|stack| - 1];
      u < |vs| && u in todo && vs[u].treeEdges == vs0[u].treeEdges &&
      Expanding(vs0, u, popped + {u}, vs0[u].treeEdges) &&
      Walk(edges, vs0, vs, v0, np, npe, rank, stack[..|stack| - 1], moved, popped + {u}, todo - {u}, vs0[u].treeEdges)
  {
    var u := stack[|stack| - 1];
    StackPop(stack, moved, popped, todo, |vs0|);
    LabelsParent(edges, vs0, vs, v0, np, npe, rank, moved, u);
    ClosedPop(edges, vs0, v0, np, npe, rank, moved, popped, u);
  }

  /** The edge to `u`'s own parent is never the edge to a child, so skipping it keeps the closure. */
  lemma WalkSkip(edges: seq<Edge>, vs0: seq<VertexData>, vs: seq<VertexData>, v0: nat,
                 np: seq<Option<nat>>, npe: seq<Option<nat>>, rank: seq<int>,
                 stack: seq<nat>, moved: set<nat>, popped: set<nat>, todo: set<nat>, pending: set<nat>,
                 u: nat, eid: nat)
    requires Setting(edges, vs0, v0, np, npe, rank)
    requires Walk(edges, vs0, vs, v0, np, npe, rank, stack, moved, popped, todo, pending)
    requires Expanding(vs0, u, popped, pending) && eid in pending
    requires eid < |edges| && vs[u].parent == Some(edges[eid].dst)
    ensures Walk(edges, vs0, vs, v0, np, npe, rank, stack, moved, popped, todo, pending - {eid})
  {
    LabelsParent(edges, vs0, vs, v0, np, npe, rank, moved, u);
    assert TreeEdgeOk(edges, vs0, np, npe, u, eid);
    assert PairedAt(edges, eid);
    var d := edges[eid].dst;
    assert np[u] == Some(d) && rank[d] < rank[u];
    forall w | 0 <= w < |vs0| && w != v0 && np[w].Some? && npe[w].Some?
      ensures Rev(npe[w].value) != eid
    {
      assert ChildOk(edges, vs0, np, npe, w);
      RevRev(npe[w].value);
    }
  }

  /** Visiting any other tree edge of `u` reaches a child of `u` not pushed before. */
  lemma AdoptTarget(edges: seq<Edge>, vs0: seq<VertexData>, vs: seq<VertexData>, v0: nat,
                    np: seq<Option<nat>>, npe: seq<Option<nat>>, rank: seq<int>,
                    moved: set<nat>, popped: set<nat>, pending: set<nat>, u: nat, eid: nat)
    requires Setting(edges, vs0, v0, np, npe, rank)
    requires Closed(np, npe, v0, moved, popped, pending)
    requires Labels(edges, vs0, vs, v0, np, npe, rank, moved)
    requires Expanding(vs0, u, popped, pending) && popped <= moved && eid in pending
    requires eid < |edges| && vs[u].parent != Some(edges[eid].dst)
    ensures edges[eid].src == u && edges[eid].dst < |vs0|
    ensures var w := edges[eid].dst;
      np[w] == Some(u) && npe[w] == Some(Rev(eid)) && w != v0 && w != u && w !in moved &&
      rank[v0] < rank[w]
  {
    LabelsParent(edges, vs0, vs, v0, np, npe, rank, moved, u);
    assert TreeEdgeOk(edges, vs0, np, npe, u, eid);
    RevRev(eid);
  }

  lemma ClosedAdopt(edges: seq<Edge>, vs0: seq<VertexData>, v0: nat,
                    np: seq<Option<nat>>, npe: seq<Option<nat>>, rank: seq<int>,
                    moved: set<nat>, popped: set<nat>, pending: set<nat>, u: nat, eid: nat)
    requires Setting(edges, vs0, v0, np, npe, rank)
    requires Closed(np, npe, v0, moved, popped, pending) && u in popped && eid in pending
    requires eid < |edges| && edges[eid].dst < |vs0|
    requires np[edges[eid].dst] == Some(u) && npe[edges[eid].dst] == Some(Rev(eid)) && edges[eid].dst != v0
    ensures Closed(np, npe, v0, moved + {edges[eid].dst}, popped, pending - {eid})
  {
    var w := edges[eid].dst;
    RevRev(eid);
    forall x | 0 <= x < |vs0| && x != v0 && x != w && np[x].Some? && npe[x].Some?
      ensures Rev(npe[x].value) != eid
    {
      assert ChildOk(edges, vs0, np, npe, x);
      assert ChildOk(edges, vs0, np, npe, w);
      RevRev(npe[x].value);
    }
  }

  lemma LabelsAdopt(edges: seq<Edge>, vs0: seq<VertexData>, vs: seq<VertexData>, v0: nat,
                    np: seq<Option<nat>>, npe: seq<Option<nat>>, rank: seq<int>,
                    moved: set<nat>, u: nat, eid: nat)
    requires Setting(edges, vs0, v0, np, npe, rank)
    requires Labels(edges, vs0, vs, v0, np, npe, rank, moved)
    requires eid < |edges| && u < |vs0| && edges[eid].dst < |vs0|
    requires forall x :: x in moved && x != v0 ==> np[x].Some? && np[x].value != edges[eid].dst
    requires var w := edges[eid].dst;
      np[w] == Some(u) && npe[w] == Some(Rev(eid)) && w != v0 && w != u && w !in moved && rank[v0] < rank[w]
    ensures var w := edges[eid].dst;
      Labels(edges, vs0,
             vs[w := vs[w].(parent := Some(u), parentEdge := Some(Rev(eid)),
                            depth := vs[u].depth + 1, potential := vs[u].potential + edges[eid].cost)],
             v0, np, npe, rank, moved + {w})
  {
    var w := edges[eid].dst;
    var vs' := vs[w := vs[w].(parent := Some(u), parentEdge := Some(Rev(eid)),
                              depth := vs[u].depth + 1, potential := vs[u].potential + edges[eid].cost)];
    assert PairedAt(edges, eid);
    assert NewLabel(edges, vs0, vs', np, npe, w);
    forall x | x in moved && x != v0
      ensures NewLabel(edges, vs0, vs', np, npe, x)
    {
      assert NewLabel(edges, vs0, vs, np, npe, x);
    }
  }

  /** Visiting any other tree edge of `u` makes its far end a child of `u` and pushes it. */
  lemma WalkAdopt(edges: seq<Edge>, vs0: seq<VertexData>, vs: seq<VertexData>, vs': seq<VertexData>, v0: nat,
                  np: seq<Option<nat>>, npe: seq<Option<nat>>, rank: seq<int>,
                  stack: seq<nat>, moved: set<nat>, popped: set<nat>, todo: set<nat>, pending: set<nat>,
                  u: nat, eid: nat, e: Edge)
    requires Setting(edges, vs0, v0, np, npe, rank)
    requires Walk(edges, vs0, vs, v0, np, npe, rank, stack, moved, popped, todo, pending)
    requires Expanding(vs0, u, popped, pending) && eid in pending
    requires eid < |edges| && e == edges[eid] && vs[u].parent != Some(e.dst)
    requires e.dst < |vs| && e.src < |vs|
    requires vs' == vs[e.dst := vs[e.dst].(parent := Some(u), parentEdge := Some(Rev(eid)),
                                           depth := vs[e.src].depth + 1, potential := vs[e.src].potential + e.cost)]
    ensures Walk(edges, vs0, vs', v0, np, npe, rank, stack + [e.dst], moved + {e.dst}, popped, todo, pending - {eid})
  {
    AdoptTarget(edges, vs0, vs, v0, np, npe, rank, moved, popped, pending, u, eid);
    var w := e.dst;
    StackPush(stack, moved, popped, todo, |vs0|, w);
    ClosedAdopt(edges, vs0, v0, np, npe, rank, moved, popped, pending, u, eid);
    forall x | x in moved && x != v0
      ensures np[x].Some? && np[x].value != w
    {
      assert NewLabel(edges, vs0, vs, np, npe, x);
    }
    LabelsAdopt(edges, vs0, vs, v0, np, npe, rank, moved, u, eid);
    assert vs' == vs[w := vs[w].(parent := Some(u), parentEdge := Some(Rev(eid)),
                                 depth := vs[u].depth + 1, potential := vs[u].potential + edges[eid].cost)];
    assert Labels(edges, vs0, vs', v0, np, npe, rank, moved + {w});
  }

  /** With the stack empty the walk has relabelled exactly the subtree below `v0`. */
  lemma WalkDone(edges: seq<Edge>, vs0: seq<VertexData>, vs: seq<VertexData>, v0: nat,
                 np: seq<Option<nat>>, npe: seq<Option<nat>>, rank: seq<int>,
                 moved: set<nat>, popped: set<nat>, todo: set<nat>)
    requires Setting(edges, vs0, v0, np, npe, rank)
    requires Walk(edges, vs0, vs, v0, np, npe, rank, [], moved, popped, todo, {})
    ensures Relabelled(edges, vs0, vs, v0, np, npe, rank, moved)
  {
    assert moved == popped;
    forall w | 0 <= w < |vs0| && w != v0
      ensures w in moved <==> np[w].Some? && np[w].value in moved
    {
      assert ChildOk(edges, vs0, np, npe, w);
    }
  }
}
