/**
  The tree exchange of a pivot.  The leaving edge joins the vertex `w`, the
  `i`-th ancestor of `c`, to its parent; removing it detaches the subtree of
  `w`, and the entering edge `x` from `c` to `d` (a vertex outside that
  subtree) hangs it back below `d`.  In the orientation of the new tree the
  path from `c` up to `w` is reversed and `c` becomes a child of `d`; every
  other vertex keeps its parent.  `Swapped` is the vertex data with the
  `tree_edges` sets updated by the four insertions and removals of `pivot`,
  and `NP`/`NPE`/`NR` are the new parents, parent edges and a rank
  certificate for them.  With these, `update_tree(d)` re-establishes the
  tree invariant.
*/
module SimplexExchange {
  import opened Wrappers
  import opened SimplexEdges
  import opened SimplexTree
  import opened SimplexRelabel
  import opened SimplexCycle

  /** `u` lies in the subtree hanging from `w`. */
  ghost predicate InSub(vs: seq<VertexData>, root: nat, u: nat, w: nat)
    requires ParentChain(vs, root) && u < |vs| && w < |vs|
  {
    vs[u].depth >= vs[w].depth && Up(vs, root, u, vs[u].depth - vs[w].depth) == w
  }

  /** A vertex lies in the subtree of `w` iff it is `w` or its parent does. */
  lemma SubParent(vs: seq<VertexData>, root: nat, u: nat, w: nat)
    requires ParentChain(vs, root) && u < |vs| && w < |vs| && u != root
    ensures InSub(vs, root, u, w) <==> u == w || InSub(vs, root, Par(vs, u), w)
  {
    var p := Par(vs, u);
    assert vs[u].depth == vs[p].depth + 1;
    if vs[u].depth > vs[w].depth {
      assert Up(vs, root, u, vs[u].depth - vs[w].depth) == Up(vs, root, p, vs[p].depth - vs[w].depth);
    }
  }

  /** The detached subtree is below the cut: `c` and at least one more level. */
  ghost predicate Cut(vs: seq<VertexData>, root: nat, c: nat, i: nat)
  {
    ParentChain(vs, root) && c < |vs| && i < vs[c].depth
  }

  /** `u` is on the path from `c` up to its `i`-th ancestor. */
  ghost predicate OnPath(vs: seq<VertexData>, root: nat, c: nat, i: nat, u: nat)
    requires Cut(vs, root, c, i)
  {
    u < |vs| && vs[u].depth <= vs[c].depth && vs[c].depth <= vs[u].depth + i &&
    Up(vs, root, c, vs[c].depth - vs[u].depth) == u
  }

  lemma PathAt(vs: seq<VertexData>, root: nat, c: nat, i: nat, j: nat)
    requires Cut(vs, root, c, i) && j <= i
    ensures OnPath(vs, root, c, i, Up(vs, root, c, j))
    ensures vs[c].depth - vs[Up(vs, root, c, j)].depth == j
  {
  }

  /** The path lies in the detached subtree. */
  lemma PathInSub(vs: seq<VertexData>, root: nat, c: nat, i: nat, u: nat)
    requires Cut(vs, root, c, i) && OnPath(vs, root, c, i, u)
    ensures InSub(vs, root, u, Up(vs, root, c, i))
  {
    var j := vs[c].depth - vs[u].depth;
    var w := Up(vs, root, c, i);
    UpUpTo(vs, root, c, j, i - j, i);
    assert vs[u].depth - vs[w].depth == i - j;
  }

  lemma PathInSubIf(vs: seq<VertexData>, root: nat, c: nat, i: nat, u: nat)
    requires Cut(vs, root, c, i) && u < |vs|
    ensures OnPath(vs, root, c, i, u) ==> InSub(vs, root, u, Up(vs, root, c, i))
  {
    if OnPath(vs, root, c, i, u) {
      PathInSub(vs, root, c, i, u);
    }
  }

  /** The new parent of `u`: `d` for `c`, the vertex below it on the path for the rest of the path. */
  ghost function NewParent(vs: seq<VertexData>, root: nat, c: nat, d: nat, i: nat, u: nat): Option<nat>
    requires Cut(vs, root, c, i) && u < |vs|
  {
    if u == c then Some(d)
    else if OnPath(vs, root, c, i, u) then Some(Up(vs, root, c, vs[c].depth - vs[u].depth - 1))
    else vs[u].parent
  }

  /** The new parent edge of `u`: `x` for `c`, the reversed old parent edge of its path child on the path. */
  ghost function NewParentEdge(vs: seq<VertexData>, root: nat, c: nat, x: nat, i: nat, u: nat): Option<nat>
    requires Cut(vs, root, c, i) && u < |vs|
  {
    if u == c then Some(x)
    else if OnPath(vs, root, c, i, u) then Some(DownAt(vs, root, c, vs[c].depth - vs[u].depth - 1))
    else vs[u].parentEdge
  }

  /**
    A rank certificate for the new parents: depths outside the subtree, and
    inside it numbers above the depth of `d` that grow along the reversed
    path and then with the old depth.
  */
  ghost function NewRank(vs: seq<VertexData>, root: nat, c: nat, d: nat, i: nat, u: nat): int
    requires Cut(vs, root, c, i) && d < |vs| && u < |vs|
  {
    var base := vs[d].depth + 1;
    if !InSub(vs, root, u, Up(vs, root, c, i)) then vs[u].depth
    else if OnPath(vs, root, c, i, u) then base + (vs[c].depth - vs[u].depth)
    else base + i + vs[u].depth
  }

  ghost function NP(vs: seq<VertexData>, root: nat, c: nat, d: nat, i: nat): (r: seq<Option<nat>>)
    requires Cut(vs, root, c, i)
    ensures |r| == |vs| && forall u :: 0 <= u < |vs| ==> r[u] == NewParent(vs, root, c, d, i, u)
  {
    seq(|vs|, u requires 0 <= u < |vs| => NewParent(vs, root, c, d, i, u))
  }

  ghost function NPE(vs: seq<VertexData>, root: nat, c: nat, x: nat, i: nat): (r: seq<Option<nat>>)
    requires Cut(vs, root, c, i)
    ensures |r| == |vs| && forall u :: 0 <= u < |vs| ==> r[u] == NewParentEdge(vs, root, c, x, i, u)
  {
    seq(|vs|, u requires 0 <= u < |vs| => NewParentEdge(vs, root, c, x, i, u))
  }

  ghost function NR(vs: seq<VertexData>, root: nat, c: nat, d: nat, i: nat): (r: seq<int>)
    requires Cut(vs, root, c, i) && d < |vs|
    ensures |r| == |vs| && forall u :: 0 <= u < |vs| ==> r[u] == NewRank(vs, root, c, d, i, u)
  {
    seq(|vs|, u requires 0 <= u < |vs| => NewRank(vs, root, c, d, i, u))
  }

  /** The tree edges of `u` after adding `x` at `c`, its reverse at `d`, and removing the pair above `w`. */
  ghost function SwappedSet(vs: seq<VertexData>, root: nat, c: nat, d: nat, x: nat, i: nat, u: nat): set<nat>
    requires Cut(vs, root, c, i) && u < |vs|
  {
    UpStep(vs, root, c, i);
    var w := Up(vs, root, c, i);
    var ew := PE(vs, root, w);
    (vs[u].treeEdges + (if u == c then {x} else {}) + (if u == d then {Rev(x)} else {}))
      - (if u == w then {ew} else {}) - (if u == Par(vs, w) then {Rev(ew)} else {})
  }

  /** The first `n` vertices with their swapped tree-edge sets. */
  ghost function SwappedPrefix(vs: seq<VertexData>, root: nat, c: nat, d: nat, x: nat, i: nat, n: nat): (r: seq<VertexData>)
    requires Cut(vs, root, c, i) && n <= |vs|
    ensures |r| == n
    ensures forall u {:trigger r[u]} :: 0 <= u < n ==> r[u] == vs[u].(treeEdges := SwappedSet(vs, root, c, d, x, i, u))
  {
    if n == 0 then []
    else SwappedPrefix(vs, root, c, d, x, i, n - 1) + [vs[n - 1].(treeEdges := SwappedSet(vs, root, c, d, x, i, n - 1))]
  }

  ghost function Swapped(vs: seq<VertexData>, root: nat, c: nat, d: nat, x: nat, i: nat): (r: seq<VertexData>)
    requires Cut(vs, root, c, i)
    ensures |r| == |vs|
    ensures forall u {:trigger r[u]} :: 0 <= u < |vs| ==> r[u] == vs[u].(treeEdges := SwappedSet(vs, root, c, d, x, i, u))
  {
    SwappedPrefix(vs, root, c, d, x, i, |vs|)
  }

  /** `vsNew` carries the tree-edge sets of the exchange at `c`'s `i`-th ancestor that `SwappedSet` describes. */
  ghost predicate ExchangedSets(vs: seq<VertexData>, root: nat, c: nat, d: nat, x: nat, i: nat, vsNew: seq<VertexData>)
  {
    Cut(vs, root, c, i) && |vsNew| == |vs| &&
    forall u :: 0 <= u < |vs| ==> vsNew[u].treeEdges == SwappedSet(vs, root, c, d, x, i, u)
  }

  /** What a tree exchange needs: a consistent tree and an entering edge that re-attaches the cut subtree. */
  ghost predicate ExchangeOk(edges: seq<Edge>, vs: seq<VertexData>, root: nat, c: nat, d: nat, x: nat, i: nat)
  {
    TreeOk(edges, vs, root) && c < |vs| && d < |vs| && i < vs[c].depth &&
    x < |edges| && edges[x].src == c && edges[x].dst == d && ReducedCost(vs, edges[x]) != 0 &&
    !InSub(vs, root, d, Up(vs, root, c, i))
  }

  /** `x` is added at `c`, its reverse at `d`, and edges outside the leaving pair are kept. */
  lemma SwappedFacts(edges: seq<Edge>, vs: seq<VertexData>, root: nat, c: nat, d: nat, x: nat, i: nat)
    requires ExchangeOk(edges, vs, root, c, d, x, i)
    ensures Up(vs, root, c, i) != root
    ensures x in SwappedSet(vs, root, c, d, x, i, c) && Rev(x) in SwappedSet(vs, root, c, d, x, i, d)
    ensures forall u, e :: 0 <= u < |vs| && e in vs[u].treeEdges && e / 2 != PE(vs, root, Up(vs, root, c, i)) / 2 ==>
              e in SwappedSet(vs, root, c, d, x, i, u)
  {
    UpStep(vs, root, c, i);
    var w := Up(vs, root, c, i);
    NonTreePair(edges, vs, root, x, w);
    SamePair(x, PE(vs, root, w));
  }

  lemma ChildAtCut(edges: seq<Edge>, vs: seq<VertexData>, root: nat, c: nat, d: nat, x: nat, i: nat)
    requires ExchangeOk(edges, vs, root, c, d, x, i)
    ensures ChildOk(edges, Swapped(vs, root, c, d, x, i), NP(vs, root, c, d, i), NPE(vs, root, c, x, i), c)
  {
    SwappedFacts(edges, vs, root, c, d, x, i);
    assert PairedAt(edges, x);
    assert NP(vs, root, c, d, i)[c] == Some(d) && NPE(vs, root, c, x, i)[c] == Some(x);
  }

  /** An old tree edge outside the leaving pair is still a tree edge after the swap. */
  lemma SwappedKeeps(vs: seq<VertexData>, root: nat, c: nat, d: nat, x: nat, i: nat, u: nat, e: nat)
    requires Cut(vs, root, c, i) && u < |vs| && e in vs[u].treeEdges
    requires Up(vs, root, c, i) != root && e / 2 != PE(vs, root, Up(vs, root, c, i)) / 2
    ensures e in SwappedSet(vs, root, c, d, x, i, u)
  {
    var ew := PE(vs, root, Up(vs, root, c, i));
    SamePair(e, ew);
  }

  /** The parent edge of a non-root vertex, seen from both of its ends. */
  lemma OldParentEdge(edges: seq<Edge>, vs: seq<VertexData>, root: nat, v: nat)
    requires TreeOk(edges, vs, root) && v < |vs| && v != root
    ensures Par(vs, v) < |vs| && PE(vs, root, v) < |edges| && Rev(PE(vs, root, v)) < |edges|
    ensures edges[Rev(PE(vs, root, v))].src == Par(vs, v) && edges[Rev(PE(vs, root, v))].dst == v
    ensures PE(vs, root, v) in vs[v].treeEdges && Rev(PE(vs, root, v)) in vs[Par(vs, v)].treeEdges
  {
    var p := Par(vs, v);
    assert ChildOk(edges, vs, Parents(vs), ParentEdges(vs), v);
    assert PairedAt(edges, PE(vs, root, v));
  }

  /** The old parent link of the vertex just below `Up(c, j)` on the cut path, which the exchange reverses. */
  lemma OnPathLink(edges: seq<Edge>, vs: seq<VertexData>, root: nat, c: nat, d: nat, x: nat, i: nat, j: nat)
    requires ExchangeOk(edges, vs, root, c, d, x, i) && 0 < j <= i
    ensures Up(vs, root, c, i) != root && Up(vs, root, c, j - 1) < |vs| && Up(vs, root, c, j - 1) != root
    ensures var ch := Up(vs, root, c, j - 1); var e := PE(vs, root, ch); var u := Up(vs, root, c, j);
      u < |vs| && NP(vs, root, c, d, i)[u] == Some(ch) && NPE(vs, root, c, x, i)[u] == Some(Rev(e)) &&
      Rev(e) < |edges| && edges[Rev(e)].src == u && edges[Rev(e)].dst == ch &&
      e in vs[ch].treeEdges && Rev(e) in vs[u].treeEdges && Rev(Rev(e)) == e &&
      e / 2 != PE(vs, root, Up(vs, root, c, i)) / 2 && Rev(e) / 2 != PE(vs, root, Up(vs, root, c, i)) / 2
  {
    var w := Up(vs, root, c, i);
    var ch := Up(vs, root, c, j - 1);
    UpStep(vs, root, c, i);
    UpStep(vs, root, c, j - 1);
    NewOnPath(vs, root, c, d, x, i, j);
    var e := PE(vs, root, ch);
    OldParentEdge(edges, vs, root, ch);
    ParentEdgePairs(edges, vs, root, ch, w);
    RevRev(e);
    SamePair(Rev(e), e);
  }

  lemma ChildOnPath(edges: seq<Edge>, vs: seq<VertexData>, root: nat, c: nat, d: nat, x: nat, i: nat, j: nat)
    requires ExchangeOk(edges, vs, root, c, d, x, i) && 0 < j <= i
    ensures ChildOk(edges, Swapped(vs, root, c, d, x, i), NP(vs, root, c, d, i), NPE(vs, root, c, x, i), Up(vs, root, c, j))
  {
    OnPathLink(edges, vs, root, c, d, x, i, j);
    var u := Up(vs, root, c, j);
    var ch := Up(vs, root, c, j - 1);
    var e := PE(vs, root, ch);
    SwappedKeeps(vs, root, c, d, x, i, ch, e);
    SwappedKeeps(vs, root, c, d, x, i, u, Rev(e));
    var vs' := Swapped(vs, root, c, d, x, i);
    assert vs'[u].treeEdges == SwappedSet(vs, root, c, d, x, i, u);
    assert vs'[ch].treeEdges == SwappedSet(vs, root, c, d, x, i, ch);
    ChildOkOf(edges, vs', NP(vs, root, c, d, i), NPE(vs, root, c, x, i), u, ch, Rev(e));
  }

  /** The parent link `u -> p` along edge `e` is consistent once `e` and its reverse are tree edges at both ends. */
  lemma ChildOkOf(edges: seq<Edge>, vs: seq<VertexData>, np: seq<Option<nat>>, npe: seq<Option<nat>>, u: nat, p: nat, e: nat)
    requires u < |vs| && p < |vs| && |np| == |vs| && |npe| == |vs| && e < |edges|
    requires np[u] == Some(p) && npe[u] == Some(e) && edges[e].src == u && edges[e].dst == p
    requires e in vs[u].treeEdges && Rev(e) in vs[p].treeEdges
    ensures ChildOk(edges, vs, np, npe, u)
  {
  }

  lemma ChildOffPath(edges: seq<Edge>, vs: seq<VertexData>, root: nat, c: nat, d: nat, x: nat, i: nat, u: nat)
    requires ExchangeOk(edges, vs, root, c, d, x, i) && u < |vs| && u != c && !OnPath(vs, root, c, i, u)
    ensures ChildOk(edges, Swapped(vs, root, c, d, x, i), NP(vs, root, c, d, i), NPE(vs, root, c, x, i), u)
  {
    var w := Up(vs, root, c, i);
    SwappedFacts(edges, vs, root, c, d, x, i);
    PathAt(vs, root, c, i, i);
    assert NP(vs, root, c, d, i)[u] == vs[u].parent && NPE(vs, root, c, x, i)[u] == vs[u].parentEdge;
    if u != root {
      assert ChildOk(edges, vs, Parents(vs), ParentEdges(vs), u);
      ParentEdgePairs(edges, vs, root, u, w);
      var p := Par(vs, u);
      assert PairedAt(edges, PE(vs, root, u));
    }
  }

  lemma ExchangeChild(edges: seq<Edge>, vs: seq<VertexData>, root: nat, c: nat, d: nat, x: nat, i: nat, u: nat)
    requires ExchangeOk(edges, vs, root, c, d, x, i) && u < |vs|
    ensures ChildOk(edges, Swapped(vs, root, c, d, x, i), NP(vs, root, c, d, i), NPE(vs, root, c, x, i), u)
  {
    if u == c {
      ChildAtCut(edges, vs, root, c, d, x, i);
    } else if OnPath(vs, root, c, i, u) {
      ChildOnPath(edges, vs, root, c, d, x, i, vs[c].depth - vs[u].depth);
    } else {
      ChildOffPath(edges, vs, root, c, d, x, i, u);
    }
  }

  /** On the path above `c` the new parent of the `j`-th ancestor is the `(j-1)`-th, over the reversed edge. */
  lemma NewOnPath(vs: seq<VertexData>, root: nat, c: nat, d: nat, x: nat, i: nat, j: nat)
    requires Cut(vs, root, c, i) && 0 < j <= i
    ensures Up(vs, root, c, j) != c
    ensures NP(vs, root, c, d, i)[Up(vs, root, c, j)] == Some(Up(vs, root, c, j - 1))
    ensures NPE(vs, root, c, x, i)[Up(vs, root, c, j)] == Some(DownAt(vs, root, c, j - 1))
  {
    PathAt(vs, root, c, i, j);
  }

  /** The leaving pair is removed from both of its ends. */
  lemma SwappedRemoves(vs: seq<VertexData>, root: nat, c: nat, d: nat, x: nat, i: nat)
    requires Cut(vs, root, c, i)
    ensures Up(vs, root, c, i) != root
    ensures PE(vs, root, Up(vs, root, c, i)) !in SwappedSet(vs, root, c, d, x, i, Up(vs, root, c, i))
    ensures Up(vs, root, c, i + 1) == Par(vs, Up(vs, root, c, i))
    ensures Rev(PE(vs, root, Up(vs, root, c, i))) !in SwappedSet(vs, root, c, d, x, i, Up(vs, root, c, i + 1))
  {
    UpStep(vs, root, c, i);
  }

  /** A kept parent edge `e` of `u`: still `u`'s parent edge, or reversed when `u` is on the path. */
  lemma KeptParentEdge(edges: seq<Edge>, vs: seq<VertexData>, root: nat, c: nat, d: nat, x: nat, i: nat, u: nat, e: nat)
    requires Cut(vs, root, c, i) && u < |vs| && u != root
    requires e < |edges| && edges[e].src == u && edges[e].dst < |vs|
    requires vs[u].parentEdge == Some(e) && vs[u].parent == Some(edges[e].dst)
    requires e in SwappedSet(vs, root, c, d, x, i, u)
    ensures TreeEdgeOk(edges, Swapped(vs, root, c, d, x, i), NP(vs, root, c, d, i), NPE(vs, root, c, x, i), u, e)
  {
    SwappedRemoves(vs, root, c, d, x, i);
    var y := edges[e].dst;
    if u == c || OnPath(vs, root, c, i, u) {
      var j := vs[c].depth - vs[u].depth;
      assert Up(vs, root, c, j) == u;
      assert j < i;
      UpStep(vs, root, c, j);
      NewOnPath(vs, root, c, d, x, i, j + 1);
    } else {
      assert NP(vs, root, c, d, i)[u] == Some(y);
      assert NPE(vs, root, c, x, i)[u] == Some(e);
    }
  }

  /** A kept edge `e` from `u` down to its child `y`: still so, or reversed when `y` is on the path. */
  lemma KeptChildEdge(edges: seq<Edge>, vs: seq<VertexData>, root: nat, c: nat, d: nat, x: nat, i: nat, u: nat, e: nat)
    requires Cut(vs, root, c, i) && u < |vs| && e in SwappedSet(vs, root, c, d, x, i, u)
    requires e < |edges| && edges[e].src == u && edges[e].dst < |vs|
    requires vs[edges[e].dst].parent == Some(u) && vs[edges[e].dst].parentEdge == Some(Rev(e))
    ensures TreeEdgeOk(edges, Swapped(vs, root, c, d, x, i), NP(vs, root, c, d, i), NPE(vs, root, c, x, i), u, e)
  {
    SwappedRemoves(vs, root, c, d, x, i);
    var y := edges[e].dst;
    if y == c || OnPath(vs, root, c, i, y) {
      var j := vs[c].depth - vs[y].depth;
      assert Up(vs, root, c, j) == y;
      RevRev(e);
      assert j < i;
      UpStep(vs, root, c, j);
      NewOnPath(vs, root, c, d, x, i, j + 1);
    } else {
      assert NP(vs, root, c, d, i)[y] == Some(u);
      assert NPE(vs, root, c, x, i)[y] == Some(Rev(e));
    }
  }

  lemma ExchangeTreeEdge(edges: seq<Edge>, vs: seq<VertexData>, root: nat, c: nat, d: nat, x: nat, i: nat, u: nat, e: nat)
    requires ExchangeOk(edges, vs, root, c, d, x, i) && u < |vs|
    requires e in Swapped(vs, root, c, d, x, i)[u].treeEdges
    ensures TreeEdgeOk(edges, Swapped(vs, root, c, d, x, i), NP(vs, root, c, d, i), NPE(vs, root, c, x, i), u, e)
  {
    if u == c && e == x {
      assert NP(vs, root, c, d, i)[c] == Some(d) && NPE(vs, root, c, x, i)[c] == Some(x);
    } else if u == d && e == Rev(x) {
      assert PairedAt(edges, x);
      RevRev(x);
      assert NP(vs, root, c, d, i)[c] == Some(d) && NPE(vs, root, c, x, i)[c] == Some(x);
    } else {
      assert e in vs[u].treeEdges;
      assert TreeEdgeOk(edges, vs, Parents(vs), ParentEdges(vs), u, e);
      if vs[u].parent == Some(edges[e].dst) && vs[u].parentEdge == Some(e) {
        KeptParentEdge(edges, vs, root, c, d, x, i, u, e);
      } else {
        KeptChildEdge(edges, vs, root, c, d, x, i, u, e);
      }
    }
  }

  lemma ExchangeRank(edges: seq<Edge>, vs: seq<VertexData>, root: nat, c: nat, d: nat, x: nat, i: nat, u: nat)
    requires ExchangeOk(edges, vs, root, c, d, x, i) && u < |vs| && NP(vs, root, c, d, i)[u].Some?
    ensures NP(vs, root, c, d, i)[u].value < |vs|
    ensures NR(vs, root, c, d, i)[NP(vs, root, c, d, i)[u].value] < NR(vs, root, c, d, i)[u]
  {
    var w := Up(vs, root, c, i);
    PathAt(vs, root, c, i, i);
    if u == c {
      PathAt(vs, root, c, i, 0);
      PathInSub(vs, root, c, i, c);
    } else if OnPath(vs, root, c, i, u) {
      var j := vs[c].depth - vs[u].depth;
      PathAt(vs, root, c, i, j - 1);
      PathInSub(vs, root, c, i, Up(vs, root, c, j - 1));
      PathInSub(vs, root, c, i, u);
    } else {
      var p := Par(vs, u);
      SubParent(vs, root, u, w);
      if InSub(vs, root, u, w) && OnPath(vs, root, c, i, p) {
        PathInSub(vs, root, c, i, p);
      }
      if !InSub(vs, root, u, w) && OnPath(vs, root, c, i, p) {
        PathInSub(vs, root, c, i, p);
      }
    }
  }

  /** After the swap, the new orientation describes the new `tree_edges` sets and is ranked. */
  lemma Exchange(edges: seq<Edge>, vs: seq<VertexData>, root: nat, c: nat, d: nat, x: nat, i: nat)
    requires ExchangeOk(edges, vs, root, c, d, x, i)
    ensures Setting(edges, Swapped(vs, root, c, d, x, i), d, NP(vs, root, c, d, i), NPE(vs, root, c, x, i), NR(vs, root, c, d, i))
    ensures NPE(vs, root, c, x, i)[d] == vs[d].parentEdge
  {
    var vs' := Swapped(vs, root, c, d, x, i);
    var np, npe, nr := NP(vs, root, c, d, i), NPE(vs, root, c, x, i), NR(vs, root, c, d, i);
    forall u | 0 <= u < |vs'|
      ensures ChildOk(edges, vs', np, npe, u)
    {
      ExchangeChild(edges, vs, root, c, d, x, i, u);
    }
    forall u, e | 0 <= u < |vs'| && e in vs'[u].treeEdges
      ensures TreeEdgeOk(edges, vs', np, npe, u, e)
    {
      ExchangeTreeEdge(edges, vs, root, c, d, x, i, u, e);
    }
    forall u | 0 <= u < |np| && np[u].Some?
      ensures np[u].value < |np| && nr[np[u].value] < nr[u]
    {
      ExchangeRank(edges, vs, root, c, d, x, i, u);
    }
    PathInSubIf(vs, root, c, i, d);
    PathAt(vs, root, c, i, 0);
    PathInSub(vs, root, c, i, c);
  }

  /**
    Every vertex of the reversed path is relabelled by `update_tree(d)`: the
    set `a` of relabelled vertices holds `d` and every vertex whose new
    parent is in `a`.
  */
  lemma {:induction false} PathMoved(vs: seq<VertexData>, root: nat, c: nat, d: nat, i: nat, a: set<nat>, j: nat)
    requires Cut(vs, root, c, i) && d < |vs| && j <= i && d in a
    requires forall w {:trigger NP(vs, root, c, d, i)[w]} :: 0 <= w < |vs| && w != d ==>
               (w in a <==> NP(vs, root, c, d, i)[w].Some? && NP(vs, root, c, d, i)[w].value in a)
    ensures Up(vs, root, c, j) in a
    decreases j
  {
    if j == 0 {
      assert NP(vs, root, c, d, i)[c] == Some(d);
    } else {
      PathMoved(vs, root, c, d, i, a, j - 1);
      NewOnPath(vs, root, c, d, 0, i, j);
    }
  }

  /**
    Relabelling along an orientation that agrees with the old parents on
    every vertex it does not move yields a consistent tree.
  */
  lemma AfterRelabel(edges: seq<Edge>, vs0: seq<VertexData>, vs: seq<VertexData>, root: nat, v0: nat,
                     np: seq<Option<nat>>, npe: seq<Option<nat>>, rank: seq<int>, a: set<nat>)
    requires Setting(edges, vs0, v0, np, npe, rank) && Relabelled(edges, vs0, vs, v0, np, npe, rank, a)
    requires ParentChain(vs0, root) && PotentialsOk(edges, vs0, root) && np[root] == None
    requires npe[v0] == vs0[v0].parentEdge
    requires forall u :: 0 <= u < |vs0| && u !in a ==> np[u] == vs0[u].parent && npe[u] == vs0[u].parentEdge
    ensures TreeOk(edges, vs, root)
    ensures forall u :: 0 <= u < |vs| ==> vs[u].treeEdges == vs0[u].treeEdges
  {
    forall u | 0 <= u < |vs| && (u !in a || u == v0)
      ensures vs[u] == vs0[u] && np[u] == vs0[u].parent && npe[u] == vs0[u].parentEdge
    {
    }
    forall u | 0 <= u < |vs| && u in a && u != v0
      ensures NewLabel(edges, vs0, vs, np, npe, u)
    {
    }
    forall u | 0 <= u < |vs| && u != root
      ensures vs[u].parent == np[u] && vs[u].parentEdge == npe[u] && np[u].Some? && npe[u].Some? &&
              np[u].value < |vs| && npe[u].value < |edges| &&
              vs[u].depth == vs[np[u].value].depth + 1 &&
              edges[npe[u].value].cost + vs[u].potential - vs[np[u].value].potential == 0
    {
      if u !in a || u == v0 {
        var p := Par(vs0, u);
        assert vs0[u].parent.Some? && vs0[u].parentEdge.Some?;
        assert rank[p] < rank[u];
        assert vs[p] == vs0[p];
      }
    }
    assert Parents(vs) == np;
    assert ParentEdges(vs) == npe;
    forall w | 0 <= w < |vs|
      ensures ChildOk(edges, vs, np, npe, w)
    {
      assert ChildOk(edges, vs0, np, npe, w);
    }
    forall u, e | 0 <= u < |vs| && e in vs[u].treeEdges
      ensures TreeEdgeOk(edges, vs, np, npe, u, e)
    {
      assert TreeEdgeOk(edges, vs0, np, npe, u, e);
    }
  }

  /** The swap touches only the `tree_edges` sets: parents, depths and potentials are as before. */
  lemma SwappedChain(edges: seq<Edge>, vs: seq<VertexData>, root: nat, c: nat, d: nat, x: nat, i: nat)
    requires Cut(vs, root, c, i) && PotentialsOk(edges, vs, root)
    ensures ParentChain(Swapped(vs, root, c, d, x, i), root)
    ensures PotentialsOk(edges, Swapped(vs, root, c, d, x, i), root)
  {
    var vs' := Swapped(vs, root, c, d, x, i);
    assert vs'[root] == vs[root].(treeEdges := vs'[root].treeEdges);
    forall v | 0 <= v < |vs| && v != root
      ensures vs'[v].parent == Some(Par(vs', v)) && vs'[v].parentEdge.Some? && Par(vs', v) < |vs'|
      ensures vs'[v].depth == vs'[Par(vs', v)].depth + 1
      ensures vs'[v].parentEdge.value < |edges|
      ensures edges[vs'[v].parentEdge.value].cost + vs'[v].potential - vs'[Par(vs', v)].potential == 0
    {
      var p := Par(vs, v);
      assert vs'[v] == vs[v].(treeEdges := vs'[v].treeEdges);
      assert vs'[p] == vs[p].(treeEdges := vs'[p].treeEdges);
    }
  }

  /** The root is not moved, so it still has no parent. */
  lemma RootKept(vs: seq<VertexData>, root: nat, c: nat, d: nat, i: nat)
    requires Cut(vs, root, c, i)
    ensures NP(vs, root, c, d, i)[root] == None
  {
  }

  /** A vertex that `update_tree(d)` does not relabel keeps its old parent in the new orientation. */
  lemma UnmovedKept(vs: seq<VertexData>, root: nat, c: nat, d: nat, x: nat, i: nat, a: set<nat>)
    requires Cut(vs, root, c, i) && d < |vs| && d in a
    requires forall w {:trigger NP(vs, root, c, d, i)[w]} :: 0 <= w < |vs| && w != d ==>
               (w in a <==> NP(vs, root, c, d, i)[w].Some? && NP(vs, root, c, d, i)[w].value in a)
    ensures forall u :: 0 <= u < |vs| && u !in a ==>
              NP(vs, root, c, d, i)[u] == vs[u].parent && NPE(vs, root, c, x, i)[u] == vs[u].parentEdge
  {
    forall u | 0 <= u < |vs| && u !in a
      ensures NP(vs, root, c, d, i)[u] == vs[u].parent && NPE(vs, root, c, x, i)[u] == vs[u].parentEdge
    {
      if u == c {
        PathMoved(vs, root, c, d, i, a, 0);
      } else if OnPath(vs, root, c, i, u) {
        PathMoved(vs, root, c, d, i, a, vs[c].depth - vs[u].depth);
      }
    }
  }

  /** A tree exchange followed by `update_tree(d)` leaves a consistent tree. */
  lemma ExchangeRelabelled(edges: seq<Edge>, vs: seq<VertexData>, root: nat, c: nat, d: nat, x: nat, i: nat,
                           vsNew: seq<VertexData>, a: set<nat>)
    requires ExchangeOk(edges, vs, root, c, d, x, i)
    requires Relabelled(edges, Swapped(vs, root, c, d, x, i), vsNew, d, NP(vs, root, c, d, i), NPE(vs, root, c, x, i), NR(vs, root, c, d, i), a)
    ensures TreeOk(edges, vsNew, root)
    ensures forall u :: 0 <= u < |vsNew| ==> vsNew[u].treeEdges == SwappedSet(vs, root, c, d, x, i, u)
  {
    var vs' := Swapped(vs, root, c, d, x, i);
    Exchange(edges, vs, root, c, d, x, i);
    SwappedChain(edges, vs, root, c, d, x, i);
    RootKept(vs, root, c, d, i);
    UnmovedKept(vs, root, c, d, x, i, a);
    AfterRelabel(edges, vs', vsNew, root, d, NP(vs, root, c, d, i), NPE(vs, root, c, x, i), NR(vs, root, c, d, i), a);
  }
}
