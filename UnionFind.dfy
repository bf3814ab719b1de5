/**
  Disjoint-set forest with union by size and path halving
  (`data_structure::union_find::UnionFind`).

  The forest is the vector `nodes` of `(parent, size)` records; a node is a
  root when it is its own parent, and only a root's `size` is meaningful.  A
  ghost `rank` that grows strictly along parent links witnesses that every
  walk towards a root ends; it plays no part in what the methods compute.
*/
module UnionFind {

  datatype Node = Node(parent: nat, size: nat)

  /** Parent links stay in range and strictly increase the ghost rank. */
  ghost predicate Ranked(nodes: seq<Node>, rank: seq<nat>) {
    && |rank| == |nodes|
    && (forall i :: 0 <= i < |nodes| ==> nodes[i].parent < |nodes|)
    && (forall i :: 0 <= i < |nodes| && nodes[i].parent != i ==> rank[i] < rank[nodes[i].parent])
  }

  ghost function MaxOf(s: seq<nat>): (r: nat)
    ensures forall i :: 0 <= i < |s| ==> s[i] <= r
  {
    if s == [] then 0 else
      var t := MaxOf(s[1..]);
      assert forall i :: 1 <= i < |s| ==> s[i] == s[1..][i - 1];
      if s[0] > t then s[0] else t
  }

  /** The root reached from `u` by following parent links. */
  ghost function RootOf(nodes: seq<Node>, rank: seq<nat>, u: nat): (r: nat)
    requires Ranked(nodes, rank) && u < |nodes|
    ensures r < |nodes| && nodes[r].parent == r
    ensures nodes[u].parent == u ==> r == u
    decreases MaxOf(rank) - rank[u]
  {
    if nodes[u].parent == u then u else RootOf(nodes, rank, nodes[u].parent)
  }

  /** The elements whose root is `r`. */
  ghost function Component(nodes: seq<Node>, rank: seq<nat>, r: nat): set<nat>
    requires Ranked(nodes, rank)
  {
    set x: nat | x < |nodes| && RootOf(nodes, rank, x) == r
  }

  /** Every root's size is the number of elements in its component. */
  ghost predicate SizesMatch(nodes: seq<Node>, rank: seq<nat>)
    requires Ranked(nodes, rank)
  {
    forall r :: 0 <= r < |nodes| && nodes[r].parent == r ==>
      nodes[r].size == |Component(nodes, rank, r)|
  }

  /** The effect of `join_roots(parent, child)` on the node vector. */
  function JoinNodes(nodes: seq<Node>, parent: nat, child: nat): seq<Node>
    requires parent < |nodes| && child < |nodes|
  {
    nodes[parent := Node(nodes[parent].parent, nodes[parent].size + nodes[child].size)]
         [child := Node(parent, nodes[child].size)]
  }

  ghost function JoinRank(rank: seq<nat>, parent: nat, child: nat): seq<nat>
    requires parent < |rank| && child < |rank|
  {
    rank[parent := if rank[parent] > rank[child] then rank[parent] else rank[child] + 1]
  }

  /** One path-halving step at `u`: its parent becomes its grandparent. */
  function HalveNodes(nodes: seq<Node>, u: nat): seq<Node>
    requires u < |nodes| && nodes[u].parent < |nodes|
  {
    nodes[u := Node(nodes[nodes[u].parent].parent, nodes[u].size)]
  }

  /** Linking root `child` below root `parent` sends exactly `child`'s elements to `parent`. */
  lemma {:induction false} JoinRootOf(nodes: seq<Node>, rank: seq<nat>, parent: nat, child: nat, x: nat)
    requires Ranked(nodes, rank)
    requires parent < |nodes| && child < |nodes| && x < |nodes| && parent != child
    requires nodes[parent].parent == parent && nodes[child].parent == child
    ensures Ranked(JoinNodes(nodes, parent, child), JoinRank(rank, parent, child))
    ensures RootOf(JoinNodes(nodes, parent, child), JoinRank(rank, parent, child), x)
         == (if RootOf(nodes, rank, x) == child then parent else RootOf(nodes, rank, x))
    decreases MaxOf(rank) - rank[x]
  {
    var nodes', rank' := JoinNodes(nodes, parent, child), JoinRank(rank, parent, child);
    assert Ranked(nodes', rank') by {
      forall i | 0 <= i < |nodes'| && nodes'[i].parent != i
        ensures rank'[i] < rank'[nodes'[i].parent]
      {
        if i != child {
          assert nodes'[i].parent == nodes[i].parent;
        }
      }
    }
    if nodes[x].parent == x {
      if x == child {
        assert nodes'[x].parent == parent && nodes'[parent].parent == parent;
        assert RootOf(nodes', rank', parent) == parent;
      }
    } else {
      assert nodes'[x].parent == nodes[x].parent;
      JoinRootOf(nodes, rank, parent, child, nodes[x].parent);
    }
  }

  /** Linking keeps the forest ranked and sends exactly `child`'s elements to `parent`. */
  lemma JoinAll(nodes: seq<Node>, rank: seq<nat>, parent: nat, child: nat)
    requires Ranked(nodes, rank)
    requires parent < |nodes| && child < |nodes| && parent != child
    requires nodes[parent].parent == parent && nodes[child].parent == child
    ensures Ranked(JoinNodes(nodes, parent, child), JoinRank(rank, parent, child))
    ensures forall x :: 0 <= x < |nodes| ==>
      RootOf(JoinNodes(nodes, parent, child), JoinRank(rank, parent, child), x) ==
      (if RootOf(nodes, rank, x) == child then parent else RootOf(nodes, rank, x))
  {
    JoinRootOf(nodes, rank, parent, child, parent);
    forall x | 0 <= x < |nodes|
      ensures RootOf(JoinNodes(nodes, parent, child), JoinRank(rank, parent, child), x)
           == (if RootOf(nodes, rank, x) == child then parent else RootOf(nodes, rank, x))
    {
      JoinRootOf(nodes, rank, parent, child, x);
    }
  }

  /** Linking adds the child's component, disjoint from the parent's, to the parent's size. */
  lemma JoinSizes(nodes: seq<Node>, rank: seq<nat>, parent: nat, child: nat)
    requires Ranked(nodes, rank) && SizesMatch(nodes, rank)
    requires parent < |nodes| && child < |nodes| && parent != child
    requires nodes[parent].parent == parent && nodes[child].parent == child
    ensures Ranked(JoinNodes(nodes, parent, child), JoinRank(rank, parent, child))
    ensures SizesMatch(JoinNodes(nodes, parent, child), JoinRank(rank, parent, child))
  {
    JoinAll(nodes, rank, parent, child);
    var nodes', rank' := JoinNodes(nodes, parent, child), JoinRank(rank, parent, child);
    forall r | 0 <= r < |nodes'| && nodes'[r].parent == r
      ensures nodes'[r].size == |Component(nodes', rank', r)|
    {
      JoinComponent(nodes, rank, parent, child, r);
      if r == parent {
        assert Component(nodes, rank, parent) !! Component(nodes, rank, child);
      }
    }
  }

  /** The components after linking: `parent`'s absorbs `child`'s, the others stay. */
  lemma JoinComponent(nodes: seq<Node>, rank: seq<nat>, parent: nat, child: nat, r: nat)
    requires Ranked(nodes, rank)
    requires parent < |nodes| && child < |nodes| && parent != child && r < |nodes| && r != child
    requires nodes[parent].parent == parent && nodes[child].parent == child
    ensures Ranked(JoinNodes(nodes, parent, child), JoinRank(rank, parent, child))
    ensures Component(JoinNodes(nodes, parent, child), JoinRank(rank, parent, child), r) ==
      if r == parent then Component(nodes, rank, parent) + Component(nodes, rank, child) else Component(nodes, rank, r)
  {
    JoinAll(nodes, rank, parent, child);
  }

  /** A path-halving step never changes any element's root. */
  lemma {:induction false} HalveRootOf(nodes: seq<Node>, rank: seq<nat>, u: nat, x: nat)
    requires Ranked(nodes, rank)
    requires u < |nodes| && x < |nodes|
    ensures Ranked(HalveNodes(nodes, u), rank)
    ensures RootOf(HalveNodes(nodes, u), rank, x) == RootOf(nodes, rank, x)
    decreases MaxOf(rank) - rank[x]
  {
    var nodes' := HalveNodes(nodes, u);
    var p := nodes[u].parent;
    var g := nodes[p].parent;
    assert g != u ==> rank[u] < rank[g] by {
      if p != u && p != g {
        assert rank[u] < rank[p] < rank[g];
      }
    }
    assert Ranked(nodes', rank);
    if nodes[x].parent != x {
      HalveRootOf(nodes, rank, u, nodes[x].parent);
      if x == u && g != p {
        assert RootOf(nodes, rank, p) == RootOf(nodes, rank, g);
        HalveRootOf(nodes, rank, u, g);
      }
    }
  }

  /**
    Two forests over the same ranks agree on every root, on which nodes are
    roots and on every size.
  */
  ghost predicate SameForest(nodes: seq<Node>, nodes': seq<Node>, rank: seq<nat>) {
    && Ranked(nodes, rank) && Ranked(nodes', rank) && |nodes'| == |nodes|
    && (forall x :: 0 <= x < |nodes| ==> RootOf(nodes', rank, x) == RootOf(nodes, rank, x))
    && (forall x :: 0 <= x < |nodes| ==> nodes'[x].size == nodes[x].size)
    && (forall x :: 0 <= x < |nodes| ==> (nodes'[x].parent == x <==> nodes[x].parent == x))
  }

  lemma SameForestTrans(a: seq<Node>, b: seq<Node>, c: seq<Node>, rank: seq<nat>)
    requires SameForest(a, b, rank) && SameForest(b, c, rank)
    ensures SameForest(a, c, rank)
  {
  }

  /** A halving step keeps the forest and climbs strictly in rank. */
  lemma HalveAll(nodes: seq<Node>, rank: seq<nat>, u: nat)
    requires Ranked(nodes, rank) && u < |nodes|
    ensures SameForest(nodes, HalveNodes(nodes, u), rank)
    ensures nodes[u].parent != u ==> rank[u] < rank[nodes[nodes[u].parent].parent]
  {
    forall x | 0 <= x < |nodes|
      ensures RootOf(HalveNodes(nodes, u), rank, x) == RootOf(nodes, rank, x)
    {
      HalveRootOf(nodes, rank, u, x);
    }
    HalveRootOf(nodes, rank, u, u);
    var p := nodes[u].parent;
    if p != u && nodes[p].parent != p {
      assert rank[u] < rank[p] < rank[nodes[p].parent];
    }
  }

  /** Sizes stay matched with components when the forest changes shape only. */
  lemma SizesMatchTransfer(nodes: seq<Node>, nodes': seq<Node>, rank: seq<nat>)
    requires SameForest(nodes, nodes', rank) && SizesMatch(nodes, rank)
    ensures SizesMatch(nodes', rank)
  {
    forall r | 0 <= r < |nodes'| && nodes'[r].parent == r
      ensures nodes'[r].size == |Component(nodes', rank, r)|
    {
      assert Component(nodes', rank, r) == Component(nodes, rank, r);
    }
  }

  class UnionFind {
    var nodes: seq<Node>
    ghost var rank: seq<nat>

    ghost predicate Valid()
      reads this
    {
      Ranked(nodes, rank) && SizesMatch(nodes, rank)
    }

    /** The representative of `u`'s set. */
    ghost function Root(u: nat): (r: nat)
      reads this
      requires Valid() && u < |nodes|
      ensures r < |nodes|
    {
      RootOf(nodes, rank, u)
    }

    /** The elements that share the root `r`. */
    ghost function Members(r: nat): set<nat>
      reads this
      requires Valid()
    {
      Component(nodes, rank, r)
    }

    /** `UnionFind::new(n)`: `n` singleton sets. */
    constructor (n: nat)
      ensures Valid() && |nodes| == n
      ensures forall x :: 0 <= x < n ==> Root(x) == x && nodes[x].size == 1
    {
      nodes := seq(n, i requires 0 <= i => Node(i, 1));
      rank := seq(n, i => 0);
      new;
      forall r | 0 <= r < |nodes| && nodes[r].parent == r
        ensures nodes[r].size == |Component(nodes, rank, r)|
      {
        assert Component(nodes, rank, r) == {r};
      }
    }

    /** `join_roots`: hang root `child` below root `parent` and add its size. */
    method JoinRoots(parent: nat, child: nat)
      requires Valid()
      requires parent < |nodes| && child < |nodes| && parent != child
      requires nodes[parent].parent == parent && nodes[child].parent == child
      modifies this
      ensures Valid()
      ensures nodes == JoinNodes(old(nodes), parent, child)
      ensures forall x :: 0 <= x < |nodes| ==>
        Root(x) == (if old(Root(x)) == child then parent else old(Root(x)))
    {
      JoinAll(nodes, rank, parent, child);
      JoinSizes(nodes, rank, parent, child);
      nodes := JoinNodes(nodes, parent, child);
      rank := JoinRank(rank, parent, child);
    }

    /** `unite`: merge the sets of `u` and `v`, the smaller root going below the larger. */
    method Unite(u: nat, v: nat) returns (merged: bool, r: nat)
      requires Valid() && u < |nodes| && v < |nodes|
      modifies this
      ensures Valid() && |nodes| == old(|nodes|)
      ensures merged <==> old(Root(u)) != old(Root(v))
      ensures !merged ==> r == old(Root(u))
      ensures merged ==> r == (if old(nodes[Root(u)].size) >= old(nodes[Root(v)].size) then old(Root(u)) else old(Root(v)))
      ensures merged ==> nodes[r].size == old(nodes[Root(u)].size) + old(nodes[Root(v)].size)
      ensures forall x :: 0 <= x < |nodes| ==>
        Root(x) == (if old(Root(x)) == old(Root(u)) || old(Root(x)) == old(Root(v)) then r else old(Root(x)))
    {
      var ru := FindMut(u);
      var rv := FindMut(v);
      if ru == rv {
        merged, r := false, ru;
      } else {
        if nodes[ru].size >= nodes[rv].size {
          JoinRoots(ru, rv);
          r := ru;
        } else {
          JoinRoots(rv, ru);
          r := rv;
        }
        merged := true;
      }
    }

    /** `find_mut`: walk to the root, halving the path on the way. */
    method FindMut(u: nat) returns (r: nat)
      requires Valid() && u < |nodes|
      modifies this
      ensures Valid() && |nodes| == old(|nodes|)
      ensures r == old(Root(u))
      ensures forall x :: 0 <= x < |nodes| ==> Root(x) == old(Root(x))
      ensures forall x :: 0 <= x < |nodes| ==> nodes[x].size == old(nodes[x].size)
      ensures forall x :: 0 <= x < |nodes| ==> (nodes[x].parent == x <==> old(nodes[x].parent) == x)
    {
      ghost var nodes0 := nodes;
      r := u;
      while nodes[r].parent != r
        invariant Ranked(nodes, rank) && |nodes| == |nodes0| && rank == old(rank)
        invariant r < |nodes| && RootOf(nodes, rank, r) == RootOf(nodes0, rank, u)
        invariant SameForest(nodes0, nodes, rank)
        decreases MaxOf(rank) - rank[r]
      {
        ghost var nodes1 := nodes;
        var grandParent := nodes[nodes[r].parent].parent;
        HalveAll(nodes1, rank, r);
        nodes := nodes[r := Node(grandParent, nodes[r].size)];
        assert nodes == HalveNodes(nodes1, r);
        SameForestTrans(nodes0, nodes1, nodes, rank);
        r := grandParent;
      }
      SizesMatchTransfer(nodes0, nodes, rank);
    }

    /** `find`: walk to the root without changing anything. */
    method Find(u: nat) returns (r: nat)
      requires Valid() && u < |nodes|
      ensures r == Root(u)
    {
      r := u;
      while nodes[r].parent != r
        invariant r < |nodes| && RootOf(nodes, rank, r) == Root(u)
        decreases MaxOf(rank) - rank[r]
      {
        r := nodes[r].parent;
      }
    }

    /** `same_mut`. */
    method SameMut(u: nat, v: nat) returns (b: bool)
      requires Valid() && u < |nodes| && v < |nodes|
      modifies this
      ensures Valid() && |nodes| == old(|nodes|)
      ensures b <==> old(Root(u)) == old(Root(v))
      ensures forall x :: 0 <= x < |nodes| ==> Root(x) == old(Root(x))
    {
      var ru := FindMut(u);
      var rv := FindMut(v);
      b := ru == rv;
    }

    /** `same`. */
    method Same(u: nat, v: nat) returns (b: bool)
      requires Valid() && u < |nodes| && v < |nodes|
      ensures b <==> Root(u) == Root(v)
    {
      var ru := Find(u);
      var rv := Find(v);
      b := ru == rv;
    }

    /** `is_empty`. */
    method IsEmpty() returns (b: bool)
      ensures b <==> |nodes| == 0
    {
      b := |nodes| == 0;
    }

    /** `len`: the number of elements. */
    method Len() returns (n: nat)
      ensures n == |nodes|
    {
      n := |nodes|;
    }

    /** `component_len`: the number of elements in `u`'s set. */
    method ComponentLen(u: nat) returns (n: nat)
      requires Valid() && u < |nodes|
      ensures n == |Members(Root(u))|
    {
      var r := Find(u);
      n := nodes[r].size;
    }

    /** `component_len_mut`. */
    method ComponentLenMut(u: nat) returns (n: nat)
      requires Valid() && u < |nodes|
      modifies this
      ensures Valid() && |nodes| == old(|nodes|)
      ensures forall x :: 0 <= x < |nodes| ==> Root(x) == old(Root(x))
      ensures n == |Members(Root(u))|
    {
      var r := FindMut(u);
      n := nodes[r].size;
    }
  }

  /** The unit test's sequence of operations and the answers it expects. */
  method UniteScenario() returns (firstMerged: bool, sameAfterFirst: bool, apartAfterFirst: bool,
                                  secondMerged: bool, sameAfterSecond: bool, thirdMerged: bool)
    ensures firstMerged && sameAfterFirst && !apartAfterFirst
    ensures secondMerged && sameAfterSecond && !thirdMerged
  {
    var uf := new UnionFind(5);
    var r3 := uf.Find(3);
    assert r3 == 3;
    var r1: nat;
    firstMerged, r1 := uf.Unite(2, 3);
    sameAfterFirst := uf.Same(2, 3);
    apartAfterFirst := uf.Same(1, 2);
    var r2: nat;
    secondMerged, r2 := uf.Unite(1, 3);
    sameAfterSecond := uf.SameMut(1, 2);
    var r3b: nat;
    thirdMerged, r3b := uf.Unite(1, 2);
  }
}
