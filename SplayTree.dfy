/**
  The handle operations of `data_structure::splay_tree` on values: a tree
  handle is the root of its tree (`Nil` for the empty handle), and every
  operation returns the trees it leaves behind.  Descents go down from the
  root recording the path, pushing each node they enter, and end by
  splaying the node they found.
*/
module SplayTree {
  import opened SplayCore
  import opened Wrappers

  /** The ancestor frame left behind when going from `node` to its child on side `dir`. */
  function Down<V, A>(node: Tree<V, A>, dir: Dir): Frame<V, A>
    requires node.Node?
  {
    Frame(dir, node.key, node.value, node.len, node.rev, node.acc, if dir == Right then node.l else node.r)
  }

  /** The child on side `dir`. */
  function Child<V, A>(node: Tree<V, A>, dir: Dir): Tree<V, A>
    requires node.Node?
  {
    if dir == Right then node.r else node.l
  }

  /** What a zipper knows about its focus, a pushed node. */
  lemma Focus<V(!new), A(!new)>(o: Ops<V, A>, x: Tree<V, A>, path: seq<Frame<V, A>>)
    requires Zipper(o, x, path) && !x.rev
    ensures Valid(o, x) && Size(x.l) == |Seq(x.l)| && Size(x.r) == |Seq(x.r)|
    ensures |Seq(Plug(x, path))| == |Before(path)| + |Seq(x.l)| + 1 + |Seq(x.r)| + |After(path)|
    ensures Seq(Plug(x, path))[|Before(path)| + |Seq(x.l)|] == Item(x.key, x.value)
  {
    PlugValid(o, x, path);
    SizeSeq(o, x.l);
    SizeSeq(o, x.r);
    PlugSeq(x, path);
    Pieces(Before(path), Seq(x.l), Item(x.key, x.value), Seq(x.r), After(path));
  }

  /** The middle item of a sequence made of five pieces. */
  lemma Pieces<T>(a: seq<T>, b: seq<T>, x: T, c: seq<T>, d: seq<T>)
    ensures var s := a + (b + [x] + c) + d; var m := |a| + |b|;
      && |s| == |a| + |b| + 1 + |c| + |d| && s[m] == x
  {
    var s := a + (b + [x] + c) + d;
    assert s == (a + b) + [x] + (c + d);
  }

  /** One step of a descent: leave a frame behind and push the child. */
  lemma DownStep<V(!new), A(!new)>(o: Ops<V, A>, x: Tree<V, A>, path: seq<Frame<V, A>>, dir: Dir)
    requires Lawful(o) && Zipper(o, x, path) && !x.rev && Child(x, dir).Node?
    ensures var c := Push(o, Child(x, dir)); var q := path + [Down(x, dir)];
      && Zipper(o, c, q) && !c.rev && Seq(Plug(c, q)) == Seq(Plug(x, path))
      && Seq(c) == Seq(Child(x, dir)) && |Seq(c)| < |Seq(x)|
      && Before(q) == Before(path) + (if dir == Right then Seq(x.l) + [Item(x.key, x.value)] else [])
      && After(q) == (if dir == Left then [Item(x.key, x.value)] + Seq(x.r) else []) + After(path)
  {
    var f := Down(x, dir);
    var child := Child(x, dir);
    PlugSnoc(child, path, f);
    assert Attach(f, child) == x;
    PlugValid(o, child, path + [f]);
    PushSpec(o, child);
    PlugSame(o, child, Push(o, child), path + [f]);
  }

  /**
    The descent of `Node::rightmost`, corrected to push each node before
    reading its right child (the source reads the stored links unpushed;
    see RightmostAsWritten): the zipper at the last item.
  */
  method RightmostPath<V(!new), A(!new)>(o: Ops<V, A>, t: Tree<V, A>) returns (x: Tree<V, A>, path: seq<Frame<V, A>>)
    requires Lawful(o) && Valid(o, t) && t.Node?
    ensures Zipper(o, x, path) && Seq(Plug(x, path)) == Seq(t)
    ensures |Before(path)| + Pos(x) == |Seq(t)| - 1
  {
    PushSpec(o, t);
    x, path := Push(o, t), [];
    while x.r.Node?
      invariant Zipper(o, x, path) && !x.rev && Seq(Plug(x, path)) == Seq(t) && After(path) == []
      decreases |Seq(x)|
    {
      DownStep(o, x, path, Right);
      x, path := Push(o, x.r), path + [Down(x, Right)];
    }
    Focus(o, x, path);
  }

  /**
    The descent of `Node::leftmost`, corrected to push each node before
    reading its left child (the source reads the stored links unpushed;
    see LeftmostAsWritten): the zipper at the first item.
  */
  method LeftmostPath<V(!new), A(!new)>(o: Ops<V, A>, t: Tree<V, A>) returns (x: Tree<V, A>, path: seq<Frame<V, A>>)
    requires Lawful(o) && Valid(o, t) && t.Node?
    ensures Zipper(o, x, path) && Seq(Plug(x, path)) == Seq(t)
    ensures |Before(path)| + Pos(x) == 0
  {
    PushSpec(o, t);
    x, path := Push(o, t), [];
    while x.l.Node?
      invariant Zipper(o, x, path) && !x.rev && Seq(Plug(x, path)) == Seq(t) && Before(path) == []
      decreases |Seq(x)|
    {
      DownStep(o, x, path, Left);
      x, path := Push(o, x.l), path + [Down(x, Left)];
    }
    Focus(o, x, path);
  }

  /** `Node::join`: splay `lhs`, splay its last item to the root, hang `rhs` as its right child and pull. */
  method Join<V(!new), A(!new)>(o: Ops<V, A>, lhs: Tree<V, A>, rhs: Tree<V, A>) returns (t: Tree<V, A>)
    requires Lawful(o) && Valid(o, lhs) && Valid(o, rhs) && lhs.Node? && rhs.Node?
    ensures Valid(o, t) && t.Node? && Seq(t) == Seq(lhs) + Seq(rhs)
  {
    var root := Splay(o, lhs, []);
    var x, path := RightmostPath(o, root);
    var top := Splay(o, x, path);
    var r := Splay(o, rhs, []);
    assert Seq(top.r) == [] by {
      SeqClean(top);
    }
    t := Pull(o, top.l, top.key, top.value, r);
    PullSpec(o, top.l, top.key, top.value, r);
    assert Seq(top) == Seq(top.l) + [Item(top.key, top.value)];
  }

  /** `Node::cut_left_child` on a pushed node: the left subtree, and the node without it. */
  function CutLeft<V(!new), A(!new)>(o: Ops<V, A>, t: Tree<V, A>): (Tree<V, A>, Tree<V, A>)
    requires t.Node?
  {
    if t.l.Nil? then (Nil, t) else (t.l, Pull(o, Nil, t.key, t.value, t.r))
  }

  /** `Node::cut_right_child` on a pushed node: the node without its right subtree, and that subtree. */
  function CutRight<V(!new), A(!new)>(o: Ops<V, A>, t: Tree<V, A>): (Tree<V, A>, Tree<V, A>)
    requires t.Node?
  {
    if t.r.Nil? then (t, Nil) else (Pull(o, t.l, t.key, t.value, Nil), t.r)
  }

  /** Cutting the left child splits the sequence before the node's item. */
  lemma CutLeftSpec<V(!new), A(!new)>(o: Ops<V, A>, t: Tree<V, A>)
    requires Lawful(o) && Valid(o, t) && t.Node? && !t.rev
    ensures Valid(o, CutLeft(o, t).0) && Valid(o, CutLeft(o, t).1) && CutLeft(o, t).1.Node?
    ensures Seq(CutLeft(o, t).0) == Seq(t.l) && Seq(CutLeft(o, t).1) == [Item(t.key, t.value)] + Seq(t.r)
  {
    if t.l.Node? {
      PullSpec(o, Nil, t.key, t.value, t.r);
      assert [] + [Item(t.key, t.value)] + Seq(t.r) == [Item(t.key, t.value)] + Seq(t.r);
    } else {
      SeqClean(t);
      assert [] + [Item(t.key, t.value)] + Seq(t.r) == [Item(t.key, t.value)] + Seq(t.r);
    }
  }

  /** Cutting the right child splits the sequence after the node's item. */
  lemma CutRightSpec<V(!new), A(!new)>(o: Ops<V, A>, t: Tree<V, A>)
    requires Lawful(o) && Valid(o, t) && t.Node? && !t.rev
    ensures Valid(o, CutRight(o, t).0) && Valid(o, CutRight(o, t).1) && CutRight(o, t).0.Node?
    ensures Seq(CutRight(o, t).0) == Seq(t.l) + [Item(t.key, t.value)] && Seq(CutRight(o, t).1) == Seq(t.r)
  {
    if t.r.Node? {
      PullSpec(o, t.l, t.key, t.value, Nil);
      assert Seq(t.l) + [Item(t.key, t.value)] + [] == Seq(t.l) + [Item(t.key, t.value)];
    } else {
      SeqClean(t);
      assert Seq(t.l) + [Item(t.key, t.value)] + [] == Seq(t.l) + [Item(t.key, t.value)];
    }
  }

  /** `Trees::singleton_tree`: a one-item tree. */
  function Singleton<V(!new), A(!new)>(o: Ops<V, A>, key: int, value: V): (t: Tree<V, A>)
    requires Monoid(o)
    ensures Valid(o, t) && Seq(t) == [Item(key, value)]
  {
    CreateSpec(o, key, value);
    Create(o, key, value)
  }

  /** `TreeHandle::is_empty`. */
  predicate IsEmpty<V(!new), A(!new)>(t: Tree<V, A>)
    ensures IsEmpty(t) <==> Seq(t) == []
  {
    t.Nil?
  }

  /** `SeqHandle::concat`: `lhs ++ rhs`; when one side is empty, the other one itself. */
  method Concat<V(!new), A(!new)>(o: Ops<V, A>, lhs: Tree<V, A>, rhs: Tree<V, A>) returns (t: Tree<V, A>)
    requires Lawful(o) && Valid(o, lhs) && Valid(o, rhs)
    ensures Valid(o, t) && Seq(t) == Seq(lhs) + Seq(rhs)
    ensures lhs.Nil? ==> t == rhs
    ensures rhs.Nil? ==> t == lhs
  {
    if lhs.Node? && rhs.Node? {
      t := Join(o, lhs, rhs);
    } else if lhs.Node? {
      t := lhs;
    } else {
      t := rhs;
    }
  }

  /** `SeqHandle::reverse`: splay the root and toggle its `rev`; the sequence reads backwards. */
  method Reverse<V(!new), A(!new)>(o: Ops<V, A>, t: Tree<V, A>) returns (u: Tree<V, A>)
    requires Lawful(o) && Valid(o, t)
    ensures Valid(o, u) && Seq(u) == Reversed(Seq(t))
  {
    if t.Nil? {
      u := Nil;
    } else {
      var s := Splay(o, t, []);
      u := s.(rev := !s.rev);
    }
  }

  /** `TreeHandle::len`. */
  method Len<V(!new), A(!new)>(o: Ops<V, A>, t: Tree<V, A>) returns (n: nat)
    requires Lawful(o) && Valid(o, t)
    ensures n == |Seq(t)|
  {
    if t.Nil? {
      n := 0;
    } else {
      var s := Splay(o, t, []);
      SizeSeq(o, s);
      n := s.len;
    }
  }

  /** `TreeHandle::all_product`: the product of the whole sequence. */
  method AllProduct<V(!new), A(!new)>(o: Ops<V, A>, t: Tree<V, A>) returns (r: Option<A>)
    requires Lawful(o) && Valid(o, t)
    ensures t.Nil? ==> r == None
    ensures t.Node? ==> r == Some(Prod(o, Seq(t)))
  {
    if t.Nil? {
      r := None;
    } else {
      var s := Splay(o, t, []);
      r := Some(s.acc);
    }
  }

  /** `TreeHandle::leftmost`: the first item; the tree comes back with that item at the root. */
  method Leftmost<V(!new), A(!new)>(o: Ops<V, A>, t: Tree<V, A>) returns (r: Option<Item<V>>, u: Tree<V, A>)
    requires Lawful(o) && Valid(o, t)
    ensures Valid(o, u) && Seq(u) == Seq(t)
    ensures t.Nil? ==> r == None
    ensures t.Node? ==> r == Some(Seq(t)[0])
  {
    if t.Nil? {
      r, u := None, Nil;
    } else {
      var root := Splay(o, t, []);
      var x, path := LeftmostPath(o, root);
      u := Splay(o, x, path);
      PosItem(u);
      r := Some(Item(u.key, u.value));
    }
  }

  /** `TreeHandle::rightmost`: the last item; the tree comes back with that item at the root. */
  method Rightmost<V(!new), A(!new)>(o: Ops<V, A>, t: Tree<V, A>) returns (r: Option<Item<V>>, u: Tree<V, A>)
    requires Lawful(o) && Valid(o, t)
    ensures Valid(o, u) && Seq(u) == Seq(t)
    ensures t.Nil? ==> r == None
    ensures t.Node? ==> r == Some(Seq(t)[|Seq(t)| - 1])
  {
    if t.Nil? {
      r, u := None, Nil;
    } else {
      var root := Splay(o, t, []);
      var x, path := RightmostPath(o, root);
      u := Splay(o, x, path);
      PosItem(u);
      r := Some(Item(u.key, u.value));
    }
  }

  /** The descent of `split_by_size`: `s` items lie left of the current node; stop where `s + len(l) + 1 == k`. */
  method KthPath<V(!new), A(!new)>(o: Ops<V, A>, t: Tree<V, A>, k: nat) returns (x: Tree<V, A>, path: seq<Frame<V, A>>)
    requires Lawful(o) && Valid(o, t) && t.Node? && 0 < k <= |Seq(t)|
    ensures Zipper(o, x, path) && Seq(Plug(x, path)) == Seq(t)
    ensures |Before(path)| + Pos(x) == k - 1
  {
    PushSpec(o, t);
    x, path := Push(o, t), [];
    var s := 0;
    Focus(o, x, path);
    while s + Size(x.l) + 1 != k
      invariant Zipper(o, x, path) && !x.rev && Seq(Plug(x, path)) == Seq(t)
      invariant s == |Before(path)| && s < k <= s + |Seq(x)|
      invariant Size(x.l) == |Seq(x.l)| && |Seq(x)| == |Seq(x.l)| + 1 + |Seq(x.r)|
      decreases |Seq(x)|
    {
      if s + Size(x.l) + 1 < k {
        DownStep(o, x, path, Right);
        s := s + Size(x.l) + 1;
        x, path := Push(o, x.r), path + [Down(x, Right)];
      } else {
        DownStep(o, x, path, Left);
        x, path := Push(o, x.l), path + [Down(x, Left)];
      }
      Focus(o, x, path);
    }
  }

  /**
    `TreeHandle::split_by_size`: the first `k` items and the rest.  The
    source asserts `k <= len`.
  */
  method SplitBySize<V(!new), A(!new)>(o: Ops<V, A>, t: Tree<V, A>, k: nat) returns (a: Tree<V, A>, b: Tree<V, A>)
    requires Lawful(o) && Valid(o, t) && k <= |Seq(t)|
    ensures Valid(o, a) && Valid(o, b)
    ensures Seq(a) == Seq(t)[..k] && Seq(b) == Seq(t)[k..]
  {
    var n := Len(o, t);
    if t.Nil? {
      return Nil, Nil;
    }
    if k == 0 {
      return Nil, t;
    }
    if k == n {
      return t, Nil;
    }
    var root := Splay(o, t, []);
    var x, path := KthPath(o, root, k);
    var top := Splay(o, x, path);
    CutRightSpec(o, top);
    a, b := CutRight(o, top).0, CutRight(o, top).1;
    SeqClean(top);
  }

  /** `pred` holds on a prefix of `s` and fails on the rest. */
  ghost predicate Monotone<V>(pred: int -> bool, s: seq<Item<V>>) {
    forall i, j :: 0 <= i < j < |s| && pred(s[j].key) ==> pred(s[i].key)
  }

  /**
    The descent of `partition_with_key`: right while the predicate holds,
    left while it fails.  On a prefix-closed predicate it holds exactly
    on the first `c` items, `c` counting the reached item when it holds.
  */
  method PartitionPath<V(!new), A(!new)>(o: Ops<V, A>, t: Tree<V, A>, pred: int -> bool)
    returns (x: Tree<V, A>, path: seq<Frame<V, A>>, ghost c: nat)
    requires Lawful(o) && Valid(o, t) && t.Node?
    ensures Zipper(o, x, path) && Seq(Plug(x, path)) == Seq(t)
    ensures c == |Before(path)| + Pos(x) + (if pred(x.key) then 1 else 0) && c <= |Seq(t)|
    ensures Monotone(pred, Seq(t)) ==>
      && (forall i :: 0 <= i < c ==> pred(Seq(t)[i].key))
      && (forall i :: c <= i < |Seq(t)| ==> !pred(Seq(t)[i].key))
  {
    PushSpec(o, t);
    x, path := Push(o, t), [];
    ghost var S := Seq(t);
    ghost var mono := Monotone(pred, S);
    while (pred(x.key) && x.r.Node?) || (!pred(x.key) && x.l.Node?)
      invariant Zipper(o, x, path) && !x.rev && Seq(Plug(x, path)) == S
      invariant mono ==> Split(pred, S, |Before(path)|, |S| - |After(path)|)
      decreases |Seq(x)|
    {
      PartitionFocus(o, pred, S, x, path);
      if pred(x.key) {
        DownStep(o, x, path, Right);
        x, path := Push(o, x.r), path + [Down(x, Right)];
      } else {
        DownStep(o, x, path, Left);
        x, path := Push(o, x.l), path + [Down(x, Left)];
      }
    }
    PartitionFocus(o, pred, S, x, path);
    c := |Before(path)| + |Seq(x.l)| + (if pred(x.key) then 1 else 0);
  }

  /**
    One node of the descent of `partition_with_key`: the reached item sits at
    `m`, and the predicate's value there narrows the undecided range.
  */
  lemma PartitionFocus<V(!new), A(!new)>(o: Ops<V, A>, pred: int -> bool, S: seq<Item<V>>, x: Tree<V, A>, path: seq<Frame<V, A>>)
    requires Zipper(o, x, path) && !x.rev && Seq(Plug(x, path)) == S
    requires Monotone(pred, S) ==> Split(pred, S, |Before(path)|, |S| - |After(path)|)
    ensures var m := |Before(path)| + |Seq(x.l)|;
      && m < |S| && S[m] == Item(x.key, x.value)
      && |S| == m + 1 + |Seq(x.r)| + |After(path)|
      && (Monotone(pred, S) && pred(x.key) ==> Split(pred, S, m + 1, |S| - |After(path)|))
      && (Monotone(pred, S) && !pred(x.key) ==> Split(pred, S, |Before(path)|, m))
  {
    Focus(o, x, path);
    SplitAt(pred, S, |Before(path)|, |Before(path)| + |Seq(x.l)|, |S| - |After(path)|);
  }

  /** The predicate's value at `m` narrows the undecided range `lo..hi` to one side of `m`. */
  lemma SplitAt<V>(pred: int -> bool, s: seq<Item<V>>, lo: int, m: nat, hi: int)
    requires m < |s| && (Monotone(pred, s) ==> Split(pred, s, lo, hi))
    ensures Monotone(pred, s) && pred(s[m].key) ==> Split(pred, s, m + 1, hi)
    ensures Monotone(pred, s) && !pred(s[m].key) ==> Split(pred, s, lo, m)
  {
    if Monotone(pred, s) {
      if pred(s[m].key) {
        SplitRight(pred, s, lo, m, hi);
      } else {
        SplitLeft(pred, s, lo, m, hi);
      }
    }
  }

  /** `pred` holds on the items before `lo` and fails on those from `hi` on. */
  ghost predicate Split<V>(pred: int -> bool, s: seq<Item<V>>, lo: int, hi: int) {
    && (forall i :: 0 <= i < lo && i < |s| ==> pred(s[i].key))
    && (forall i :: 0 <= i < |s| && hi <= i ==> !pred(s[i].key))
  }

  /** Where the predicate holds on the item at `m`, it holds on everything up to it. */
  lemma SplitRight<V>(pred: int -> bool, s: seq<Item<V>>, lo: int, m: nat, hi: int)
    requires Monotone(pred, s) && Split(pred, s, lo, hi) && m < |s| && pred(s[m].key)
    ensures Split(pred, s, m + 1, hi)
  {
    MonotoneBefore(pred, s, m);
  }

  /** Where the predicate fails on the item at `m`, it fails on everything from it on. */
  lemma SplitLeft<V>(pred: int -> bool, s: seq<Item<V>>, lo: int, m: nat, hi: int)
    requires Monotone(pred, s) && Split(pred, s, lo, hi) && m < |s| && !pred(s[m].key)
    ensures Split(pred, s, lo, m)
  {
    MonotoneAfter(pred, s, m);
  }

  lemma MonotoneBefore<V>(pred: int -> bool, s: seq<Item<V>>, m: nat)
    requires Monotone(pred, s) && m < |s| && pred(s[m].key)
    ensures forall i :: 0 <= i <= m ==> pred(s[i].key)
  {
    forall i | 0 <= i < m ensures pred(s[i].key) {
    }
  }

  lemma MonotoneAfter<V>(pred: int -> bool, s: seq<Item<V>>, m: nat)
    requires Monotone(pred, s) && m < |s| && !pred(s[m].key)
    ensures forall i :: m <= i < |s| ==> !pred(s[i].key)
  {
    forall i | m < i < |s| ensures !pred(s[i].key) {
    }
  }

  /**
    `TreeHandle::partition_with_key`: the tree cut where `pred` stops
    holding.  The two parts always make up the sequence; for a predicate
    that holds on a prefix they are that prefix and the rest.
  */
  method PartitionWithKey<V(!new), A(!new)>(o: Ops<V, A>, t: Tree<V, A>, pred: int -> bool) returns (a: Tree<V, A>, b: Tree<V, A>)
    requires Lawful(o) && Valid(o, t)
    ensures Valid(o, a) && Valid(o, b) && Seq(a) + Seq(b) == Seq(t)
    ensures Monotone(pred, Seq(t)) ==>
      && (forall i :: 0 <= i < |Seq(a)| ==> pred(Seq(a)[i].key))
      && (forall i :: 0 <= i < |Seq(b)| ==> !pred(Seq(b)[i].key))
  {
    if t.Nil? {
      return Nil, Nil;
    }
    var root := Splay(o, t, []);
    var x, path, c := PartitionPath(o, root, pred);
    var top := Splay(o, x, path);
    SeqClean(top);
    if pred(x.key) {
      CutRightSpec(o, top);
      a, b := CutRight(o, top).0, CutRight(o, top).1;
    } else {
      CutLeftSpec(o, top);
      a, b := CutLeft(o, top).0, CutLeft(o, top).1;
      Regroup3(Seq(top.l), Item(top.key, top.value), Seq(top.r));
    }
    if Monotone(pred, Seq(t)) {
      SplitParts(pred, Seq(t), Seq(a), Seq(b), c);
    }
  }

  lemma Regroup3<T>(a: seq<T>, x: T, b: seq<T>)
    ensures a + ([x] + b) == a + [x] + b
  {
  }

  /** A cut at `c` of a sequence whose predicate holds exactly before `c`. */
  lemma SplitParts<V>(pred: int -> bool, s: seq<Item<V>>, a: seq<Item<V>>, b: seq<Item<V>>, c: nat)
    requires s == a + b && |a| == c
    requires forall i :: 0 <= i < c ==> pred(s[i].key)
    requires forall i :: c <= i < |s| ==> !pred(s[i].key)
    ensures forall i :: 0 <= i < |a| ==> pred(a[i].key)
    ensures forall i :: 0 <= i < |b| ==> !pred(b[i].key)
  {
    assert forall i :: 0 <= i < |a| ==> a[i] == s[i];
    assert forall i :: 0 <= i < |b| ==> b[i] == s[c + i];
  }

  /** The keys of `s` never decrease. */
  ghost predicate Sorted<V>(s: seq<Item<V>>) {
    forall i, j :: 0 <= i < j < |s| ==> s[i].key <= s[j].key
  }

  lemma SortedSplit<V>(a: seq<Item<V>>, b: seq<Item<V>>)
    requires Sorted(a + b)
    ensures Sorted(a) && Sorted(b)
  {
    assert forall i :: 0 <= i < |a| ==> a[i] == (a + b)[i];
    assert forall i :: 0 <= i < |b| ==> b[i] == (a + b)[|a| + i];
  }

  lemma SortedJoin<V>(a: seq<Item<V>>, b: seq<Item<V>>, pivot: int)
    requires Sorted(a) && Sorted(b)
    requires forall i :: 0 <= i < |a| ==> a[i].key <= pivot
    requires forall i :: 0 <= i < |b| ==> pivot <= b[i].key
    ensures Sorted(a + b)
  {
  }

  /** Every key in `s` is at least `pivot`. */
  ghost predicate AtLeast<V>(s: seq<Item<V>>, pivot: int) {
    forall i :: 0 <= i < |s| ==> pivot <= s[i].key
  }

  lemma AtLeastMultiset<V>(s: seq<Item<V>>, a: seq<Item<V>>, b: seq<Item<V>>, pivot: int)
    requires multiset(s) == multiset(a) + multiset(b) && AtLeast(a, pivot) && AtLeast(b, pivot)
    ensures AtLeast(s, pivot)
  {
    forall i | 0 <= i < |s| ensures pivot <= s[i].key {
      assert s[i] in multiset(s);
      assert s[i] in a || s[i] in b;
    }
  }

  /**
    `TreeHandle::meld` of two key-sorted trees: take the tree whose first
    key is smaller, split off its items with keys up to the other's first
    key, meld the rest with the other tree and join.  The result is sorted
    and holds every item of both.
  */
  method Meld<V(!new), A(!new)>(o: Ops<V, A>, lhs: Tree<V, A>, rhs: Tree<V, A>) returns (t: Tree<V, A>)
    requires Lawful(o) && Valid(o, lhs) && Valid(o, rhs) && Sorted(Seq(lhs)) && Sorted(Seq(rhs))
    ensures Valid(o, t) && Sorted(Seq(t))
    ensures multiset(Seq(t)) == multiset(Seq(lhs)) + multiset(Seq(rhs))
    decreases |Seq(lhs)| + |Seq(rhs)|, 3
  {
    if IsEmpty(lhs) {
      return rhs;
    }
    if IsEmpty(rhs) {
      return lhs;
    }
    t := MeldNonEmpty(o, lhs, rhs);
  }

  /** The body of `meld` once both trees are known to be non-empty. */
  method MeldNonEmpty<V(!new), A(!new)>(o: Ops<V, A>, lhs: Tree<V, A>, rhs: Tree<V, A>) returns (t: Tree<V, A>)
    requires Lawful(o) && Valid(o, lhs) && Valid(o, rhs) && Sorted(Seq(lhs)) && Sorted(Seq(rhs))
    requires lhs.Node? && rhs.Node?
    ensures Valid(o, t) && Sorted(Seq(t))
    ensures multiset(Seq(t)) == multiset(Seq(lhs)) + multiset(Seq(rhs))
    decreases |Seq(lhs)| + |Seq(rhs)|, 2
  {
    var a, b, pivot := MeldPivot(o, lhs, rhs);
    t := MeldPartition(o, a, b, pivot);
  }

  /**
    The middle of `meld`: split `a` into its items with keys up to `pivot`,
    the first key of `b`, and the rest.
  */
  method MeldPartition<V(!new), A(!new)>(o: Ops<V, A>, a: Tree<V, A>, b: Tree<V, A>, pivot: int) returns (t: Tree<V, A>)
    requires Lawful(o) && Valid(o, a) && Valid(o, b) && Sorted(Seq(a)) && Sorted(Seq(b))
    requires |Seq(a)| > 0 && |Seq(b)| > 0 && Seq(a)[0].key <= pivot && Seq(b)[0].key == pivot
    ensures Valid(o, t) && Sorted(Seq(t))
    ensures multiset(Seq(t)) == multiset(Seq(a)) + multiset(Seq(b))
    decreases |Seq(a)| + |Seq(b)|, 1
  {
    var pred := (k: int) => k <= pivot;
    SortedMonotone(Seq(a), pred, pivot);
    var smaller, larger := PartitionWithKey(o, a, pred);
    MeldSplit(Seq(a), Seq(smaller), Seq(larger), pivot);
    t := MeldRest(o, b, smaller, larger, pivot);
    assert multiset(Seq(a)) == multiset(Seq(smaller)) + multiset(Seq(larger)) by {
      assert Seq(a) == Seq(smaller) + Seq(larger);
    }
  }

  /**
    What the end of `meld` starts from: `b` is sorted and starts at `pivot`,
    `smaller` and `larger` are sorted and lie at or below and strictly above
    `pivot` respectively.
  */
  ghost predicate RestParts<V>(sb: seq<Item<V>>, smaller: seq<Item<V>>, larger: seq<Item<V>>, pivot: int) {
    && Sorted(sb) && Sorted(smaller) && Sorted(larger)
    && |sb| > 0 && sb[0].key == pivot
    && (forall i :: 0 <= i < |smaller| ==> smaller[i].key <= pivot)
    && (forall i :: 0 <= i < |larger| ==> pivot < larger[i].key)
  }

  /**
    The end of `meld`: meld the part of `a` above `pivot` with `b` and
    join the part of `a` up to `pivot` in front.
  */
  method MeldRest<V(!new), A(!new)>(o: Ops<V, A>, b: Tree<V, A>, smaller: Tree<V, A>, larger: Tree<V, A>, pivot: int)
    returns (t: Tree<V, A>)
    requires Lawful(o) && Valid(o, b) && Valid(o, smaller) && Valid(o, larger)
    requires smaller.Node? && RestParts(Seq(b), Seq(smaller), Seq(larger), pivot)
    ensures Valid(o, t) && Sorted(Seq(t))
    ensures multiset(Seq(t)) == multiset(Seq(smaller)) + multiset(Seq(larger)) + multiset(Seq(b))
    decreases |Seq(b)| + |Seq(larger)|, 4
  {
    var rest := Meld(o, b, larger);
    MeldOrder(Seq(b), Seq(smaller), Seq(larger), Seq(rest), pivot);
    // `smaller` holds the first item of `a` and `rest` every item of `b`,
    // so the source's fallback `smaller.0.or(larger.0)` is never reached.
    t := Join(o, smaller, rest);
  }

  /**
    The choice `meld` makes between two non-empty item sequences `l` and `r`:
    the one with the smaller first key (`l` on a tie) becomes `sa`, the
    other `sb`, and `pivot` is the first key of `sb`.
  */
  ghost predicate PivotChoice<V>(l: seq<Item<V>>, r: seq<Item<V>>, sa: seq<Item<V>>, sb: seq<Item<V>>, pivot: int) {
    && |l| > 0 && |r| > 0
    && if l[0].key <= r[0].key then sa == l && sb == r && pivot == r[0].key
       else sa == r && sb == l && pivot == l[0].key
  }

  /**
    The first step of `meld` on two non-empty trees: `a` is the one whose
    first key is smaller (`lhs` on a tie) and `pivot` is the first key of
    the other, `b`.
  */
  method MeldPivot<V(!new), A(!new)>(o: Ops<V, A>, lhs: Tree<V, A>, rhs: Tree<V, A>) returns (a: Tree<V, A>, b: Tree<V, A>, pivot: int)
    requires Lawful(o) && Valid(o, lhs) && Valid(o, rhs) && lhs.Node? && rhs.Node?
    ensures Valid(o, a) && Valid(o, b)
    ensures PivotChoice(Seq(lhs), Seq(rhs), Seq(a), Seq(b), pivot)
  {
    SizeSeq(o, lhs);
    SizeSeq(o, rhs);
    var l, lhs' := Leftmost(o, lhs);
    var r, rhs' := Leftmost(o, rhs);
    if l.value.key <= r.value.key {
      a, b, pivot := lhs', rhs', r.value.key;
    } else {
      a, b, pivot := rhs', lhs', l.value.key;
    }
  }

  lemma SortedMonotone<V>(s: seq<Item<V>>, pred: int -> bool, pivot: int)
    requires Sorted(s) && forall k :: pred(k) == (k <= pivot)
    ensures Monotone(pred, s)
  {
  }

  /** The part of `a` above `pivot` is sorted and shorter than `a`, which starts at or below it. */
  lemma MeldSplit<V>(sa: seq<Item<V>>, smaller: seq<Item<V>>, larger: seq<Item<V>>, pivot: int)
    requires Sorted(sa) && |sa| > 0 && sa[0].key <= pivot && smaller + larger == sa
    requires forall i :: 0 <= i < |larger| ==> pivot < larger[i].key
    ensures |smaller| > 0 && |larger| < |sa| && Sorted(smaller) && Sorted(larger)
  {
    SortedSplit(smaller, larger);
  }

  /**
    The order argument of `meld`: the items of `a` up to `pivot` (the first
    key of `b`) come first, and the melded rest is sorted and at least
    `pivot`, so joining them is sorted and keeps every item.
  */
  lemma MeldOrder<V>(sb: seq<Item<V>>, smaller: seq<Item<V>>, larger: seq<Item<V>>, rest: seq<Item<V>>, pivot: int)
    requires Sorted(sb) && |sb| > 0 && sb[0].key == pivot && Sorted(smaller)
    requires forall i :: 0 <= i < |smaller| ==> smaller[i].key <= pivot
    requires forall i :: 0 <= i < |larger| ==> pivot < larger[i].key
    requires Sorted(rest) && multiset(rest) == multiset(sb) + multiset(larger)
    ensures |rest| > 0 && Sorted(smaller + rest)
    ensures multiset(smaller + rest) == multiset(smaller) + multiset(larger) + multiset(sb)
  {
    assert sb[0] in multiset(rest);
    assert AtLeast(sb, pivot) by {
      forall i | 0 < i < |sb| ensures pivot <= sb[i].key {
        assert sb[0].key <= sb[i].key;
      }
    }
    assert AtLeast(larger, pivot);
    AtLeastMultiset(rest, sb, larger, pivot);
    SortedJoin(smaller, rest, pivot);
  }

  /** The source's test: appending two one-item sequences gives length 2. */
  method TestAppendLen() {
    var nop: Ops<nat, ()> := Ops(v => (), (), (x: (), y: ()) => (), (x: ()) => x);
    var a := Singleton(nop, 0, 0);
    var b := Singleton(nop, 0, 1);
    var c := Concat(nop, a, b);
    var n := Len(nop, c);
    assert n == 2;
    assert Seq(c) == [Item(0, 0), Item(0, 1)];
  }

  /**
    `Node::rightmost` as written: the last node along the stored right
    links.  The source's descents (this one, `Node::leftmost`, the loops of
    `split_by_size` and `partition_with_key`) follow the stored child links
    without pushing, so below a node with a pending reversal they walk the
    mirror image of the subtree; the corrected descents (RightmostPath,
    LeftmostPath, KthPath, PartitionPath) push each node first.
  */
  function RightmostAsWritten<V(!new), A(!new)>(t: Tree<V, A>): (r: Tree<V, A>)
    requires t.Node?
    ensures r.Node? && r.r.Nil?
    decreases t
  {
    if t.r.Nil? then t else RightmostAsWritten(t.r)
  }

  /**
    The loop of `split_by_size` as written: compare `s + len(l) + 1` with
    `k` on the stored children; `None` where the source unwraps an absent child.
  */
  function KthAsWritten<V(!new), A(!new)>(t: Tree<V, A>, k: nat, s: nat): (r: Option<Tree<V, A>>)
    ensures r.Some? ==> r.value.Node?
    decreases t
  {
    if t.Nil? then None
    else if s + Size(t.l) + 1 < k then KthAsWritten(t.r, k, s + Size(t.l) + 1)
    else if s + Size(t.l) + 1 == k then Some(t)
    else KthAsWritten(t.l, k, s)
  }

  /** `Node::leftmost` as written: the last node along the stored left links. */
  function LeftmostAsWritten<V(!new), A(!new)>(t: Tree<V, A>): (r: Tree<V, A>)
    requires t.Node?
    ensures r.Node? && r.l.Nil?
    decreases t
  {
    if t.l.Nil? then t else LeftmostAsWritten(t.l)
  }

  /**
    The loop of `partition_with_key` as written: along the stored right link
    while `pred` holds, along the stored left link while it fails, up to the
    node whose link in that direction is absent.
  */
  function PartitionAsWritten<V(!new), A(!new)>(t: Tree<V, A>, pred: int -> bool): (r: Tree<V, A>)
    requires t.Node?
    ensures r.Node? && (pred(r.key) ==> r.r.Nil?) && (!pred(r.key) ==> r.l.Nil?)
    decreases t
  {
    if pred(t.key) then (if t.r.Nil? then t else PartitionAsWritten(t.r, pred))
    else (if t.l.Nil? then t else PartitionAsWritten(t.l, pred))
  }

  function NopOps(): Ops<nat, ()> {
    Ops(v => (), (), (x: (), y: ()) => (), (x: ()) => x)
  }

  function Leaf(key: nat, rev: bool): Tree<nat, ()> {
    Node(Nil, key, key, 1, rev, (), Nil)
  }

  /**
    The tree that `concat(concat(concat(a, b), c), d)` followed by
    `reverse` leaves behind once the next `concat` has pushed its root:
    `c` at the root, both children carrying a pending reversal.
  */
  function Mirrored(): Tree<nat, ()> {
    Node(Leaf(4, true), 3, 3, 4, false, (), Node(Leaf(1, false), 2, 2, 2, true, (), Nil))
  }

  /** The stored right links end at `b` (key 2), but the last item is `a` (key 1). */
  lemma RightmostAsWrittenMisses()
    ensures Valid(NopOps(), Mirrored()) && Lawful(NopOps())
    ensures Seq(Mirrored()) == [Item(4, 4), Item(3, 3), Item(2, 2), Item(1, 1)]
    ensures RightmostAsWritten(Mirrored()).key == 2 && Seq(Mirrored())[3].key == 1
  {
    var d, a := Leaf(4, true), Leaf(1, false);
    var b := Node(a, 2, 2, 2, true, (), Nil);
    assert Seq(d) == [Item(4, 4)];
    assert Seq(b) == [Item(2, 2), Item(1, 1)] by {
      assert Inner(b) == [Item(1, 1), Item(2, 2)];
    }
  }

  /** The descent for the third item (`b`, key 2) stops at `a` (key 1). */
  lemma KthAsWrittenMisses()
    ensures KthAsWritten(Mirrored(), 3, 0) == Some(Leaf(1, false))
    ensures Seq(Mirrored())[2].key == 2
  {
    RightmostAsWrittenMisses();
  }

  /**
    `concat(a, concat(b, c))` of the singletons 1, 2 and 3: `a` at the root
    with `b` and `c` down its right links, then `reverse`d.
  */
  function Reversed3(): Tree<nat, ()> {
    Node(Nil, 1, 1, 3, true, (), Node(Nil, 2, 2, 2, false, (), Leaf(3, false)))
  }

  /** The same tree once `splay` has pushed its root: `b` with a pending reversal left of `a`. */
  function Turned3(): Tree<nat, ()> {
    Node(Node(Nil, 2, 2, 2, true, (), Leaf(3, false)), 1, 1, 3, false, (), Nil)
  }

  /** The pushed root represents the reversed sequence 3, 2, 1. */
  lemma Turned3Spec()
    ensures Lawful(NopOps()) && Valid(NopOps(), Reversed3()) && Push(NopOps(), Reversed3()) == Turned3()
    ensures Valid(NopOps(), Turned3()) && Seq(Turned3()) == [Item(3, 3), Item(2, 2), Item(1, 1)]
  {
    var c := Leaf(3, false);
    var b := Node(Nil, 2, 2, 2, false, (), c);
    assert Seq(c) == [Item(3, 3)];
    assert Seq(b) == [Item(2, 2), Item(3, 3)];
    assert Inner(Reversed3()) == [Item(1, 1), Item(2, 2), Item(3, 3)];
    assert Lawful(NopOps()) by {
      assert forall a: () :: NopOps().op(NopOps().identity, a) == a;
    }
    PushSpec(NopOps(), Reversed3());
  }

  /** After the root's push the stored left links end at `b` (key 2), but the first item is `c` (key 3). */
  lemma LeftmostAsWrittenMisses()
    ensures Valid(NopOps(), Turned3()) && Seq(Turned3())[0].key == 3
    ensures LeftmostAsWritten(Turned3()).key == 2
  {
    Turned3Spec();
  }

  /**
    With a predicate that fails everywhere the loop stops at `b`, the second
    item, so cutting its left child would leave the first item `c` on the
    side where the predicate holds.
  */
  lemma PartitionAsWrittenMisses()
    ensures Valid(NopOps(), Turned3()) && Seq(Turned3())[1].key == 2 && Seq(Turned3())[0].key == 3
    ensures PartitionAsWritten(Turned3(), (k: int) => false).key == 2
  {
    Turned3Spec();
  }
}
