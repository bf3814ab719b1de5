/**
  The nodes of the splay tree (`data_structure::splay_tree::Node`) as
  values.  A node carries a key, a value, the length of its subtree, a
  pending-reversal flag `rev` and the product `acc` of its subtree's values
  under the operations `SeqOps`.  The sequence a tree represents is the
  in-order sequence of its items, reversed below every node whose `rev` is
  set.  The parent pointers of the source are modelled by a zipper: the path
  from the root down to a node, one `Frame` per ancestor.
*/
module SplayCore {
  /**
    `SeqOps`: `value_to_acc`, `identity`, `binary_operation`, and the effect
    of `reverse` on an accumulated value (the default `reverse` leaves it
    alone).
  */
  datatype Ops<!V, !A> = Ops(toAcc: V -> A, identity: A, op: (A, A) -> A, flip: A -> A)

  /** `binary_operation` is associative with `identity` as its unit. */
  ghost predicate Monoid<V(!new), A(!new)>(o: Ops<V, A>) {
    && (forall a, b, c {:trigger o.op(o.op(a, b), c)} :: o.op(o.op(a, b), c) == o.op(a, o.op(b, c)))
    && (forall a :: o.op(o.identity, a) == a)
    && (forall a :: o.op(a, o.identity) == a)
  }

  /**
    A monoid whose `reverse` turns the product of a sequence into the
    product of the reversed sequence.  With the default `reverse` this asks
    for a commutative operation; `Reversible` meets it for every monoid.
  */
  ghost predicate Lawful<V(!new), A(!new)>(o: Ops<V, A>) {
    && Monoid(o)
    && (forall a, b {:trigger o.flip(o.op(a, b))} :: o.flip(o.op(a, b)) == o.op(o.flip(b), o.flip(a)))
    && o.flip(o.identity) == o.identity
    && (forall v :: o.flip(o.toAcc(v)) == o.toAcc(v))
  }

  /** `Reversible<O>`: the products of the sequence and of its reverse, side by side; `reverse` swaps them. */
  function Reversible<V(!new), A(!new)>(o: Ops<V, A>): Ops<V, (A, A)> {
    Ops(
      v => (o.toAcc(v), o.toAcc(v)),
      (o.identity, o.identity),
      (x: (A, A), y: (A, A)) => (o.op(x.0, y.0), o.op(y.1, x.1)),
      (x: (A, A)) => (x.1, x.0))
  }

  /** `Reversible` makes the reversal law hold for any monoid. */
  lemma ReversibleLawful<V(!new), A(!new)>(o: Ops<V, A>)
    requires Monoid(o)
    ensures Lawful(Reversible(o))
  {
    var q := Reversible(o);
    forall a: (A, A), b: (A, A), c: (A, A) ensures q.op(q.op(a, b), c) == q.op(a, q.op(b, c)) {
      assert o.op(o.op(a.0, b.0), c.0) == o.op(a.0, o.op(b.0, c.0));
      assert o.op(c.1, o.op(b.1, a.1)) == o.op(o.op(c.1, b.1), a.1);
    }
    forall a: (A, A) ensures q.op(q.identity, a) == a && q.op(a, q.identity) == a {
      assert o.op(o.identity, a.0) == a.0 && o.op(a.1, o.identity) == a.1;
      assert o.op(a.0, o.identity) == a.0 && o.op(o.identity, a.1) == a.1;
    }
  }

  /** An element of the represented sequence. */
  datatype Item<V> = Item(key: int, value: V)

  function Reversed<T>(s: seq<T>): (r: seq<T>)
    ensures |r| == |s| && forall i :: 0 <= i < |s| ==> r[i] == s[|s| - 1 - i]
  {
    seq(|s|, i requires 0 <= i < |s| => s[|s| - 1 - i])
  }

  lemma ReversedAppend<T>(a: seq<T>, b: seq<T>)
    ensures Reversed(a + b) == Reversed(b) + Reversed(a)
  {
    assert forall i :: 0 <= i < |a| + |b| ==> Reversed(a + b)[i] == (Reversed(b) + Reversed(a))[i];
  }

  /** Reversing a sequence around one item. */
  lemma ReversedAround<T>(a: seq<T>, x: T, b: seq<T>)
    ensures Reversed(a + [x] + b) == Reversed(b) + [x] + Reversed(a)
  {
    ReversedAppend(a + [x], b);
    ReversedAppend(a, [x]);
    assert Reversed([x]) == [x];
  }

  lemma ReversedTwice<T>(s: seq<T>)
    ensures Reversed(Reversed(s)) == s
  {
  }

  /** The product of the values of `s`, folded from the left starting at `identity`. */
  function Prod<V(!new), A(!new)>(o: Ops<V, A>, s: seq<Item<V>>): A {
    if s == [] then o.identity else o.op(Prod(o, s[..|s| - 1]), o.toAcc(s[|s| - 1].value))
  }

  /** The product of a concatenation is the product of the products. */
  lemma {:induction false} ProdAppend<V(!new), A(!new)>(o: Ops<V, A>, a: seq<Item<V>>, b: seq<Item<V>>)
    requires Monoid(o)
    ensures Prod(o, a + b) == o.op(Prod(o, a), Prod(o, b))
    decreases |b|
  {
    if b == [] {
      assert a + b == a;
    } else {
      var init := b[..|b| - 1];
      assert (a + b)[..|a + b| - 1] == a + init;
      ProdAppend(o, a, init);
    }
  }

  /** Under the reversal law, `reverse` of a product is the product of the reversed sequence. */
  lemma {:induction false} ProdReversed<V(!new), A(!new)>(o: Ops<V, A>, s: seq<Item<V>>)
    requires Lawful(o)
    ensures o.flip(Prod(o, s)) == Prod(o, Reversed(s))
    decreases |s|
  {
    if s != [] {
      var init, x := s[..|s| - 1], s[|s| - 1];
      ProdReversed(o, init);
      assert s == init + [x];
      ReversedAppend(init, [x]);
      assert Reversed([x]) == [x];
      ProdAppend(o, [x], Reversed(init));
      assert [x][..0] == [];
    }
  }

  /** Under `Reversible`, a product is the pair of the products of the sequence and of its reverse. */
  lemma {:induction false} ReversibleProd<V(!new), A(!new)>(o: Ops<V, A>, s: seq<Item<V>>)
    requires Monoid(o)
    ensures Prod(Reversible(o), s) == (Prod(o, s), Prod(o, Reversed(s)))
    decreases |s|
  {
    if s != [] {
      var init, x := s[..|s| - 1], s[|s| - 1];
      ReversibleProd(o, init);
      assert s == init + [x];
      ReversedAppend(init, [x]);
      assert Reversed([x]) == [x];
      ProdAppend(o, [x], Reversed(init));
      assert [x][..0] == [];
    }
  }

  datatype Tree<V, A> = Nil | Node(l: Tree<V, A>, key: int, value: V, len: nat, rev: bool, acc: A, r: Tree<V, A>)

  /** The sequence a tree represents. */
  function Seq<V(!new), A(!new)>(t: Tree<V, A>): seq<Item<V>> {
    match t
    case Nil => []
    case Node(l, key, value, _, rev, _, r) =>
      var inner := Seq(l) + [Item(key, value)] + Seq(r);
      if rev then Reversed(inner) else inner
  }

  /** A node's sequence before its own pending reversal. */
  function Inner<V(!new), A(!new)>(t: Tree<V, A>): seq<Item<V>>
    requires t.Node?
  {
    Seq(t.l) + [Item(t.key, t.value)] + Seq(t.r)
  }

  /** Every node's `len` and `acc` are the length and the product of its sequence before its own reversal. */
  ghost predicate Valid<V(!new), A(!new)>(o: Ops<V, A>, t: Tree<V, A>) {
    match t
    case Nil => true
    case Node(l, _, _, len, _, acc, r) =>
      Valid(o, l) && Valid(o, r) && len == |Inner(t)| && acc == Prod(o, Inner(t))
  }

  /** The `len` field of a possibly absent node. */
  function Size<V(!new), A(!new)>(t: Tree<V, A>): nat {
    if t.Nil? then 0 else t.len
  }

  lemma SizeSeq<V(!new), A(!new)>(o: Ops<V, A>, t: Tree<V, A>)
    requires Valid(o, t)
    ensures Size(t) == |Seq(t)|
  {
  }

  /** `Node::create`: a childless node holding one item. */
  function Create<V(!new), A(!new)>(o: Ops<V, A>, key: int, value: V): (t: Tree<V, A>)
  {
    Node(Nil, key, value, 1, false, o.toAcc(value), Nil)
  }

  /** A created node is valid and represents its one item. */
  lemma CreateSpec<V(!new), A(!new)>(o: Ops<V, A>, key: int, value: V)
    requires Monoid(o)
    ensures Valid(o, Create(o, key, value)) && Seq(Create(o, key, value)) == [Item(key, value)]
  {
    assert [Item(key, value)][..0] == [];
  }

  /** `ch.rev ^= true` on a child. */
  function Toggle<V(!new), A(!new)>(t: Tree<V, A>): Tree<V, A> {
    if t.Nil? then Nil else t.(rev := !t.rev)
  }

  /**
    `push`: a node with a pending reversal swaps its children, passes the
    reversal on to them and applies `reverse` to its own product.
  */
  function Push<V(!new), A(!new)>(o: Ops<V, A>, t: Tree<V, A>): (p: Tree<V, A>)
    ensures p.Nil? == t.Nil?
  {
    if t.Node? && t.rev then Node(Toggle(t.r), t.key, t.value, t.len, false, o.flip(t.acc), Toggle(t.l))
    else t
  }

  /** Passing a reversal on to a subtree reverses what it represents. */
  lemma ToggleSpec<V(!new), A(!new)>(o: Ops<V, A>, t: Tree<V, A>)
    requires Valid(o, t)
    ensures Valid(o, Toggle(t)) && Seq(Toggle(t)) == Reversed(Seq(t))
  {
    if t.Node? && t.rev {
      ReversedTwice(Inner(t));
    }
  }

  /** `push` changes the shape, never the represented sequence, and leaves the node without a pending reversal. */
  lemma PushSpec<V(!new), A(!new)>(o: Ops<V, A>, t: Tree<V, A>)
    requires Lawful(o) && Valid(o, t)
    ensures Valid(o, Push(o, t)) && Seq(Push(o, t)) == Seq(t)
    ensures t.Node? ==> !Push(o, t).rev && Push(o, t).key == t.key && Push(o, t).value == t.value
    ensures t.Node? ==> Pos(Push(o, t)) == Pos(t)
  {
    if t.Node? && t.rev {
      var x := Item(t.key, t.value);
      var n := Push(o, t);
      assert Valid(o, n.l) && Seq(n.l) == Reversed(Seq(t.r)) by { ToggleSpec(o, t.r); }
      assert Valid(o, n.r) && Seq(n.r) == Reversed(Seq(t.l)) by { ToggleSpec(o, t.l); }
      assert Inner(n) == Reversed(Inner(t)) by {
        ReversedAround(Seq(t.l), x, Seq(t.r));
      }
      assert n.acc == Prod(o, Inner(n)) by { ProdReversed(o, Inner(t)); }
    }
  }

  /** Where a node's own item stands in the sequence its subtree represents. */
  function Pos<V(!new), A(!new)>(t: Tree<V, A>): nat
    requires t.Node?
  {
    if t.rev then |Seq(t.r)| else |Seq(t.l)|
  }

  /** A node's own item is at `Pos` in its sequence. */
  lemma PosItem<V(!new), A(!new)>(t: Tree<V, A>)
    requires t.Node?
    ensures Pos(t) < |Seq(t)| && Seq(t)[Pos(t)] == Item(t.key, t.value)
  {
  }

  /**
    `pull` on a node with children `l` and `r` (each pushed first): `len` is
    one more than the children's lengths, `acc` is
    `acc(l) ⊕ value_to_acc(value) ⊕ acc(r)`, folded from `identity`.
  */
  function Pull<V(!new), A(!new)>(o: Ops<V, A>, l: Tree<V, A>, key: int, value: V, r: Tree<V, A>): Tree<V, A> {
    var l', r' := Push(o, l), Push(o, r);
    var a0 := if l'.Nil? then o.identity else o.op(o.identity, l'.acc);
    var a1 := o.op(a0, o.toAcc(value));
    var a2 := if r'.Nil? then a1 else o.op(a1, r'.acc);
    Node(l', key, value, 1 + Size(l') + Size(r'), false, a2, r')
  }

  /** A node without a pending reversal holds the product of its sequence. */
  lemma CleanAcc<V(!new), A(!new)>(o: Ops<V, A>, t: Tree<V, A>)
    requires Monoid(o) && Valid(o, t) && (t.Node? ==> !t.rev)
    ensures (if t.Nil? then o.identity else o.op(o.identity, t.acc)) == Prod(o, Seq(t))
  {
  }

  /** `pull` makes a valid node of its children, representing them with its item in between. */
  lemma PullSpec<V(!new), A(!new)>(o: Ops<V, A>, l: Tree<V, A>, key: int, value: V, r: Tree<V, A>)
    requires Lawful(o) && Valid(o, l) && Valid(o, r)
    ensures Valid(o, Pull(o, l, key, value, r)) && Seq(Pull(o, l, key, value, r)) == Seq(l) + [Item(key, value)] + Seq(r)
    ensures Seq(Pull(o, l, key, value, r).l) == Seq(l) && Seq(Pull(o, l, key, value, r).r) == Seq(r)
    ensures |Seq(l)| == Pos(Pull(o, l, key, value, r))
  {
    var l', r' := Push(o, l), Push(o, r);
    PushSpec(o, l);
    PushSpec(o, r);
    var x := Item(key, value);
    CleanAcc(o, l');
    SizeSeq(o, l');
    SizeSeq(o, r');
    var a0 := if l'.Nil? then o.identity else o.op(o.identity, l'.acc);
    var a1 := o.op(a0, o.toAcc(value));
    assert (Seq(l) + [x])[..|Seq(l)|] == Seq(l);
    assert a1 == Prod(o, Seq(l) + [x]);
    if r'.Nil? {
      assert Seq(l) + [x] + Seq(r) == Seq(l) + [x];
    } else {
      CleanAcc(o, r');
      ProdAppend(o, Seq(l) + [x], Seq(r));
    }
  }

  /** `rotate_right` on the left child of `t`: that child becomes the root of the subtree. */
  function RotR<V(!new), A(!new)>(o: Ops<V, A>, t: Tree<V, A>): Tree<V, A>
    requires t.Node? && t.l.Node?
  {
    Pull(o, t.l.l, t.l.key, t.l.value, Pull(o, t.l.r, t.key, t.value, t.r))
  }

  /** `rotate_left` on the right child of `t`. */
  function RotL<V(!new), A(!new)>(o: Ops<V, A>, t: Tree<V, A>): Tree<V, A>
    requires t.Node? && t.r.Node?
  {
    Pull(o, Pull(o, t.l, t.key, t.value, t.r.l), t.r.key, t.r.value, t.r.r)
  }

  /** `rotate_right` on pushed nodes keeps the represented sequence and raises the child. */
  lemma RotRSpec<V(!new), A(!new)>(o: Ops<V, A>, t: Tree<V, A>)
    requires Lawful(o) && t.Node? && !t.rev && t.l.Node? && !t.l.rev
    requires Valid(o, t.l.l) && Valid(o, t.l.r) && Valid(o, t.r)
    ensures Valid(o, RotR(o, t)) && Seq(RotR(o, t)) == Seq(t)
    ensures RotR(o, t).Node? && !RotR(o, t).rev && RotR(o, t).key == t.l.key && RotR(o, t).value == t.l.value
    ensures |Seq(RotR(o, t).l)| == |Seq(t.l.l)|
  {
    PullRight(o, t.l.l, t.l.key, t.l.value, t.l.r, t.key, t.value, t.r);
    SeqClean(t.l);
    SeqClean(t);
  }

  /** `rotate_left` on pushed nodes keeps the represented sequence and raises the child. */
  lemma RotLSpec<V(!new), A(!new)>(o: Ops<V, A>, t: Tree<V, A>)
    requires Lawful(o) && t.Node? && !t.rev && t.r.Node? && !t.r.rev
    requires Valid(o, t.l) && Valid(o, t.r.l) && Valid(o, t.r.r)
    ensures Valid(o, RotL(o, t)) && Seq(RotL(o, t)) == Seq(t)
    ensures RotL(o, t).Node? && !RotL(o, t).rev && RotL(o, t).key == t.r.key && RotL(o, t).value == t.r.value
    ensures |Seq(RotL(o, t).l)| == |Seq(t.l)| + 1 + |Seq(t.r.l)|
  {
    PullLeft(o, t.l, t.key, t.value, t.r.l, t.r.key, t.r.value, t.r.r);
    SeqClean(t.r);
    SeqClean(t);
    Regroup(Seq(t.l), Item(t.key, t.value), Seq(t.r.l), Item(t.r.key, t.r.value), Seq(t.r.r));
  }

  /** Two nested `pull`s with the inner node on the right: the sequence regrouped to the left. */
  lemma PullRight<V(!new), A(!new)>(o: Ops<V, A>, a: Tree<V, A>, kx: int, vx: V, b: Tree<V, A>, ky: int, vy: V, c: Tree<V, A>)
    requires Lawful(o) && Valid(o, a) && Valid(o, b) && Valid(o, c)
    ensures var q := Pull(o, a, kx, vx, Pull(o, b, ky, vy, c));
      && Valid(o, q) && Seq(q) == Seq(a) + [Item(kx, vx)] + Seq(b) + [Item(ky, vy)] + Seq(c)
      && !q.rev && q.key == kx && q.value == vx && |Seq(q.l)| == |Seq(a)|
  {
    var p := Pull(o, b, ky, vy, c);
    PullSpec(o, b, ky, vy, c);
    PullSpec(o, a, kx, vx, p);
    Regroup(Seq(a), Item(kx, vx), Seq(b), Item(ky, vy), Seq(c));
  }

  /** Two nested `pull`s with the inner node on the left. */
  lemma PullLeft<V(!new), A(!new)>(o: Ops<V, A>, a: Tree<V, A>, kx: int, vx: V, b: Tree<V, A>, ky: int, vy: V, c: Tree<V, A>)
    requires Lawful(o) && Valid(o, a) && Valid(o, b) && Valid(o, c)
    ensures var q := Pull(o, Pull(o, a, kx, vx, b), ky, vy, c);
      && Valid(o, q) && Seq(q) == Seq(a) + [Item(kx, vx)] + Seq(b) + [Item(ky, vy)] + Seq(c)
      && !q.rev && q.key == ky && q.value == vy && |Seq(q.l)| == |Seq(a)| + 1 + |Seq(b)|
  {
    var p := Pull(o, a, kx, vx, b);
    PullSpec(o, a, kx, vx, b);
    PullSpec(o, p, ky, vy, c);
  }

  /** A node without a pending reversal represents its children with its item in between. */
  lemma SeqClean<V(!new), A(!new)>(t: Tree<V, A>)
    requires t.Node? && !t.rev
    ensures Seq(t) == Seq(t.l) + [Item(t.key, t.value)] + Seq(t.r)
  {
  }

  lemma Regroup<T>(a: seq<T>, x: T, b: seq<T>, y: T, c: seq<T>)
    ensures a + [x] + (b + [y] + c) == (a + [x] + b) + [y] + c
  {
  }

  datatype Dir = Left | Right

  /**
    An ancestor on the path from the root: its fields, the side `dir` on
    which the path goes on, and its child `other` on the other side.  This
    is the source's `p: Option<(Dir, NodeRef)>` read from below.
  */
  datatype Frame<V, A> = Frame(dir: Dir, key: int, value: V, len: nat, rev: bool, acc: A, other: Tree<V, A>)

  /** The ancestor `f` with `t` as its child on side `f.dir`. */
  function Attach<V(!new), A(!new)>(f: Frame<V, A>, t: Tree<V, A>): (n: Tree<V, A>)
    ensures n.Node?
  {
    if f.dir == Left then Node(t, f.key, f.value, f.len, f.rev, f.acc, f.other)
    else Node(f.other, f.key, f.value, f.len, f.rev, f.acc, t)
  }

  /** The whole tree: `t` put back under its ancestors, the nearest one last in `path`. */
  function Plug<V(!new), A(!new)>(t: Tree<V, A>, path: seq<Frame<V, A>>): Tree<V, A>
    decreases |path|
  {
    if path == [] then t else Plug(Attach(path[|path| - 1], t), path[..|path| - 1])
  }

  /** No ancestor has a pending reversal. */
  ghost predicate Clean<V(!new), A(!new)>(path: seq<Frame<V, A>>) {
    forall i :: 0 <= i < |path| ==> !path[i].rev
  }

  /** The items the ancestors put before the subtree at the end of the path. */
  function Before<V(!new), A(!new)>(path: seq<Frame<V, A>>): seq<Item<V>>
    decreases |path|
  {
    if path == [] then []
    else
      var f := path[|path| - 1];
      Before(path[..|path| - 1]) + if f.dir == Right then Seq(f.other) + [Item(f.key, f.value)] else []
  }

  /** The items the ancestors put after the subtree at the end of the path. */
  function After<V(!new), A(!new)>(path: seq<Frame<V, A>>): seq<Item<V>>
    decreases |path|
  {
    if path == [] then []
    else
      var f := path[|path| - 1];
      (if f.dir == Left then [Item(f.key, f.value)] + Seq(f.other) else []) + After(path[..|path| - 1])
  }

  /** Below ancestors without pending reversals, a subtree's items sit between `Before` and `After`. */
  lemma {:induction false} PlugSeq<V(!new), A(!new)>(t: Tree<V, A>, path: seq<Frame<V, A>>)
    requires Clean(path)
    ensures Seq(Plug(t, path)) == Before(path) + Seq(t) + After(path)
    decreases |path|
  {
    if path != [] {
      var init := path[..|path| - 1];
      CleanPrefix(path, |path| - 1);
      var f := path[|path| - 1];
      PlugSeq(Attach(f, t), init);
      assert !f.rev;
      SeqClean(Attach(f, t));
      var x := Item(f.key, f.value);
      if f.dir == Left {
        AroundLeft(Before(init), Seq(t), x, Seq(f.other), After(init));
      } else {
        AroundRight(Before(init), Seq(f.other), x, Seq(t), After(init));
      }
    }
  }

  lemma AroundLeft<T>(b: seq<T>, s: seq<T>, x: T, o: seq<T>, a: seq<T>)
    ensures b + (s + [x] + o) + a == (b + []) + s + ([x] + o + a)
  {
  }

  lemma AroundRight<T>(b: seq<T>, o: seq<T>, x: T, s: seq<T>, a: seq<T>)
    ensures b + (o + [x] + s) + a == (b + (o + [x])) + s + ([] + a)
  {
  }

  /** A valid tree has valid subtrees everywhere along a path. */
  lemma {:induction false} PlugValid<V(!new), A(!new)>(o: Ops<V, A>, t: Tree<V, A>, path: seq<Frame<V, A>>)
    requires Valid(o, Plug(t, path))
    ensures Valid(o, t)
    decreases |path|
  {
    if path != [] {
      PlugValid(o, Attach(path[|path| - 1], t), path[..|path| - 1]);
    }
  }

  /** Swapping a subtree for a valid one representing the same items changes neither validity nor the whole sequence. */
  lemma {:induction false} PlugSame<V(!new), A(!new)>(o: Ops<V, A>, a: Tree<V, A>, b: Tree<V, A>, path: seq<Frame<V, A>>)
    requires Valid(o, Plug(a, path)) && Valid(o, b) && Seq(a) == Seq(b)
    ensures Valid(o, Plug(b, path)) && Seq(Plug(b, path)) == Seq(Plug(a, path))
    decreases |path|
  {
    if path != [] {
      var f, init := path[|path| - 1], path[..|path| - 1];
      PlugValid(o, Attach(f, a), init);
      assert Inner(Attach(f, a)) == Inner(Attach(f, b));
      PlugSame(o, Attach(f, a), Attach(f, b), init);
    }
  }

  /** Unfolding the two nearest ancestors of the path. */
  lemma PlugTwo<V(!new), A(!new)>(t: Tree<V, A>, path: seq<Frame<V, A>>)
    requires |path| >= 2
    ensures Plug(t, path) == Plug(Attach(path[|path| - 2], Attach(path[|path| - 1], t)), path[..|path| - 2])
    ensures |Before(path)| == |Before(path[..|path| - 2])| + Ahead(path[|path| - 2]) + Ahead(path[|path| - 1])
    ensures path[|path| - 2..] == [path[|path| - 2], path[|path| - 1]]
  {
    var n := |path|;
    var init := path[..n - 1];
    assert init[..n - 2] == path[..n - 2];
    assert init[n - 2] == path[n - 2];
    BeforeLast(path);
    BeforeLast(init);
  }

  /** The nearest ancestor puts `Ahead` items before the subtree. */
  lemma BeforeLast<V(!new), A(!new)>(path: seq<Frame<V, A>>)
    requires |path| > 0
    ensures |Before(path)| == |Before(path[..|path| - 1])| + Ahead(path[|path| - 1])
  {
  }

  /** The ancestors above a clean path's prefix are clean. */
  lemma CleanPrefix<V(!new), A(!new)>(path: seq<Frame<V, A>>, k: nat)
    requires Clean(path) && k <= |path|
    ensures Clean(path[..k])
  {
    assert forall i :: 0 <= i < k ==> path[..k][i] == path[i];
  }

  /** Going down one step: the child below the new frame is the subtree it came from. */
  lemma PlugSnoc<V(!new), A(!new)>(t: Tree<V, A>, path: seq<Frame<V, A>>, f: Frame<V, A>)
    ensures Plug(t, path + [f]) == Plug(Attach(f, t), path)
    ensures Before(path + [f]) == Before(path) + if f.dir == Right then Seq(f.other) + [Item(f.key, f.value)] else []
    ensures After(path + [f]) == (if f.dir == Left then [Item(f.key, f.value)] + Seq(f.other) else []) + After(path)
    ensures Clean(path) && !f.rev ==> Clean(path + [f])
  {
    assert (path + [f])[..|path|] == path;
  }

  /**
    The two-level steps of `splay` on the pushed node `x` below its parent
    `p` and grandparent `pp`: zig-zig turns (`rotate_right(p)` then
    `rotate_right(x)`, or the mirror image) and zig-zag turns
    (`rotate_left(x)` then `rotate_right(x)`, or the mirror image).
  */
  function Rotate2<V(!new), A(!new)>(o: Ops<V, A>, x: Tree<V, A>, p: Frame<V, A>, pp: Frame<V, A>): Tree<V, A>
    requires x.Node?
  {
    match (pp.dir, p.dir)
    case (Left, Left) => RotR(o, RotR(o, Attach(pp, Attach(p, x))))
    case (Right, Right) => RotL(o, RotL(o, Attach(pp, Attach(p, x))))
    case (Left, Right) => RotR(o, Attach(pp, RotL(o, Attach(p, x))))
    case (Right, Left) => RotL(o, Attach(pp, RotR(o, Attach(p, x))))
  }

  /** `y` is a valid subtree representing `s`, rooted at `x`'s item with `k` items to its left. */
  ghost predicate Raised<V(!new), A(!new)>(o: Ops<V, A>, y: Tree<V, A>, x: Tree<V, A>, s: seq<Item<V>>, k: nat)
    requires x.Node?
  {
    Valid(o, y) && y.Node? && !y.rev && y.key == x.key && y.value == x.value && Seq(y) == s && |Seq(y.l)| == k
  }

  /** The number of items an ancestor puts before the path. */
  function Ahead<V(!new), A(!new)>(f: Frame<V, A>): nat {
    if f.dir == Right then |Seq(f.other)| + 1 else 0
  }

  lemma ZigZigLeft<V(!new), A(!new)>(o: Ops<V, A>, x: Tree<V, A>, p: Frame<V, A>, pp: Frame<V, A>)
    requires Lawful(o) && x.Node? && !x.rev && !p.rev && !pp.rev && pp.dir == Left && p.dir == Left
    requires Valid(o, Attach(pp, Attach(p, x)))
    ensures Raised(o, RotR(o, RotR(o, Attach(pp, Attach(p, x)))), x, Seq(Attach(pp, Attach(p, x))), |Seq(x.l)|)
  {
    var t := Attach(pp, Attach(p, x));
    RotRSpec(o, t);
    var u := RotR(o, t);
    assert u.l == x;
    RotRSpec(o, u);
  }

  lemma ZigZigRight<V(!new), A(!new)>(o: Ops<V, A>, x: Tree<V, A>, p: Frame<V, A>, pp: Frame<V, A>)
    requires Lawful(o) && x.Node? && !x.rev && !p.rev && !pp.rev && pp.dir == Right && p.dir == Right
    requires Valid(o, Attach(pp, Attach(p, x)))
    ensures Raised(o, RotL(o, RotL(o, Attach(pp, Attach(p, x)))), x, Seq(Attach(pp, Attach(p, x))),
                   Ahead(pp) + Ahead(p) + |Seq(x.l)|)
  {
    var t := Attach(pp, Attach(p, x));
    RotLSpec(o, t);
    var u := RotL(o, t);
    assert u.r == x;
    RotLSpec(o, u);
  }

  lemma ZigZagLeft<V(!new), A(!new)>(o: Ops<V, A>, x: Tree<V, A>, p: Frame<V, A>, pp: Frame<V, A>)
    requires Lawful(o) && x.Node? && !x.rev && !p.rev && !pp.rev && pp.dir == Left && p.dir == Right
    requires Valid(o, Attach(pp, Attach(p, x)))
    ensures Raised(o, RotR(o, Attach(pp, RotL(o, Attach(p, x)))), x, Seq(Attach(pp, Attach(p, x))), Ahead(p) + |Seq(x.l)|)
  {
    assert Valid(o, Attach(p, x)) && Valid(o, x);
    RotLSpec(o, Attach(p, x));
    var u := RotL(o, Attach(p, x));
    RotRSpec(o, Attach(pp, u));
  }

  lemma ZigZagRight<V(!new), A(!new)>(o: Ops<V, A>, x: Tree<V, A>, p: Frame<V, A>, pp: Frame<V, A>)
    requires Lawful(o) && x.Node? && !x.rev && !p.rev && !pp.rev && pp.dir == Right && p.dir == Left
    requires Valid(o, Attach(pp, Attach(p, x)))
    ensures Raised(o, RotL(o, Attach(pp, RotR(o, Attach(p, x)))), x, Seq(Attach(pp, Attach(p, x))), Ahead(pp) + |Seq(x.l)|)
  {
    assert Valid(o, Attach(p, x)) && Valid(o, x);
    RotRSpec(o, Attach(p, x));
    var u := RotR(o, Attach(p, x));
    RotLSpec(o, Attach(pp, u));
  }

  /** A two-level step raises `x` two levels, keeping the subtree's sequence and `x`'s place in it. */
  lemma Rotate2Spec<V(!new), A(!new)>(o: Ops<V, A>, x: Tree<V, A>, p: Frame<V, A>, pp: Frame<V, A>)
    requires Lawful(o) && x.Node? && !x.rev && !p.rev && !pp.rev
    requires Valid(o, Attach(pp, Attach(p, x)))
    ensures Raised(o, Rotate2(o, x, p, pp), x, Seq(Attach(pp, Attach(p, x))), Ahead(pp) + Ahead(p) + |Seq(x.l)|)
  {
    match (pp.dir, p.dir)
    case (Left, Left) => ZigZigLeft(o, x, p, pp);
    case (Right, Right) => ZigZigRight(o, x, p, pp);
    case (Left, Right) => ZigZagLeft(o, x, p, pp);
    case (Right, Left) => ZigZagRight(o, x, p, pp);
  }

  /** The state of `splay`'s loop: `x` below ancestors without pending reversals, in a valid tree. */
  ghost predicate Zipper<V(!new), A(!new)>(o: Ops<V, A>, x: Tree<V, A>, path: seq<Frame<V, A>>) {
    x.Node? && Clean(path) && Valid(o, Plug(x, path))
  }

  /** One iteration of `splay`'s loop: the pushed node goes up two levels; sequence and the node's place are kept. */
  lemma SplayStep<V(!new), A(!new)>(o: Ops<V, A>, x: Tree<V, A>, path: seq<Frame<V, A>>)
    requires Lawful(o) && |path| >= 2 && Zipper(o, x, path)
    ensures var n := |path|; var y := Rotate2(o, Push(o, x), path[n - 1], path[n - 2]);
      && Zipper(o, y, path[..n - 2])
      && Seq(Plug(y, path[..n - 2])) == Seq(Plug(x, path))
      && y.key == x.key && y.value == x.value
      && |Before(path[..n - 2])| + Pos(y) == |Before(path)| + Pos(x)
  {
    var n := |path|;
    var px := Push(o, x);
    PlugValid(o, x, path);
    PushSpec(o, x);
    PlugSame(o, x, px, path);
    var f, g, rest := path[n - 1], path[n - 2], path[..n - 2];
    PlugTwo(px, path);
    PlugValid(o, Attach(g, Attach(f, px)), rest);
    Rotate2Spec(o, px, f, g);
    var y := Rotate2(o, px, f, g);
    PlugSame(o, Attach(g, Attach(f, px)), y, rest);
    CleanPrefix(path, n - 2);
  }

  /** The last step of `splay` under a single ancestor: one rotation makes the pushed node the root. */
  function Rotate1<V(!new), A(!new)>(o: Ops<V, A>, x: Tree<V, A>, p: Frame<V, A>): Tree<V, A>
    requires x.Node?
  {
    if p.dir == Left then RotR(o, Attach(p, x)) else RotL(o, Attach(p, x))
  }

  lemma Rotate1Spec<V(!new), A(!new)>(o: Ops<V, A>, x: Tree<V, A>, p: Frame<V, A>)
    requires Lawful(o) && x.Node? && !x.rev && !p.rev && Valid(o, Attach(p, x))
    ensures Valid(o, Rotate1(o, x, p)) && Seq(Rotate1(o, x, p)) == Seq(Attach(p, x))
    ensures Rotate1(o, x, p).Node? && !Rotate1(o, x, p).rev
    ensures Rotate1(o, x, p).key == x.key && Rotate1(o, x, p).value == x.value
    ensures |Seq(Rotate1(o, x, p).l)| == Ahead(p) + |Seq(x.l)|
  {
    if p.dir == Left {
      RotRSpec(o, Attach(p, x));
    } else {
      RotLSpec(o, Attach(p, x));
    }
  }

  /** The end of `splay`: no ancestor, or one. */
  lemma SplayLast<V(!new), A(!new)>(o: Ops<V, A>, x: Tree<V, A>, path: seq<Frame<V, A>>)
    requires Lawful(o) && |path| <= 1 && Zipper(o, x, path)
    ensures var px := Push(o, x); var t := if path == [] then px else Rotate1(o, px, path[0]);
      && Valid(o, t) && t.Node? && !t.rev && t.key == x.key && t.value == x.value
      && Seq(t) == Seq(Plug(x, path)) && |Seq(t.l)| == |Before(path)| + Pos(x)
  {
    var px := Push(o, x);
    PlugValid(o, x, path);
    PushSpec(o, x);
    PlugSame(o, x, px, path);
    if path != [] {
      assert path[..0] == [] && path == [path[0]];
      BeforeLast(path);
      Rotate1Spec(o, px, path[0]);
    }
  }

  /**
    `splay`: while the node has a grandparent, push grandparent, parent
    and node and rotate twice; then, under a parent, push both and rotate
    once; at the root, push it.  The node ends as the root of a tree
    representing the same sequence, its item still in its place.

    The ancestors must carry no pending reversal: the source reads the
    node's side before pushing its parent, which is right only then.
  */
  method Splay<V(!new), A(!new)>(o: Ops<V, A>, focus: Tree<V, A>, path: seq<Frame<V, A>>) returns (t: Tree<V, A>)
    requires Lawful(o) && Zipper(o, focus, path)
    ensures Valid(o, t) && t.Node? && !t.rev && t.key == focus.key && t.value == focus.value
    ensures Seq(t) == Seq(Plug(focus, path))
    ensures |Seq(t.l)| == |Before(path)| + Pos(focus)
  {
    var x, p := focus, path;
    while |p| >= 2
      invariant Zipper(o, x, p) && Seq(Plug(x, p)) == Seq(Plug(focus, path))
      invariant x.key == focus.key && x.value == focus.value
      invariant |Before(p)| + Pos(x) == |Before(path)| + Pos(focus)
      decreases |p|
    {
      SplayStep(o, x, p);
      var n := |p|;
      x, p := Rotate2(o, Push(o, x), p[n - 1], p[n - 2]), p[..n - 2];
    }
    SplayLast(o, x, p);
    var px := Push(o, x);
    if p == [] {
      t := px;
    } else {
      t := Rotate1(o, px, p[0]);
    }
  }

  /** A root needs no rotation: `splay` of it is `push`. */
  lemma SplayRoot<V(!new), A(!new)>(o: Ops<V, A>, t: Tree<V, A>)
    requires t.Node?
    ensures Plug(t, []) == t && Before<V, A>([]) == [] && After<V, A>([]) == []
  {
  }
}
