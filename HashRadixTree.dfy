/**
  The hash radix tree (`data_structure::hash_radix_tree::HashRadixTree`): an
  associative array over a 32-way trie indexed by successive 5-bit digits of
  the key's hash, lowest digit first.  A leaf (`Outer`) holds an unsorted
  buffer of entries; once a buffer grows past `BUF_LEN` it is split by the
  next digit (`build_inner`).  Below depth 13 all 64 bits are used and a leaf
  is never split again.
*/
module HashRadix {
  import opened Wrappers
  import opened HashElems

  /** `E`: bits per digit. */
  const E: nat := 5
  /** `B = 1 << E`: children of an inner node. */
  const B: nat := 32
  /** `BUF_LEN = B - 1`: the longest buffer a leaf keeps before it is split. */
  const BUF_LEN: nat := 31
  /** `MASK = B - 1`: `x & MASK` is `x % B` for a non-negative `x`. */
  const MASK: nat := 31

  datatype Node<V> = Inner(children: seq<Node<V>>) | Outer(buf: seq<Elem<V>>)

  /** `B^pos`, that is `2^(pos * E)`: shifting right by `pos * E` bits is dividing by it. */
  function Shift(pos: nat): (r: nat)
    ensures r >= 1
  {
    if pos == 0 then 1 else B * Shift(pos - 1)
  }

  /** `(hash >> (pos * E)) & MASK`: the digit of `hash` that selects the child at depth `pos`. */
  function Digit(hash: U64, pos: nat): (d: nat)
    ensures d < B
  {
    (hash / Shift(pos)) % (MASK + 1)
  }

  /** `shifted >>= E` after `pos` shifts leaves `hash` shifted by `pos + 1` digits. */
  lemma ShiftStep(hash: U64, pos: nat)
    ensures (hash / Shift(pos)) / B == hash / Shift(pos + 1)
  {
    var s := Shift(pos);
    var q, r := hash / s, hash % s;
    var q2, r2 := q / B, q % B;
    assert hash == q2 * (s * B) + (r2 * s + r) by {
      assert hash == q * s + r;
      assert q == q2 * B + r2;
      assert q * s == q2 * B * s + r2 * s;
    }
    assert 0 <= r2 * s + r < s * B by {
      assert r2 * s <= (B - 1) * s;
    }
    DivUnique(hash, s * B, q2, r2 * s + r);
  }

  /** The quotient is the only `q` with `a == q * d + r` and `0 <= r < d`. */
  lemma DivUnique(a: int, d: int, q: int, r: int)
    requires d > 0 && a == q * d + r && 0 <= r < d
    ensures a / d == q
  {
    var q0, r0 := a / d, a % d;
    if q0 < q {
      MulLe(q0 + 1, q, d);
    } else if q < q0 {
      MulLe(q + 1, q0, d);
    }
  }

  lemma MulLe(x: int, y: int, d: int)
    requires x <= y && d > 0
    ensures x * d <= y * d
  {
    assert y * d - x * d == (y - x) * d;
  }

  /** The digits of `hash` at depths `0 .. depth - 1`: the path `insert` and `get` follow. */
  function Path(hash: U64, depth: nat): (p: seq<nat>)
    ensures |p| == depth && forall j :: 0 <= j < depth ==> p[j] == Digit(hash, j)
  {
    seq(depth, j requires 0 <= j < depth => Digit(hash, j))
  }

  /** Every inner node has `B` children. */
  ghost predicate Shaped<V>(n: Node<V>) {
    match n
    case Outer(_) => true
    case Inner(cs) => |cs| == B && forall i :: 0 <= i < B ==> Shaped(cs[i])
  }

  /** Every leaf entry's hash is the hasher's value on its key. */
  ghost predicate AllHashed<V>(hasher: int -> U64, n: Node<V>) {
    match n
    case Outer(buf) => Hashed(hasher, buf)
    case Inner(cs) => forall i :: 0 <= i < |cs| ==> AllHashed(hasher, cs[i])
  }

  /** Every entry sits under the path spelled by the digits of its hash; `path` leads to `n`. */
  ghost predicate Placed<V>(n: Node<V>, path: seq<nat>) {
    match n
    case Outer(buf) => forall e, j :: e in buf && 0 <= j < |path| ==> Digit(e.hash, j) == path[j]
    case Inner(cs) => forall i :: 0 <= i < |cs| ==> Placed(cs[i], path + [i])
  }

  /**
    Inner nodes occur only where digits are left (`depth * E <= 64`), and a
    leaf there holds at most `BUF_LEN` entries.
  */
  ghost predicate Bounded<V>(n: Node<V>, depth: nat) {
    match n
    case Outer(buf) => depth * E <= 64 ==> |buf| <= BUF_LEN
    case Inner(cs) => depth * E <= 64 && forall i :: 0 <= i < |cs| ==> Bounded(cs[i], depth + 1)
  }

  /** What `get` finds for `key`, of hash `hash`, below the node `n` at depth `depth`. */
  function Lookup<V>(n: Node<V>, hash: U64, key: int, depth: nat): Option<V>
    requires Shaped(n)
  {
    match n
    case Outer(buf) => Find(buf, key)
    case Inner(cs) => Lookup(cs[Digit(hash, depth)], hash, key, depth + 1)
  }

  /** The leaf the digits of `hash` lead to from `n` at depth `depth`: its buffer and its depth. */
  function Leaf<V>(n: Node<V>, hash: U64, depth: nat): (r: (seq<Elem<V>>, nat))
    requires Shaped(n)
    ensures r.1 >= depth
  {
    match n
    case Outer(buf) => (buf, depth)
    case Inner(cs) => Leaf(cs[Digit(hash, depth)], hash, depth + 1)
  }

  /** The path of `hash` from `n` reaches the same leaf as that of `other`. */
  ghost predicate SamePath<V>(n: Node<V>, hash: U64, other: U64, depth: nat)
    requires Shaped(n)
  {
    match n
    case Outer(_) => true
    case Inner(cs) => Digit(hash, depth) == Digit(other, depth) && SamePath(cs[Digit(hash, depth)], hash, other, depth + 1)
  }

  /** `*node = ...` through the reference `insert` walked down with: `n` with the leaf of `hash` replaced by `leaf`. */
  function Replace<V>(n: Node<V>, hash: U64, depth: nat, leaf: Node<V>): Node<V>
    requires Shaped(n)
  {
    match n
    case Outer(_) => leaf
    case Inner(cs) =>
      var d := Digit(hash, depth);
      Inner(cs[d := Replace(cs[d], hash, depth + 1, leaf)])
  }

  /** Every path reaches its own leaf. */
  lemma {:induction false} SamePathSelf<V>(n: Node<V>, hash: U64, depth: nat)
    requires Shaped(n)
    ensures SamePath(n, hash, hash, depth)
  {
    match n
    case Outer(_) =>
    case Inner(cs) => SamePathSelf(cs[Digit(hash, depth)], hash, depth + 1);
  }

  /** A key whose path meets the leaf of `hash` is looked up in that leaf's buffer. */
  lemma {:induction false} SamePathLookup<V>(n: Node<V>, hash: U64, other: U64, key: int, depth: nat)
    requires Shaped(n) && SamePath(n, hash, other, depth)
    ensures Lookup(n, other, key, depth) == Find(Leaf(n, hash, depth).0, key)
  {
    match n
    case Outer(_) =>
    case Inner(cs) => SamePathLookup(cs[Digit(hash, depth)], hash, other, key, depth + 1);
  }

  /**
    Replacing the leaf of `hash`: the keys whose path meets it are looked up
    in the new leaf, from the old leaf's depth; every other lookup is as before.
  */
  lemma {:induction false} ReplaceLookup<V>(n: Node<V>, hash: U64, depth: nat, leaf: Node<V>, other: U64, key: int)
    requires Shaped(n) && Shaped(leaf)
    ensures Shaped(Replace(n, hash, depth, leaf))
    ensures Lookup(Replace(n, hash, depth, leaf), other, key, depth) ==
      if SamePath(n, hash, other, depth) then Lookup(leaf, other, key, Leaf(n, hash, depth).1)
      else Lookup(n, other, key, depth)
  {
    match n
    case Outer(_) =>
    case Inner(cs) =>
      var d := Digit(hash, depth);
      ReplaceLookup(cs[d], hash, depth + 1, leaf, other, key);
      var cs' := cs[d := Replace(cs[d], hash, depth + 1, leaf)];
      assert forall i :: 0 <= i < B ==> Shaped(cs'[i]);
  }

  /** Replacing a leaf by one that keeps the invariants at the leaf's place keeps them for the whole tree. */
  lemma {:induction false} ReplaceKeeps<V>(hasher: int -> U64, n: Node<V>, hash: U64, depth: nat, leaf: Node<V>)
    requires Shaped(n) && AllHashed(hasher, n) && Placed(n, Path(hash, depth)) && Bounded(n, depth)
    requires AllHashed(hasher, leaf) && Placed(leaf, Path(hash, Leaf(n, hash, depth).1)) && Bounded(leaf, Leaf(n, hash, depth).1)
    ensures AllHashed(hasher, Replace(n, hash, depth, leaf))
    ensures Placed(Replace(n, hash, depth, leaf), Path(hash, depth))
    ensures Bounded(Replace(n, hash, depth, leaf), depth)
  {
    match n
    case Outer(_) =>
    case Inner(cs) =>
      var d := Digit(hash, depth);
      assert Path(hash, depth) + [d] == Path(hash, depth + 1);
      ReplaceKeeps(hasher, cs[d], hash, depth + 1, leaf);
  }

  /** Bucket `i` of `build_inner` at depth `pos`: the entries of `buf` with digit `i`, in their order. */
  function Bucket<V>(buf: seq<Elem<V>>, pos: nat, i: nat): (b: seq<Elem<V>>)
    ensures |b| <= |buf|
  {
    if buf == [] then []
    else
      var last := buf[|buf| - 1];
      Bucket(buf[..|buf| - 1], pos, i) + if Digit(last.hash, pos) == i then [last] else []
  }

  /** A bucket holds entries of the buffer with the bucket's digit. */
  lemma {:induction false} BucketFrom<V>(buf: seq<Elem<V>>, pos: nat, i: nat)
    ensures forall e :: e in Bucket(buf, pos, i) ==> e in buf && Digit(e.hash, pos) == i
  {
    if buf != [] {
      BucketFrom(buf[..|buf| - 1], pos, i);
    }
  }

  /** Looking a key up in the bucket of its hash finds what looking it up in the whole buffer finds. */
  lemma {:induction false} BucketFind<V>(hasher: int -> U64, buf: seq<Elem<V>>, pos: nat, key: int)
    requires Hashed(hasher, buf)
    ensures Find(Bucket(buf, pos, Digit(hasher(key), pos)), key) == Find(buf, key)
  {
    if buf != [] {
      var init, last := buf[..|buf| - 1], buf[|buf| - 1];
      assert buf == init + [last];
      BucketFind(hasher, init, pos, key);
      FindAppend(init, last, key);
      if Digit(last.hash, pos) == Digit(hasher(key), pos) {
        FindAppend(Bucket(init, pos, Digit(hasher(key), pos)), last, key);
      } else {
        assert Bucket(buf, pos, Digit(hasher(key), pos)) == Bucket(init, pos, Digit(hasher(key), pos));
      }
    }
  }

  /** Depths left before the digits run out. */
  function Height(pos: nat): nat {
    if pos <= 13 then 13 - pos else 0
  }

  /**
    `build_inner(buf, pos)`: past the last digit the buffer stays a leaf;
    otherwise an inner node whose child `i` is bucket `i`, split again when
    it is longer than `BUF_LEN`.
  */
  function Build<V>(buf: seq<Elem<V>>, pos: nat): Node<V>
    decreases Height(pos), 1
  {
    if pos * E > 64 then Outer(buf)
    else Inner(seq(B, i requires 0 <= i < B => Child(buf, pos, i)))
  }

  /** Child `i` of `build_inner(buf, pos)`. */
  function Child<V>(buf: seq<Elem<V>>, pos: nat, i: nat): Node<V>
    requires pos * E <= 64
    decreases Height(pos), 0
  {
    var b := Bucket(buf, pos, i);
    if |b| > BUF_LEN then Build(b, pos + 1) else Outer(b)
  }

  /** Looking a key up in the split buffer finds what looking it up in the buffer finds. */
  lemma {:induction false} BuildLookup<V>(hasher: int -> U64, buf: seq<Elem<V>>, pos: nat, key: int)
    requires Hashed(hasher, buf)
    ensures Shaped(Build(buf, pos)) && Lookup(Build(buf, pos), hasher(key), key, pos) == Find(buf, key)
    decreases Height(pos)
  {
    if pos * E <= 64 {
      forall i | 0 <= i < B ensures Shaped(Child(buf, pos, i)) {
        var b := Bucket(buf, pos, i);
        if |b| > BUF_LEN {
          BucketFrom(buf, pos, i);
          BuildLookup(hasher, b, pos + 1, key);
        }
      }
      var d := Digit(hasher(key), pos);
      var b := Bucket(buf, pos, d);
      BucketFind(hasher, buf, pos, key);
      if |b| > BUF_LEN {
        BucketFrom(buf, pos, d);
        BuildLookup(hasher, b, pos + 1, key);
      }
    }
  }

  /** The split keeps the hashes right, every entry under its digits, and the leaves short enough. */
  lemma {:induction false} BuildKeeps<V>(hasher: int -> U64, buf: seq<Elem<V>>, path: seq<nat>)
    requires Hashed(hasher, buf)
    requires forall e, j :: e in buf && 0 <= j < |path| ==> Digit(e.hash, j) == path[j]
    ensures AllHashed(hasher, Build(buf, |path|)) && Placed(Build(buf, |path|), path)
    ensures Bounded(Build(buf, |path|), |path|)
    decreases Height(|path|)
  {
    var pos := |path|;
    if pos * E <= 64 {
      forall i | 0 <= i < B
        ensures AllHashed(hasher, Child(buf, pos, i)) && Placed(Child(buf, pos, i), path + [i])
        ensures Bounded(Child(buf, pos, i), pos + 1)
      {
        var b := Bucket(buf, pos, i);
        BucketFrom(buf, pos, i);
        assert Hashed(hasher, b) by {
          forall j | 0 <= j < |b| ensures b[j].hash == hasher(b[j].key) {
            assert b[j] in buf;
            var m :| 0 <= m < |buf| && buf[m] == b[j];
          }
        }
        if |b| > BUF_LEN {
          BuildKeeps(hasher, b, path + [i]);
        }
      }
    }
  }

  /**
    `build_inner`, with its bucket fill loop: every entry goes to the bucket
    of its digit at `pos`, then each bucket longer than `BUF_LEN` is split
    one digit further.
  */
  method BuildInner<V>(buffer: seq<Elem<V>>, pos: nat) returns (node: Node<V>)
    ensures node == Build(buffer, pos)
    decreases Height(pos)
  {
    if pos * E > 64 {
      return Outer(buffer);
    }
    var buffers := FillBuckets(buffer, pos);
    var arr: seq<Node<V>> := seq(B, _ => Outer([]));
    for i := 0 to B
      invariant |arr| == B && forall c :: 0 <= c < i ==> arr[c] == Child(buffer, pos, c)
    {
      var b := buffers[i];
      if |b| > BUF_LEN {
        var child := BuildInner(b, pos + 1);
        arr := arr[i := child];
      } else {
        arr := arr[i := Outer(b)];
      }
    }
    assert arr == seq(B, i requires 0 <= i < B => Child(buffer, pos, i));
    return Inner(arr);
  }

  /** The first loop of `build_inner`: each entry pushed onto the bucket of its digit at `pos`. */
  method FillBuckets<V>(buffer: seq<Elem<V>>, pos: nat) returns (buffers: seq<seq<Elem<V>>>)
    ensures |buffers| == B && forall i :: 0 <= i < B ==> buffers[i] == Bucket(buffer, pos, i)
  {
    buffers := seq(B, _ => []);
    for j := 0 to |buffer|
      invariant |buffers| == B && forall i :: 0 <= i < B ==> buffers[i] == Bucket(buffer[..j], pos, i)
    {
      assert buffer[..j + 1][..j] == buffer[..j];
      var id := ((buffer[j].hash / Shift(pos)) % (MASK + 1)) as nat;
      buffers := buffers[id := buffers[id] + [buffer[j]]];
    }
    assert buffer[..|buffer|] == buffer;
  }

  class HashRadixTree<V> {
    var root: Node<V>
    const hasher: int -> U64

    /** Every inner node has `B` children, entries carry their hashes and sit under their digits, leaves are short. */
    ghost predicate Valid()
      reads this
    {
      Shaped(root) && AllHashed(hasher, root) && Placed(root, []) && Bounded(root, 0)
    }

    /** The map the tree represents. */
    ghost function Mapped(k: int): Option<V>
      reads this
      requires Valid()
    {
      Lookup(root, hasher(k), k, 0)
    }

    /** `with_hasher` (and `new`, with the default hasher): a single empty leaf. */
    constructor (hasher: int -> U64)
      ensures Valid() && this.hasher == hasher
      ensures forall k :: Mapped(k) == None
    {
      root := Outer([]);
      this.hasher := hasher;
    }

    /**
      `insert`: the walk follows the digits of the key's hash down to a
      leaf.  A key already there has its value replaced and the old one
      returned; otherwise the entry is pushed, the leaf split if it grew
      past `BUF_LEN`, and `None` returned.  Either way the map now sends
      `key` to `value` and every other key where it did before.
    */
    method Insert(key: int, value: V) returns (r: Option<V>)
      requires Valid()
      modifies this
      ensures Valid()
      ensures r == old(Mapped(key))
      ensures forall k :: Mapped(k) == if k == key then Some(value) else old(Mapped(k))
    {
      var hash := hasher(key);
      var tree := root;
      var buf, i := Walk(tree, hash);
      assert Path(hash, 0) == [];
      LeafKeeps(hasher, tree, hash, 0);
      SamePathSelf(tree, hash, 0);
      SamePathLookup(tree, hash, hash, key, 0);
      var leaf;
      leaf, r := PutInLeaf(hasher, buf, i, hash, key, value);
      ReplaceLeaf(hasher, tree, hash, key, value, buf, leaf);
      root := Replace(tree, hash, 0, leaf);
    }

    /**
      `get`: the walk follows the digits of the key's hash down to a leaf,
      whose buffer is scanned for the key.
    */
    method Get(key: int) returns (r: Option<V>)
      requires Valid()
      ensures r == Mapped(key)
    {
      var hash := hasher(key);
      var buf, _ := Walk(root, hash);
      SamePathSelf(root, hash, 0);
      SamePathLookup(root, hash, hash, key, 0);
      for j := 0 to |buf|
        invariant forall m :: 0 <= m < j ==> buf[m].key != key
      {
        if buf[j].key == key {
          FindAt(buf, key, j);
          return Some(buf[j].value);
        }
      }
      FindNone(buf, key);
      return None;
    }
  }

  /**
    The walk of `insert` and `get` from `tree`: while at an inner node, go to
    child `shifted & MASK` and shift `shifted` right by `E` bits.  It ends at
    the leaf the digits of `hash` spell, and at that leaf's depth.
  */
  method Walk<V>(tree: Node<V>, hash: U64) returns (buf: seq<Elem<V>>, depth: nat)
    requires Shaped(tree)
    ensures (buf, depth) == Leaf(tree, hash, 0)
  {
    var node := tree;
    var shifted := hash;
    depth := 0;
    while node.Inner?
      invariant Shaped(node) && shifted == hash / Shift(depth)
      invariant Leaf(tree, hash, 0) == Leaf(node, hash, depth)
      decreases node
    {
      var id := shifted % (MASK + 1);
      node := node.children[id];
      ShiftStep(hash, depth);
      shifted := shifted / B;
      depth := depth + 1;
    }
    buf := node.buf;
  }

  /**
    `insert` at the leaf `buf` it reached at depth `depth`: an entry with the
    key has its value replaced, and the old value is returned; otherwise the
    entry is pushed and the buffer split by `build_inner` once it is longer
    than `BUF_LEN`.  The new leaf answers `key` with `value` and every other
    key as `buf` did, and keeps the tree's invariants at that place.
  */
  method PutInLeaf<V>(ghost hasher: int -> U64, buf: seq<Elem<V>>, depth: nat, hash: U64, key: int, value: V)
    returns (leaf: Node<V>, r: Option<V>)
    requires hash == hasher(key) && Hashed(hasher, buf) && (depth * E <= 64 ==> |buf| <= BUF_LEN)
    requires forall e, m :: e in buf && 0 <= m < depth ==> Digit(e.hash, m) == Digit(hash, m)
    ensures r == Find(buf, key)
    ensures Shaped(leaf) && AllHashed(hasher, leaf) && Placed(leaf, Path(hash, depth)) && Bounded(leaf, depth)
    ensures forall k :: Lookup(leaf, hasher(k), k, depth) == if k == key then Some(value) else Find(buf, k)
  {
    var j := 0;
    while j < |buf| && buf[j].key != key
      invariant j <= |buf| && forall m :: 0 <= m < j ==> buf[m].key != key
    {
      j := j + 1;
    }
    if j < |buf| {
      FindAt(buf, key, j);
      r := Some(buf[j].value);
      var buf' := buf[j := buf[j].(value := value)];
      forall k ensures Find(buf', k) == if k == key then Some(value) else Find(buf, k) {
        if k == key {
          FindAt(buf', k, j);
        } else {
          FindSameAway(buf, buf', j, k);
        }
      }
      forall e, m | e in buf' && 0 <= m < depth ensures Digit(e.hash, m) == Path(hash, depth)[m] {
        var i :| 0 <= i < |buf'| && buf'[i] == e;
        assert buf[i] in buf;
      }
      leaf := Outer(buf');
    } else {
      FindNone(buf, key);
      r := None;
      var buf' := buf + [Elem(hash, key, value)];
      forall k ensures Find(buf', k) == if k == key then Some(value) else Find(buf, k) {
        FindAppend(buf, Elem(hash, key, value), k);
      }
      if |buf'| > BUF_LEN {
        leaf := BuildInner(buf', depth);
        BuildAll(hasher, buf', hash, depth);
      } else {
        leaf := Outer(buf');
      }
    }
  }

  /** A split buffer keeps the tree's invariants and answers every key as the buffer did. */
  lemma BuildAll<V>(hasher: int -> U64, buf: seq<Elem<V>>, hash: U64, depth: nat)
    requires Hashed(hasher, buf) && forall e, m :: e in buf && 0 <= m < depth ==> Digit(e.hash, m) == Digit(hash, m)
    ensures Shaped(Build(buf, depth)) && AllHashed(hasher, Build(buf, depth))
    ensures Placed(Build(buf, depth), Path(hash, depth)) && Bounded(Build(buf, depth), depth)
    ensures forall k :: Lookup(Build(buf, depth), hasher(k), k, depth) == Find(buf, k)
  {
    BuildKeeps(hasher, buf, Path(hash, depth));
    BuildLookup(hasher, buf, depth, 0);
    forall k ensures Lookup(Build(buf, depth), hasher(k), k, depth) == Find(buf, k) {
      BuildLookup(hasher, buf, depth, k);
    }
  }

  /** The leaf the walk reaches keeps its entries' hashes, holds only entries of its path, and is short enough. */
  lemma {:induction false} LeafKeeps<V>(hasher: int -> U64, n: Node<V>, hash: U64, depth: nat)
    requires Shaped(n) && AllHashed(hasher, n) && Placed(n, Path(hash, depth)) && Bounded(n, depth)
    ensures Hashed(hasher, Leaf(n, hash, depth).0)
    ensures forall e, j :: e in Leaf(n, hash, depth).0 && 0 <= j < Leaf(n, hash, depth).1 ==> Digit(e.hash, j) == Digit(hash, j)
    ensures Leaf(n, hash, depth).1 * E <= 64 ==> |Leaf(n, hash, depth).0| <= BUF_LEN
  {
    match n
    case Outer(_) =>
    case Inner(cs) =>
      var d := Digit(hash, depth);
      assert Path(hash, depth) + [d] == Path(hash, depth + 1);
      LeafKeeps(hasher, cs[d], hash, depth + 1);
  }

  /**
    Replacing the leaf `buf` of `key`'s hash by a leaf that answers `key`
    with `value` and every other key as `buf` did: the tree keeps its
    invariants and now maps `key` to `value`, every other key as before.
  */
  lemma ReplaceLeaf<V>(hasher: int -> U64, n: Node<V>, hash: U64, key: int, value: V, buf: seq<Elem<V>>, leaf: Node<V>)
    requires Shaped(n) && AllHashed(hasher, n) && Placed(n, []) && Bounded(n, 0)
    requires hash == hasher(key) && buf == Leaf(n, hash, 0).0
    requires Shaped(leaf) && AllHashed(hasher, leaf)
    requires Placed(leaf, Path(hash, Leaf(n, hash, 0).1)) && Bounded(leaf, Leaf(n, hash, 0).1)
    requires forall k :: Lookup(leaf, hasher(k), k, Leaf(n, hash, 0).1) == if k == key then Some(value) else Find(buf, k)
    ensures Shaped(Replace(n, hash, 0, leaf)) && AllHashed(hasher, Replace(n, hash, 0, leaf))
    ensures Placed(Replace(n, hash, 0, leaf), []) && Bounded(Replace(n, hash, 0, leaf), 0)
    ensures forall k :: (Lookup(Replace(n, hash, 0, leaf), hasher(k), k, 0) ==
      if k == key then Some(value) else Lookup(n, hasher(k), k, 0))
  {
    assert Path(hash, 0) == [];
    ReplaceKeeps(hasher, n, hash, 0, leaf);
    ReplaceLookup(n, hash, 0, leaf, hash, key);
    forall k ensures Lookup(Replace(n, hash, 0, leaf), hasher(k), k, 0) ==
      if k == key then Some(value) else Lookup(n, hasher(k), k, 0)
    {
      ReplaceLookup(n, hash, 0, leaf, hasher(k), k);
      SamePathSelf(n, hash, 0);
      if SamePath(n, hash, hasher(k), 0) {
        SamePathLookup(n, hash, hasher(k), k, 0);
      }
    }
  }

  /** The test: keys 10 to 999 mapped to themselves, then `0 -> 10`; `1` is absent until inserted. */
  method TestInsertGet(hasher: int -> U64) returns (at0: Option<nat>, before1: Option<nat>, after1: Option<nat>)
    ensures at0 == Some(10) && before1 == None && after1 == Some(11)
  {
    var t := new HashRadixTree<nat>(hasher);
    for i := 10 to 1000
      invariant t.Valid() && fresh(t)
      invariant forall k :: t.Mapped(k) == if 10 <= k < i then Some(k as nat) else None
    {
      var _ := t.Insert(i, i as nat);
    }
    var _ := t.Insert(0, 10);
    at0 := t.Get(0);
    before1 := t.Get(1);
    var _ := t.Insert(1, 11);
    after1 := t.Get(1);
  }
}
