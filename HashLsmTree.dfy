/**
  The hash LSM tree (`data_structures::hash_lsm_tree::HashLSMTree`): an
  associative array made of a small unsorted `buffer` of recent entries and
  a stack of `levels`, each sorted by `(hash, key)`.  Inserting into a full
  buffer sorts it and merges it with every level on top of the stack that is
  no longer than it, newer entries replacing older ones with the same key.

  Keys are integers (any `Ord` key type would do), and the hasher is the
  function `hasher` fixed when the tree is built.
*/
module HashLsm {
  import opened Wrappers
  import opened HashElems

  /** `BUFFER_SIZE`: the buffer is merged into the levels once it holds this many entries. */
  const BUFFER_SIZE: nat := 16

  /** `compare_hash_and_key(a, b) == Less`: `(hash, key)` compared lexicographically. */
  predicate Less<V>(a: Elem<V>, b: Elem<V>) {
    a.hash < b.hash || (a.hash == b.hash && a.key < b.key)
  }

  /** `compare_hash_and_key(a, b) == Equal`. */
  predicate SameSlot<V>(a: Elem<V>, b: Elem<V>) {
    a.hash == b.hash && a.key == b.key
  }

  /** A level: strictly increasing in `(hash, key)`. */
  ghost predicate Sorted<V>(s: seq<Elem<V>>) {
    forall i, j :: 0 <= i < j < |s| ==> Less(s[i], s[j])
  }

  ghost predicate DistinctKeys<V>(s: seq<Elem<V>>) {
    forall i, j :: 0 <= i < j < |s| ==> s[i].key != s[j].key
  }

  /** What one call of `MergingIter::next` yields: nothing, or an entry and what is left of both inputs. */
  datatype Step<V> = End | Emit(elem: Elem<V>, older: seq<Elem<V>>, newer: seq<Elem<V>>)

  /**
    `MergingIter::next` on the remaining `older` and `newer` entries: it
    yields the smaller head, and yields nothing only when both are used up.
    On a tie it yields the newer head and drops the older one.
  */
  function Next<V>(older: seq<Elem<V>>, newer: seq<Elem<V>>): (r: Step<V>)
    ensures r.End? <==> older == [] && newer == []
    ensures r.Emit? ==>
      (older != [] && r.elem == older[0] && r.older == older[1..] && r.newer == newer &&
       (newer == [] || Less(older[0], newer[0]))) ||
      (newer != [] && r.elem == newer[0] && r.newer == newer[1..] && r.older == older &&
       (older == [] || Less(newer[0], older[0]))) ||
      (older != [] && newer != [] && r.elem == newer[0] && r.newer == newer[1..] && r.older == older[1..] &&
       SameSlot(older[0], newer[0]))
  {
    if older != [] && newer != [] then
      if SameSlot(older[0], newer[0]) then Emit(newer[0], older[1..], newer[1..])
      else if Less(older[0], newer[0]) then Emit(older[0], older[1..], newer)
      else Emit(newer[0], older, newer[1..])
    else if newer != [] then Emit(newer[0], older, newer[1..])
    else if older != [] then Emit(older[0], older[1..], newer)
    else End
  }

  /** `merge_levels`: everything `MergingIter` yields, collected. */
  function Merge<V>(older: seq<Elem<V>>, newer: seq<Elem<V>>): seq<Elem<V>>
    decreases |older| + |newer|
  {
    match Next(older, newer)
    case End => []
    case Emit(e, o, n) => [e] + Merge(o, n)
  }

  /** Every merged entry comes from one of the inputs. */
  lemma {:induction false} MergeFrom<V>(older: seq<Elem<V>>, newer: seq<Elem<V>>)
    ensures forall x :: x in Merge(older, newer) ==> x in older || x in newer
    decreases |older| + |newer|
  {
    match Next(older, newer)
    case End =>
    case Emit(e, o, n) =>
      MergeFrom(o, n);
      assert forall x :: x in o ==> x in older;
      assert forall x :: x in n ==> x in newer;
  }

  /** Merged entries keep their hashes right. */
  lemma MergeHashed<V>(hasher: int -> U64, older: seq<Elem<V>>, newer: seq<Elem<V>>)
    requires Hashed(hasher, older) && Hashed(hasher, newer)
    ensures Hashed(hasher, Merge(older, newer))
  {
    MergeFrom(older, newer);
    var m := Merge(older, newer);
    forall i | 0 <= i < |m| ensures m[i].hash == hasher(m[i].key) {
      assert m[i] in m;
      if m[i] in older {
        var j :| 0 <= j < |older| && older[j] == m[i];
      } else {
        var j :| 0 <= j < |newer| && newer[j] == m[i];
      }
    }
  }

  /** Every entry of `s` sorts above `e`. */
  ghost predicate Above<V>(e: Elem<V>, s: seq<Elem<V>>) {
    forall i :: 0 <= i < |s| ==> Less(e, s[i])
  }

  lemma SortedCons<V>(e: Elem<V>, t: seq<Elem<V>>)
    requires Sorted(t) && Above(e, t)
    ensures Sorted([e] + t)
  {
    var r := [e] + t;
    forall i, j | 0 <= i < j < |r| ensures Less(r[i], r[j]) {
      if i > 0 {
        assert r[i] == t[i - 1] && r[j] == t[j - 1];
      } else {
        assert r[j] == t[j - 1];
      }
    }
  }

  lemma SortedTail<V>(s: seq<Elem<V>>)
    requires Sorted(s) && s != []
    ensures Sorted(s[1..]) && Above(s[0], s[1..])
  {
    assert forall i :: 0 <= i < |s| - 1 ==> s[1..][i] == s[i + 1];
  }

  /** Whatever sorts above `y` sorts above anything not above `y`. */
  lemma AboveLower<V>(x: Elem<V>, y: Elem<V>, s: seq<Elem<V>>)
    requires Above(y, s) && (Less(x, y) || SameSlot(x, y))
    ensures Above(x, s)
  {
  }

  lemma AboveTail<V>(e: Elem<V>, s: seq<Elem<V>>)
    requires Above(e, s) && s != []
    ensures Above(e, s[1..])
  {
    assert forall i :: 0 <= i < |s| - 1 ==> s[1..][i] == s[i + 1];
  }

  /** A bound below both inputs is below their merge. */
  lemma {:induction false} MergeAbove<V>(x: Elem<V>, older: seq<Elem<V>>, newer: seq<Elem<V>>)
    requires Above(x, older) && Above(x, newer)
    ensures Above(x, Merge(older, newer))
    decreases |older| + |newer|
  {
    match Next(older, newer)
    case End =>
    case Emit(e, o, n) =>
      if older != [] {
        AboveTail(x, older);
      }
      if newer != [] {
        AboveTail(x, newer);
      }
      MergeAbove(x, o, n);
      var m := Merge(older, newer);
      assert m == [e] + Merge(o, n);
      forall i | 0 <= i < |m| ensures Less(x, m[i]) {
        if i > 0 {
          assert m[i] == Merge(o, n)[i - 1];
        }
      }
  }

  /** Merging two levels gives a level: sorted without repeated slots. */
  lemma {:induction false} MergeSorted<V>(older: seq<Elem<V>>, newer: seq<Elem<V>>)
    requires Sorted(older) && Sorted(newer)
    ensures Sorted(Merge(older, newer))
    decreases |older| + |newer|
  {
    if older == [] && newer == [] {
      return;
    }
    var e, o, n := Next(older, newer).elem, Next(older, newer).older, Next(older, newer).newer;
    if older != [] {
      SortedTail(older);
    }
    if newer != [] {
      SortedTail(newer);
    }
    if older != [] && newer != [] && SameSlot(older[0], newer[0]) {
      AboveLower(e, older[0], o);
    } else if older != [] && (newer == [] || Less(older[0], newer[0])) {
      if newer != [] {
        SortedCons(newer[0], newer[1..]);
        assert [newer[0]] + newer[1..] == newer;
        assert Above(newer[0], newer[1..]);
        AboveLower(e, newer[0], newer[1..]);
      }
    } else {
      if older != [] {
        assert [older[0]] + older[1..] == older;
        AboveLower(e, older[0], older[1..]);
      }
    }
    MergeSorted(o, n);
    MergeAbove(e, o, n);
    SortedCons(e, Merge(o, n));
  }

  /** The merge is at least as long as either input; so a level never shrinks by merging. */
  lemma {:induction false} MergeLength<V>(older: seq<Elem<V>>, newer: seq<Elem<V>>)
    ensures |Merge(older, newer)| >= |older| && |Merge(older, newer)| >= |newer|
    decreases |older| + |newer|
  {
    match Next(older, newer)
    case End =>
    case Emit(e, o, n) =>
      MergeLength(o, n);
  }

  /** A key that sorts below the head of a hashed, sorted level is not in it. */
  lemma BelowHead<V>(hasher: int -> U64, s: seq<Elem<V>>, x: Elem<V>)
    requires Sorted(s) && Hashed(hasher, s) && s != [] && Less(x, s[0]) && x.hash == hasher(x.key)
    ensures Find(s, x.key) == None
  {
    forall j | 0 <= j < |s| ensures s[j].key != x.key {
      if j > 0 {
        assert Less(s[0], s[j]);
      }
    }
    FindNone(s, x.key);
  }

  /**
    Looking a key up in the merge finds the newer level's entry if it has
    one, and the older level's otherwise.
  */
  lemma {:induction false} MergeFind<V>(hasher: int -> U64, older: seq<Elem<V>>, newer: seq<Elem<V>>, k: int)
    requires Sorted(older) && Sorted(newer) && Hashed(hasher, older) && Hashed(hasher, newer)
    ensures Find(Merge(older, newer), k) == if Find(newer, k).Some? then Find(newer, k) else Find(older, k)
    decreases |older| + |newer|
  {
    if older == [] && newer == [] {
      return;
    }
    var e, o, n := Next(older, newer).elem, Next(older, newer).older, Next(older, newer).newer;
    if older != [] {
      SortedTail(older);
      assert forall i :: 0 <= i < |older| - 1 ==> older[1..][i] == older[i + 1];
    }
    if newer != [] {
      SortedTail(newer);
      assert forall i :: 0 <= i < |newer| - 1 ==> newer[1..][i] == newer[i + 1];
    }
    MergeFind(hasher, o, n, k);
    assert ([e] + Merge(o, n))[1..] == Merge(o, n);
    if older != [] && newer != [] && SameSlot(older[0], newer[0]) {
    } else if older != [] && (newer == [] || Less(older[0], newer[0])) {
      if newer != [] && e.key == k {
        BelowHead(hasher, newer, e);
      }
    } else {
    }
  }

  /** `merge_levels` of two levels is a level holding the newer entry of each key, or else the older. */
  lemma MergeLevel<V>(hasher: int -> U64, older: seq<Elem<V>>, newer: seq<Elem<V>>)
    requires Sorted(older) && Sorted(newer) && Hashed(hasher, older) && Hashed(hasher, newer)
    ensures Sorted(Merge(older, newer)) && Hashed(hasher, Merge(older, newer))
    ensures forall k :: Find(Merge(older, newer), k) == if Find(newer, k).Some? then Find(newer, k) else Find(older, k)
  {
    MergeSorted(older, newer);
    MergeHashed(hasher, older, newer);
    forall k ensures Find(Merge(older, newer), k) == if Find(newer, k).Some? then Find(newer, k) else Find(older, k) {
      MergeFind(hasher, older, newer, k);
    }
  }

  /** `sort_unstable_by(compare_hash_and_key)`, one entry at a time: `e` put in its place in `s`. */
  function InsertSorted<V>(e: Elem<V>, s: seq<Elem<V>>): seq<Elem<V>>
  {
    if s == [] then [e]
    else if Less(e, s[0]) then [e] + s
    else [s[0]] + InsertSorted(e, s[1..])
  }

  function SortElems<V>(s: seq<Elem<V>>): seq<Elem<V>>
  {
    if s == [] then [] else InsertSorted(s[0], SortElems(s[1..]))
  }

  /** A bound below `e` and below `s` stays below once `e` is put into `s`. */
  lemma {:induction false} InsertAbove<V>(x: Elem<V>, e: Elem<V>, s: seq<Elem<V>>)
    requires Above(x, s) && Less(x, e)
    ensures Above(x, InsertSorted(e, s))
  {
    if s != [] && !Less(e, s[0]) {
      AboveTail(x, s);
      InsertAbove(x, e, s[1..]);
      assert Above(x, [s[0]] + InsertSorted(e, s[1..]));
    }
  }

  /** Putting `e` into a sorted `s` without its slot keeps it sorted. */
  lemma {:induction false} InsertSorts<V>(e: Elem<V>, s: seq<Elem<V>>)
    requires Sorted(s) && forall j :: 0 <= j < |s| ==> s[j].key != e.key
    ensures Sorted(InsertSorted(e, s))
  {
    if s == [] {
    } else if Less(e, s[0]) {
      SortedTail(s);
      AboveLower(e, s[0], s[1..]);
      assert [s[0]] + s[1..] == s;
      SortedCons(e, s);
    } else {
      SortedTail(s);
      assert forall j :: 0 <= j < |s| - 1 ==> s[1..][j] == s[j + 1];
      InsertSorts(e, s[1..]);
      InsertAbove(s[0], e, s[1..]);
      SortedCons(s[0], InsertSorted(e, s[1..]));
    }
  }

  /** Putting `e` into `s` keeps every stored hash right. */
  lemma {:induction false} InsertHashed<V>(hasher: int -> U64, e: Elem<V>, s: seq<Elem<V>>)
    requires Hashed(hasher, s) && e.hash == hasher(e.key)
    ensures Hashed(hasher, InsertSorted(e, s))
  {
    if s != [] && !Less(e, s[0]) {
      assert forall j :: 0 <= j < |s| - 1 ==> s[1..][j] == s[j + 1];
      InsertHashed(hasher, e, s[1..]);
      var r := [s[0]] + InsertSorted(e, s[1..]);
      assert forall j :: 1 <= j < |r| ==> r[j] == InsertSorted(e, s[1..])[j - 1];
    }
  }

  /** After putting in `e` of a new key, that key finds `e` and every other key what it found before. */
  lemma {:induction false} InsertFind<V>(e: Elem<V>, s: seq<Elem<V>>, k: int)
    requires forall j :: 0 <= j < |s| ==> s[j].key != e.key
    ensures Find(InsertSorted(e, s), k) == if k == e.key then Some(e.value) else Find(s, k)
  {
    if s == [] {
      assert Find([e], k) == if k == e.key then Some(e.value) else Find([e][1..], k);
    } else if Less(e, s[0]) {
      assert ([e] + s)[1..] == s;
    } else {
      assert forall j :: 0 <= j < |s| - 1 ==> s[1..][j] == s[j + 1];
      InsertFind(e, s[1..], k);
      assert ([s[0]] + InsertSorted(e, s[1..]))[1..] == InsertSorted(e, s[1..]);
    }
  }

  /** Putting `e` into `s` adds exactly `e` to its entries. */
  lemma {:induction false} InsertPerm<V>(e: Elem<V>, s: seq<Elem<V>>)
    ensures multiset(InsertSorted(e, s)) == multiset(s) + multiset{e}
  {
    if s != [] && !Less(e, s[0]) {
      InsertPerm(e, s[1..]);
      assert s == [s[0]] + s[1..];
    }
  }

  /** `sort_unstable_by` only reorders: the sorted buffer holds the buffer's entries. */
  lemma {:induction false} SortElemsPerm<V>(s: seq<Elem<V>>)
    ensures multiset(SortElems(s)) == multiset(s)
  {
    if s != [] {
      SortElemsPerm(s[1..]);
      InsertPerm(s[0], SortElems(s[1..]));
      assert s == [s[0]] + s[1..];
    }
  }

  /** The sorted buffer is a level with the buffer's lookups. */
  lemma {:induction false} SortElemsSpec<V>(hasher: int -> U64, s: seq<Elem<V>>)
    requires Hashed(hasher, s) && DistinctKeys(s)
    ensures Sorted(SortElems(s)) && Hashed(hasher, SortElems(s))
    ensures forall k :: Find(SortElems(s), k) == Find(s, k)
  {
    if s != [] {
      var t := s[1..];
      assert forall i :: 0 <= i < |t| ==> t[i] == s[i + 1];
      SortElemsSpec(hasher, t);
      FindNone(t, s[0].key);
      FindNoneAll(SortElems(t), s[0].key);
      InsertSorts(s[0], SortElems(t));
      InsertHashed(hasher, s[0], SortElems(t));
      forall k ensures Find(SortElems(s), k) == Find(s, k) {
        InsertFind(s[0], SortElems(t), k);
      }
    }
  }

  /** Level lengths strictly decrease from the bottom of the stack to its top. */
  ghost predicate Shrinking<V>(levels: seq<seq<Elem<V>>>) {
    forall i, j :: 0 <= i < j < |levels| ==> |levels[i]| > |levels[j]|
  }

  /** A key looked up in the levels, from the most recently pushed one down. */
  function LookupLevels<V>(levels: seq<seq<Elem<V>>>, k: int): Option<V>
    decreases |levels|
  {
    if levels == [] then None
    else
      var top := levels[|levels| - 1];
      if Find(top, k).Some? then Find(top, k) else LookupLevels(levels[..|levels| - 1], k)
  }

  /** The value the tree maps `k` to: the buffer's if there is one, else the newest level's. */
  function Lookup<V>(buffer: seq<Elem<V>>, levels: seq<seq<Elem<V>>>, k: int): Option<V>
  {
    if Find(buffer, k).Some? then Find(buffer, k) else LookupLevels(levels, k)
  }

  /**
    The searches of `get` in one non-empty level from the start index `i`:
    forwards while hashes do not exceed the target when `level[i]` is not
    above it, backwards while they are not below it when `level[i]` is not
    below it.  Whatever the start index, this finds the level's entry for
    `key`, or nothing when it has none.
  */
  method ScanLevel<V>(ghost hasher: int -> U64, level: seq<Elem<V>>, hash: U64, key: int, i: nat) returns (r: Option<V>)
    requires Sorted(level) && Hashed(hasher, level) && hash == hasher(key) && i < |level|
    ensures r == Find(level, key)
  {
    if level[i].hash <= hash {
      var j := i;
      while j < |level| && !(hash < level[j].hash)
        invariant i <= j <= |level|
        invariant forall m :: i <= m < j ==> level[m].key != key
      {
        if level[j].key == key {
          KeyFound(hasher, level, key, j);
          return Some(level[j].value);
        }
        j := j + 1;
      }
      forall m | j <= m < |level| ensures level[m].key != key {
        HashApart(hasher, level, key, j, m);
      }
    }
    if level[i].hash >= hash {
      var j := i + 1;
      while j > 0 && !(hash > level[j - 1].hash)
        invariant 0 <= j <= i + 1
        invariant forall m :: j <= m <= i ==> level[m].key != key
      {
        j := j - 1;
        if level[j].key == key {
          KeyFound(hasher, level, key, j);
          return Some(level[j].value);
        }
      }
      forall m | 0 <= m < j ensures level[m].key != key {
        HashApart(hasher, level, key, m, j - 1);
      }
    }
    forall m | 0 <= m < |level| ensures level[m].key != key {
      if m < i {
        HashApart(hasher, level, key, m, i);
      } else if i < m {
        HashApart(hasher, level, key, i, m);
      }
    }
    FindNone(level, key);
    return None;
  }

  /**
    Hashes do not decrease along a sorted level: an entry at or after one of
    hash above `key`'s, or at or before one of hash below it, has another key.
  */
  lemma HashApart<V>(hasher: int -> U64, level: seq<Elem<V>>, key: int, a: nat, b: nat)
    requires Sorted(level) && Hashed(hasher, level) && a <= b < |level|
    ensures hasher(key) < level[a].hash ==> level[b].key != key
    ensures level[b].hash < hasher(key) ==> level[a].key != key
  {
    if a < b {
      assert Less(level[a], level[b]);
    }
  }

  /** An entry with the key, found anywhere in a level, is the one a lookup finds. */
  lemma KeyFound<V>(hasher: int -> U64, level: seq<Elem<V>>, key: int, j: nat)
    requires Sorted(level) && Hashed(hasher, level) && j < |level| && level[j].key == key
    ensures Find(level, key) == Some(level[j].value)
  {
    forall m | 0 <= m < j ensures level[m].key != key {
      assert Less(level[m], level[j]);
    }
    FindAt(level, key, j);
  }

  /**
    The start index of `get`'s search in a level of `len` entries, the
    interpolation `min(floor(len * hash / 2^64), len - 1)` in exact
    arithmetic.
  */
  function StartIndex(len: nat, hash: U64): (i: nat)
    requires len > 0
    ensures i < len
  {
    var guess := (len * (hash as int)) / 0x1_0000_0000_0000_0000;
    if guess < len - 1 then guess else len - 1
  }

  /** A stack of levels as `fix` keeps it: each sorted and hashed, lengths shrinking towards the top. */
  ghost predicate Stack<V>(hasher: int -> U64, levels: seq<seq<Elem<V>>>) {
    && (forall l :: 0 <= l < |levels| ==> Sorted(levels[l]) && Hashed(hasher, levels[l]))
    && Shrinking(levels)
  }

  /**
    The `while let` loop of `fix` and the final push: the sorted buffer
    `buf0` is merged with every level on top of the stack that is not
    longer than it, and the result pushed.  The new stack maps each key as
    `buf0` does, falling back to the old stack.
  */
  method MergeDown<V>(ghost hasher: int -> U64, buf0: seq<Elem<V>>, levels0: seq<seq<Elem<V>>>)
    returns (levels: seq<seq<Elem<V>>>)
    requires Sorted(buf0) && Hashed(hasher, buf0) && Stack(hasher, levels0)
    ensures Stack(hasher, levels)
    ensures forall k :: LookupLevels(levels, k) == Lookup(buf0, levels0, k)
  {
    var buf := buf0;
    levels := levels0;
    while |levels| > 0
      invariant Sorted(buf) && Hashed(hasher, buf) && Stack(hasher, levels)
      invariant forall k :: Lookup(buf0, levels0, k) == Lookup(buf, levels, k)
      decreases |levels|
    {
      var l := levels[|levels| - 1];
      var rest := levels[..|levels| - 1];
      if |buf| < |l| {
        break;
      }
      MergeLevel(hasher, l, buf);
      buf := Merge(l, buf);
      levels := rest;
    }
    PushLevel(hasher, levels, buf);
    levels := levels + [buf];
  }

  /** Pushing a level shorter than the top keeps the stack, and it is searched first. */
  lemma PushLevel<V>(hasher: int -> U64, levels: seq<seq<Elem<V>>>, buf: seq<Elem<V>>)
    requires Sorted(buf) && Hashed(hasher, buf) && Stack(hasher, levels)
    requires |levels| > 0 ==> |buf| < |levels[|levels| - 1]|
    ensures Stack(hasher, levels + [buf])
    ensures forall k :: LookupLevels(levels + [buf], k) == Lookup(buf, levels, k)
  {
    assert (levels + [buf])[..|levels|] == levels;
  }

  class HashLsmTree<V> {
    var buffer: seq<Elem<V>>
    var levels: seq<seq<Elem<V>>>
    const hasher: int -> U64

    /**
      The buffer is shorter than `BUFFER_SIZE` and holds each key once; every
      level is sorted; level lengths shrink towards the top; every stored
      hash is the hasher's value on its key.
    */
    ghost predicate Valid()
      reads this
    {
      |buffer| < BUFFER_SIZE && Stored()
    }

    /** `Valid` without the bound on the buffer, as `fix` finds the tree. */
    ghost predicate Stored()
      reads this
    {
      Hashed(hasher, buffer) && DistinctKeys(buffer) && Stack(hasher, levels)
    }

    /** The map the tree represents. */
    function Mapped(k: int): Option<V>
      reads this
    {
      Lookup(buffer, levels, k)
    }

    /** `with_hasher` (and `new`, with the default hasher): an empty tree. */
    constructor (hasher: int -> U64)
      ensures Valid() && this.hasher == hasher
      ensures forall k :: Mapped(k) == None
    {
      buffer := [];
      levels := [];
      this.hasher := hasher;
    }

    /**
      `fix`: a buffer of `BUFFER_SIZE` entries is sorted and merged with
      every level on top of the stack not longer than it, and the result
      pushed as the new top level.  The represented map is unchanged.
    */
    method Fix()
      requires Stored() && |buffer| <= BUFFER_SIZE
      modifies this
      ensures Valid()
      ensures forall k :: Mapped(k) == old(Mapped(k))
      ensures old(|buffer|) < BUFFER_SIZE ==> buffer == old(buffer) && levels == old(levels)
    {
      if |buffer| < BUFFER_SIZE {
        return;
      }
      var buf := SortElems(buffer);
      SortElemsSpec(hasher, buffer);
      levels := MergeDown(hasher, buf, levels);
      buffer := [];
    }

    /**
      `insert`: a key already in the buffer has its value replaced there;
      otherwise a new entry is appended and `fix` runs.  Either way the map
      now sends `key` to `value` and every other key where it did before.
    */
    method Insert(key: int, value: V)
      requires Valid()
      modifies this
      ensures Valid()
      ensures forall k :: Mapped(k) == if k == key then Some(value) else old(Mapped(k))
      ensures (exists j :: 0 <= j < old(|buffer|) && old(buffer[j].key) == key) ==>
                levels == old(levels) && |buffer| == old(|buffer|)
    {
      var i := 0;
      while i < |buffer|
        invariant i <= |buffer|
        invariant forall j :: 0 <= j < i ==> buffer[j].key != key
      {
        if buffer[i].key == key {
          ghost var b0 := buffer;
          buffer := buffer[i := buffer[i].(value := value)];
          forall k ensures Find(buffer, k) == if k == key then Some(value) else Find(b0, k) {
            if k == key {
              FindAt(buffer, k, i);
            } else {
              FindSameAway(b0, buffer, i, k);
            }
          }
          return;
        }
        i := i + 1;
      }
      ghost var b0 := buffer;
      buffer := buffer + [Elem(hasher(key), key, value)];
      forall k ensures Find(buffer, k) == if k == key then Some(value) else Find(b0, k) {
        if k == key {
          FindAt(buffer, k, |b0|);
        } else {
          FindSnoc(b0, Elem(hasher(key), key, value), k);
        }
      }
      Fix();
    }

    /**
      `get`: the buffer is searched first, then every level from the most
      recently pushed one down, each from its interpolated start index.
    */
    method Get(key: int) returns (r: Option<V>)
      requires Valid()
      ensures r == Mapped(key)
    {
      for i := 0 to |buffer|
        invariant forall j :: 0 <= j < i ==> buffer[j].key != key
      {
        if buffer[i].key == key {
          FindAt(buffer, key, i);
          return Some(buffer[i].value);
        }
      }
      FindNone(buffer, key);
      var hash := hasher(key);
      var n := |levels|;
      assert levels[..n] == levels;
      while n > 0
        invariant n <= |levels|
        invariant LookupLevels(levels, key) == LookupLevels(levels[..n], key)
      {
        assert levels[..n][..n - 1] == levels[..n - 1];
        n := n - 1;
        var level := levels[n];
        if |level| == 0 {
          continue;
        }
        var found := ScanLevel(hasher, level, hash, key, StartIndex(|level|, hash));
        if found.Some? {
          return found;
        }
      }
      return None;
    }
  }

  /** The test: keys 10 to 999 mapped to themselves, then `0 -> 10`; `1` is absent until inserted. */
  method TestInsertGet(hasher: int -> U64) returns (at0: Option<nat>, before1: Option<nat>, after1: Option<nat>)
    ensures at0 == Some(10) && before1 == None && after1 == Some(11)
  {
    var t := new HashLsmTree<nat>(hasher);
    for i := 10 to 1000
      invariant t.Valid() && fresh(t)
      invariant forall k :: t.Mapped(k) == if 10 <= k < i then Some(k as nat) else None
    {
      t.Insert(i, i as nat);
    }
    t.Insert(0, 10);
    at0 := t.Get(0);
    before1 := t.Get(1);
    t.Insert(1, 11);
    after1 := t.Get(1);
  }
}
