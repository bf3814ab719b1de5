/**
  The entries both hash tables store (`Elem { hash, key, value }` in
  `hash_lsm_tree.rs` and in `hash_radix_tree.rs`), and the linear scan of a
  run of entries for a key that both of them perform.  Keys are integers
  (any `Eq` key type would do).
*/
module HashElems {
  import opened Wrappers

  /** `u64`, the value `Hasher::finish` returns: an integer in `[0, 2^64)`. */
  type U64 = x: int | 0 <= x < 0x1_0000_0000_0000_0000

  datatype Elem<V> = Elem(hash: U64, key: int, value: V)

  /** Every stored hash is the hasher's value on the stored key. */
  ghost predicate Hashed<V>(hasher: int -> U64, s: seq<Elem<V>>) {
    forall i :: 0 <= i < |s| ==> s[i].hash == hasher(s[i].key)
  }

  /** The value of the first entry of `s` with key `k`, as a linear scan finds it. */
  function Find<V>(s: seq<Elem<V>>, k: int): Option<V>
  {
    if s == [] then None
    else if s[0].key == k then Some(s[0].value)
    else Find(s[1..], k)
  }

  /** The first entry with key `k` is the one at `m`. */
  lemma {:induction false} FindAt<V>(s: seq<Elem<V>>, k: int, m: nat)
    requires m < |s| && s[m].key == k && forall j :: 0 <= j < m ==> s[j].key != k
    ensures Find(s, k) == Some(s[m].value)
  {
    if m > 0 {
      assert s[1..][m - 1] == s[m];
      FindAt(s[1..], k, m - 1);
    }
  }

  /** No entry has key `k`. */
  lemma {:induction false} FindNone<V>(s: seq<Elem<V>>, k: int)
    requires forall j :: 0 <= j < |s| ==> s[j].key != k
    ensures Find(s, k) == None
  {
    if s != [] {
      assert forall j :: 0 <= j < |s| - 1 ==> s[1..][j] == s[j + 1];
      FindNone(s[1..], k);
    }
  }

  /** A key with no entry: every entry has another key. */
  lemma {:induction false} FindNoneAll<V>(s: seq<Elem<V>>, k: int)
    requires Find(s, k) == None
    ensures forall j :: 0 <= j < |s| ==> s[j].key != k
  {
    if s != [] {
      FindNoneAll(s[1..], k);
      assert forall j :: 1 <= j < |s| ==> s[j] == s[1..][j - 1];
    }
  }

  /** Changing the value at `i` leaves lookups for other keys alone. */
  lemma {:induction false} FindSameAway<V>(a: seq<Elem<V>>, b: seq<Elem<V>>, i: nat, k: int)
    requires |a| == |b| && i < |a| && a[i].key == b[i].key && a[i].key != k
    requires forall j :: 0 <= j < |a| && j != i ==> a[j] == b[j]
    ensures Find(a, k) == Find(b, k)
  {
    if a != [] && a[0].key != k {
      if i > 0 {
        FindSameAway(a[1..], b[1..], i - 1, k);
      } else {
        assert a[1..] == b[1..];
      }
    }
  }

  /** An entry appended with another key leaves lookups for `k` alone. */
  lemma {:induction false} FindSnoc<V>(a: seq<Elem<V>>, e: Elem<V>, k: int)
    requires e.key != k
    ensures Find(a + [e], k) == Find(a, k)
  {
    if a != [] {
      assert (a + [e])[1..] == a[1..] + [e];
      FindSnoc(a[1..], e, k);
    } else {
      assert ([e])[1..] == [];
    }
  }

  /** Appending an entry: earlier entries win, the new one answers only for its own key. */
  lemma {:induction false} FindAppend<V>(a: seq<Elem<V>>, e: Elem<V>, k: int)
    ensures Find(a + [e], k) == if Find(a, k).Some? then Find(a, k) else if e.key == k then Some(e.value) else None
  {
    if a != [] {
      assert (a + [e])[1..] == a[1..] + [e];
      FindAppend(a[1..], e, k);
    } else {
      assert ([e])[1..] == [];
    }
  }
}
