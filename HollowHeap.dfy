/**
  The lazy hollow heap (`data_structure::lazy_hollow_heap::LazyHollowHeap`).

  Nodes live in the arena `nodes` and are named by their index, which is
  also what a `Ref` holds.  A node is *full* while it has a value and
  *hollow* once the value has been taken out.  Children are kept as a list
  threaded through `firstChild` and `nextSibling`; a hollow node left behind
  by a key decrease also hangs below the node that replaced it, recorded in
  `secondParent`.  Keys are integers: the source is generic over an ordered
  key type and only compares keys.

  Deleting the root starts a rebuild that scans the hollow roots and ranks
  the full nodes found below them.  Whether that scan ends depends on which
  nodes are reachable from the root, which this model does not track, so
  the rebuild is run under a step bound.
*/
module HollowHeap {
  import opened Wrappers

  /** One arena slot. */
  datatype HNode<V> = HNode(
    key: int,
    value: Option<V>,
    rank: nat,
    secondParent: Option<nat>,
    firstChild: Option<nat>,
    nextSibling: Option<nat>)

  /** `Node::new`: a full node of rank 0 with no links. */
  function Singleton<V>(key: int, value: V): HNode<V> {
    HNode(key, Some(value), 0, None, None, None)
  }

  predicate InRange(o: Option<nat>, n: nat) {
    o.Some? ==> o.value < n
  }

  /** Every link of every node names a slot of the arena. */
  predicate Ptrs<V>(nodes: seq<HNode<V>>) {
    forall i :: 0 <= i < |nodes| ==>
      && InRange(nodes[i].secondParent, |nodes|)
      && InRange(nodes[i].firstChild, |nodes|)
      && InRange(nodes[i].nextSibling, |nodes|)
  }

  /** Two arenas hold the same keys and values at the same slots. */
  ghost predicate SameItems<V>(a: seq<HNode<V>>, b: seq<HNode<V>>) {
    && |a| == |b|
    && forall i :: 0 <= i < |a| ==> a[i].key == b[i].key && a[i].value == b[i].value
  }

  /** As `SameItems`, and the ranks agree too. */
  ghost predicate SameRanked<V>(a: seq<HNode<V>>, b: seq<HNode<V>>) {
    && SameItems(a, b)
    && forall i :: 0 <= i < |a| ==> a[i].rank == b[i].rank
  }

  /** The effect of `add_child(child, parent)`: `child` is pushed in front of `parent`'s children. */
  function AddChildF<V>(nodes: seq<HNode<V>>, child: nat, parent: nat): (r: seq<HNode<V>>)
    requires child < |nodes| && parent < |nodes|
    ensures SameRanked(nodes, r)
    ensures Ptrs(nodes) ==> Ptrs(r)
    ensures r[parent].firstChild == Some(child)
    ensures r[child].nextSibling == nodes[parent].firstChild
    ensures forall i :: 0 <= i < |r| && i != child && i != parent ==> r[i] == nodes[i]
    ensures forall i :: 0 <= i < |r| ==> r[i].secondParent == nodes[i].secondParent
  {
    var pushed := nodes[parent := nodes[parent].(firstChild := Some(child))];
    pushed[child := pushed[child].(nextSibling := nodes[parent].firstChild)]
  }

  /** The node `link(lhs, rhs)` keeps as the root: the smaller key, `rhs` on a tie. */
  function LinkWinner<V>(nodes: seq<HNode<V>>, lhs: nat, rhs: nat): (w: nat)
    requires lhs < |nodes| && rhs < |nodes|
    ensures w == lhs || w == rhs
    ensures nodes[w].key <= nodes[lhs].key && nodes[w].key <= nodes[rhs].key
    ensures nodes[lhs].key == nodes[rhs].key ==> w == rhs
  {
    if nodes[lhs].key < nodes[rhs].key then lhs else rhs
  }

  /** The effect of `link(lhs, rhs)` on the arena: the loser becomes the winner's first child. */
  function LinkF<V>(nodes: seq<HNode<V>>, lhs: nat, rhs: nat): (r: seq<HNode<V>>)
    requires lhs < |nodes| && rhs < |nodes|
    ensures SameRanked(nodes, r)
    ensures Ptrs(nodes) ==> Ptrs(r)
    ensures var w := LinkWinner(nodes, lhs, rhs);
      r[w].firstChild == Some(if w == lhs then rhs else lhs)
  {
    if nodes[lhs].key < nodes[rhs].key then AddChildF(nodes, rhs, lhs) else AddChildF(nodes, lhs, rhs)
  }

  // ---------------------------------------------------------------------
  // The table of full roots built by `delete`, indexed by rank.
  // ---------------------------------------------------------------------

  predicate Bounded(full: seq<Option<nat>>, n: nat) {
    forall r :: 0 <= r < |full| ==> InRange(full[r], n)
  }

  /** Every entry is a full node whose rank is its index. */
  predicate FullRoots<V>(nodes: seq<HNode<V>>, full: seq<Option<nat>>) {
    && Bounded(full, |nodes|)
    && forall r :: 0 <= r < |full| && full[r].Some? ==>
         nodes[full[r].value].value.Some? && nodes[full[r].value].rank == r
  }

  predicate NoEntry(full: seq<Option<nat>>) {
    forall r :: 0 <= r < |full| ==> full[r].None?
  }

  /** `k` is at most the key of every entry. */
  predicate Bounds<V>(nodes: seq<HNode<V>>, full: seq<Option<nat>>, k: int)
    requires Bounded(full, |nodes|)
  {
    forall r :: 0 <= r < |full| && full[r].Some? ==> k <= nodes[full[r].value].key
  }

  lemma SameItemsBounds<V>(a: seq<HNode<V>>, b: seq<HNode<V>>, full: seq<Option<nat>>)
    requires SameItems(a, b) && Bounded(full, |a|)
    ensures forall k :: Bounds(a, full, k) <==> Bounds(b, full, k)
  {
  }

  lemma SameRankedRoots<V>(a: seq<HNode<V>>, b: seq<HNode<V>>, full: seq<Option<nat>>)
    requires SameRanked(a, b) && FullRoots(a, full)
    ensures FullRoots(b, full)
  {
  }

  /**
    The ranked link of `delete`: while the slot for `c`'s rank is taken, link
    `c` with its occupant and carry the winner, one rank higher, to the next
    slot; then store it.  No key is lost: the entries' least key afterwards is
    the least of the old entries' and `c`'s.
  */
  function RankedLinkF<V>(nodes: seq<HNode<V>>, full: seq<Option<nat>>, c: nat): (r: (seq<HNode<V>>, seq<Option<nat>>))
    requires Ptrs(nodes) && c < |nodes| && nodes[c].value.Some? && FullRoots(nodes, full)
    ensures Ptrs(r.0) && SameItems(nodes, r.0) && FullRoots(r.0, r.1)
    ensures !NoEntry(r.1)
    ensures forall k :: Bounds(r.0, r.1, k) <==> Bounds(nodes, full, k) && k <= nodes[c].key
    decreases |full| - nodes[c].rank
  {
    var rank := nodes[c].rank;
    var padded := if |full| <= rank then full + seq(rank + 1 - |full|, _ => None) else full;
    assert PaddedFrom(padded, full);
    PadSlots(nodes, full, padded);
    match padded[rank]
    case None =>
      StoreSlot(nodes, full, padded, c);
      (nodes, padded[rank := Some(c)])
    case Some(other) =>
      var w := LinkWinner(nodes, c, other);
      var linked := LinkF(nodes, c, other);
      var bumped := linked[w := linked[w].(rank := rank + 1)];
      TakeSlot(nodes, padded, c, linked, bumped);
      RankedLinkF(bumped, padded[rank := None], w)
  }

  lemma PadSlots<V>(nodes: seq<HNode<V>>, full: seq<Option<nat>>, padded: seq<Option<nat>>)
    requires FullRoots(nodes, full) && PaddedFrom(padded, full)
    ensures FullRoots(nodes, padded)
    ensures forall k :: Bounds(nodes, padded, k) <==> Bounds(nodes, full, k)
  {
  }

  /** Storing `c` in its empty slot adds its key to the bounds. */
  lemma StoreSlot<V>(nodes: seq<HNode<V>>, full: seq<Option<nat>>, padded: seq<Option<nat>>, c: nat)
    requires c < |nodes| && nodes[c].value.Some? && nodes[c].rank < |padded|
    requires FullRoots(nodes, full) && FullRoots(nodes, padded) && padded[nodes[c].rank].None?
    requires forall k :: Bounds(nodes, padded, k) <==> Bounds(nodes, full, k)
    ensures FullRoots(nodes, padded[nodes[c].rank := Some(c)])
    ensures !NoEntry(padded[nodes[c].rank := Some(c)])
    ensures forall k :: Bounds(nodes, padded[nodes[c].rank := Some(c)], k) <==> Bounds(nodes, full, k) && k <= nodes[c].key
  {
    var stored := padded[nodes[c].rank := Some(c)];
    assert stored[nodes[c].rank].Some?;
    forall k ensures Bounds(nodes, stored, k) <==> Bounds(nodes, padded, k) && k <= nodes[c].key {
      if Bounds(nodes, padded, k) && k <= nodes[c].key {
        forall r | 0 <= r < |stored| && stored[r].Some? ensures k <= nodes[stored[r].value].key {
          if r != nodes[c].rank {
            assert stored[r] == padded[r];
          }
        }
      }
      if Bounds(nodes, stored, k) {
        assert k <= nodes[stored[nodes[c].rank].value].key;
        forall r | 0 <= r < |padded| && padded[r].Some? ensures k <= nodes[padded[r].value].key {
          assert stored[r] == padded[r];
        }
      }
    }
  }

  /**
    Emptying the slot of `c`'s rank, linking `c` with its occupant and
    bumping the winner's rank keeps the table well formed.
  */
  lemma TakeSlot<V>(nodes: seq<HNode<V>>, padded: seq<Option<nat>>, c: nat, linked: seq<HNode<V>>, bumped: seq<HNode<V>>)
    requires Ptrs(nodes) && FullRoots(nodes, padded)
    requires c < |nodes| && nodes[c].value.Some? && nodes[c].rank < |padded| && padded[nodes[c].rank].Some?
    requires linked == LinkF(nodes, c, padded[nodes[c].rank].value)
    requires var w := LinkWinner(nodes, c, padded[nodes[c].rank].value);
      bumped == linked[w := linked[w].(rank := nodes[c].rank + 1)]
    ensures Ptrs(bumped) && SameItems(nodes, bumped)
    ensures var w := LinkWinner(nodes, c, padded[nodes[c].rank].value);
      && bumped[w].value.Some? && bumped[w].rank == nodes[c].rank + 1
      && bumped[w].key == if nodes[c].key < nodes[padded[nodes[c].rank].value].key then nodes[c].key else nodes[padded[nodes[c].rank].value].key
    ensures FullRoots(bumped, padded[nodes[c].rank := None])
    ensures forall k :: Bounds(nodes, padded, k) <==>
      Bounds(bumped, padded[nodes[c].rank := None], k) && k <= nodes[padded[nodes[c].rank].value].key
  {
    var rank := nodes[c].rank;
    var other := padded[rank].value;
    var w := LinkWinner(nodes, c, other);
    var taken := padded[rank := None];
    assert forall r :: 0 <= r < |taken| && taken[r].Some? ==> taken[r].value != w && taken[r] == padded[r];
    SameItemsBounds(nodes, bumped, taken);
  }

  /** The padded table of a ranked link round and what it keeps. */
  lemma RankedLinkPad<V>(nodes: seq<HNode<V>>, full: seq<Option<nat>>, c: nat, padded: seq<Option<nat>>)
    requires c < |nodes| && FullRoots(nodes, full)
    requires padded == if |full| <= nodes[c].rank then full + seq(nodes[c].rank + 1 - |full|, _ => None) else full
    ensures nodes[c].rank < |padded| && FullRoots(nodes, padded)
    ensures padded[nodes[c].rank].Some? ==> padded == full
  {
    assert PaddedFrom(padded, full);
    PadSlots(nodes, full, padded);
  }

  /** The last round of the ranked link: the slot is free and `c` is stored in it. */
  lemma RankedLinkStore<V>(nodes: seq<HNode<V>>, full: seq<Option<nat>>, c: nat, padded: seq<Option<nat>>)
    requires Ptrs(nodes) && c < |nodes| && nodes[c].value.Some? && FullRoots(nodes, full)
    requires padded == if |full| <= nodes[c].rank then full + seq(nodes[c].rank + 1 - |full|, _ => None) else full
    requires nodes[c].rank < |padded| && padded[nodes[c].rank].None?
    ensures RankedLinkF(nodes, full, c) == (nodes, padded[nodes[c].rank := Some(c)])
  {
  }

  /** A round of the ranked link that finds the slot taken: link, bump the winner's rank, carry on. */
  lemma RankedLinkCarry<V>(nodes: seq<HNode<V>>, full: seq<Option<nat>>, c: nat, bumped: seq<HNode<V>>)
    requires Ptrs(nodes) && c < |nodes| && nodes[c].value.Some? && FullRoots(nodes, full)
    requires nodes[c].rank < |full| && full[nodes[c].rank].Some?
    requires var w := LinkWinner(nodes, c, full[nodes[c].rank].value);
      bumped == LinkF(nodes, c, full[nodes[c].rank].value)[w := LinkF(nodes, c, full[nodes[c].rank].value)[w].(rank := nodes[c].rank + 1)]
    ensures var w := LinkWinner(nodes, c, full[nodes[c].rank].value);
      && Ptrs(bumped) && w < |bumped| && bumped[w].value.Some?
      && FullRoots(bumped, full[nodes[c].rank := None])
      && RankedLinkF(nodes, full, c) == RankedLinkF(bumped, full[nodes[c].rank := None], w)
  {
    var other := full[nodes[c].rank].value;
    TakeSlot(nodes, full, c, LinkF(nodes, c, other), bumped);
  }

  /** `padded` is `full` followed by empty slots. */
  predicate PaddedFrom(padded: seq<Option<nat>>, full: seq<Option<nat>>) {
    && |full| <= |padded|
    && (forall r :: 0 <= r < |full| ==> padded[r] == full[r])
    && (forall r :: |full| <= r < |padded| ==> padded[r].None?)
  }

  // ---------------------------------------------------------------------
  // The final fold of `delete`: link the table's entries in index order.
  // ---------------------------------------------------------------------

  /**
    `fold(first, link)` over the table's entries: the arena afterwards and the
    surviving root, which is the entry of least key.
  */
  function Fold<V>(nodes: seq<HNode<V>>, full: seq<Option<nat>>): (r: (seq<HNode<V>>, Option<nat>))
    requires Ptrs(nodes) && FullRoots(nodes, full)
    ensures Ptrs(r.0) && SameRanked(nodes, r.0)
    ensures r.1.None? <==> NoEntry(full)
    ensures r.1.Some? ==> r.1.value < |r.0| && r.0[r.1.value].value.Some?
    ensures r.1.Some? ==> forall k :: Bounds(nodes, full, k) <==> k <= nodes[r.1.value].key
    decreases |full|
  {
    if |full| == 0 then (nodes, None)
    else
      var front := full[..|full| - 1];
      assert FullRoots(nodes, front);
      var (linked, acc) := Fold(nodes, front);
      FoldStep(nodes, full, linked, acc);
      match full[|full| - 1]
      case None => (linked, acc)
      case Some(x) =>
        if acc.None? then (linked, Some(x))
        else (LinkF(linked, acc.value, x), Some(LinkWinner(linked, acc.value, x)))
  }

  /** How the entries' bounds split into those of the front and of the last entry. */
  lemma FoldStep<V>(nodes: seq<HNode<V>>, full: seq<Option<nat>>, linked: seq<HNode<V>>, acc: Option<nat>)
    requires FullRoots(nodes, full) && |full| > 0 && SameRanked(nodes, linked)
    ensures FullRoots(linked, full)
    ensures NoEntry(full) <==> NoEntry(full[..|full| - 1]) && full[|full| - 1].None?
    ensures forall k :: Bounds(nodes, full, k) <==>
      && Bounds(nodes, full[..|full| - 1], k)
      && (full[|full| - 1].Some? ==> k <= linked[full[|full| - 1].value].key)
  {
    var front := full[..|full| - 1];
    assert forall r :: 0 <= r < |front| ==> front[r] == full[r];
    SameRankedRoots(nodes, linked, full);
  }

  // ---------------------------------------------------------------------
  // The scan of `delete`: walk the hollow roots and rank the full children.
  // ---------------------------------------------------------------------

  /**
    The scan's state: the arena, the table of full roots, the list of hollow
    roots still to visit (`next_scan_hollow_root`), the next child of the
    hollow root being visited (`next_scan_child`) and that root `t`.
  */
  datatype Scan<V> = Scan(nodes: seq<HNode<V>>, full: seq<Option<nat>>, hollow: Option<nat>, cursor: Option<nat>, t: nat)

  predicate ScanOk<V>(s: Scan<V>) {
    && Ptrs(s.nodes) && FullRoots(s.nodes, s.full)
    && InRange(s.hollow, |s.nodes|) && InRange(s.cursor, |s.nodes|)
  }

  /**
    One child `c` of `t`: a hollow child whose second parent is `t` is its
    last child there, and keeps the rest of the list for its first parent; a
    hollow child with a second parent elsewhere simply drops it; a hollow child
    with one parent joins the hollow roots; a full child is ranked.
  */
  function ChildStep<V>(s: Scan<V>): (r: Scan<V>)
    requires ScanOk(s) && s.cursor.Some?
    ensures ScanOk(r) && SameItems(s.nodes, r.nodes)
    ensures forall k :: Bounds(r.nodes, r.full, k) ==> Bounds(s.nodes, s.full, k)
    ensures s.nodes[s.cursor.value].value.None? ==> r.full == s.full
    ensures s.nodes[s.cursor.value].value.Some? ==> !NoEntry(r.full)
    ensures !NoEntry(s.full) ==> !NoEntry(r.full)
    ensures s.nodes[s.cursor.value].value.Some? ==>
      forall k :: Bounds(r.nodes, r.full, k) ==> k <= s.nodes[s.cursor.value].key
  {
    var c := s.cursor.value;
    var n := s.nodes[c];
    if n.value.None? then
      match n.secondParent
      case Some(sp) =>
        if sp == s.t then Relink(s, c, n.(secondParent := None), None, s.hollow, s.t)
        else Relink(s, c, n.(secondParent := None, nextSibling := None), n.nextSibling, s.hollow, s.t)
      case None =>
        Relink(s, c, n.(nextSibling := s.hollow), n.nextSibling, Some(c), s.t)
    else
      var cut := Relink(s, c, n.(nextSibling := None), n.nextSibling, s.hollow, s.t);
      var (ranked, full) := RankedLinkF(cut.nodes, s.full, c);
      Scan(ranked, full, s.hollow, n.nextSibling, s.t)
  }

  /**
    A step that rewrites the links of the one node `i` and moves the scan's
    cursors; the table and every key, value and rank stay.
  */
  function Relink<V>(s: Scan<V>, i: nat, n: HNode<V>, cursor: Option<nat>, hollow: Option<nat>, t: nat): (r: Scan<V>)
    requires ScanOk(s) && i < |s.nodes|
    requires n.key == s.nodes[i].key && n.value == s.nodes[i].value && n.rank == s.nodes[i].rank
    requires InRange(n.secondParent, |s.nodes|) && InRange(n.firstChild, |s.nodes|) && InRange(n.nextSibling, |s.nodes|)
    requires InRange(cursor, |s.nodes|) && InRange(hollow, |s.nodes|)
    ensures ScanOk(r) && SameRanked(s.nodes, r.nodes) && r.full == s.full
    ensures forall k :: Bounds(r.nodes, r.full, k) <==> Bounds(s.nodes, s.full, k)
  {
    var nodes := s.nodes[i := n];
    assert SameRanked(s.nodes, nodes);
    SameRankedRoots(s.nodes, nodes, s.full);
    SameItemsBounds(s.nodes, nodes, s.full);
    Scan(nodes, s.full, hollow, cursor, t)
  }

  /** Start visiting the hollow root `t`: take its children and move to its sibling. */
  function RootStep<V>(s: Scan<V>): (r: Scan<V>)
    requires ScanOk(s) && s.cursor.None? && s.hollow.Some?
    ensures ScanOk(r) && SameItems(s.nodes, r.nodes) && r.full == s.full
    ensures forall k :: Bounds(r.nodes, r.full, k) <==> Bounds(s.nodes, s.full, k)
  {
    var t := s.hollow.value;
    var n := s.nodes[t];
    Relink(s, t, n.(firstChild := None), n.firstChild, n.nextSibling, t)
  }

  /** No hollow root is left to visit. */
  predicate Done<V>(s: Scan<V>) {
    s.cursor.None? && s.hollow.None?
  }

  /** The full node a step meets and ranks, if any. */
  function Meets<V>(s: Scan<V>): set<nat>
    requires ScanOk(s)
  {
    if s.cursor.Some? && s.nodes[s.cursor.value].value.Some? then {s.cursor.value} else {}
  }

  /**
    One step of the scan.  The table only grows by what the step meets, and
    the met node's key bounds every bound of the table afterwards.
  */
  function Step<V>(s: Scan<V>): (r: Scan<V>)
    requires ScanOk(s) && !Done(s)
    ensures ScanOk(r)
  {
    if s.cursor.Some? then ChildStep(s) else RootStep(s)
  }

  /** One step keeps every key and value. */
  lemma StepItems<V>(s: Scan<V>)
    requires ScanOk(s) && !Done(s)
    ensures SameItems(s.nodes, Step(s).nodes)
  {
  }

  /** The table changes only when the step meets a full node, and then gains an entry. */
  lemma StepTable<V>(s: Scan<V>)
    requires ScanOk(s) && !Done(s)
    ensures Meets(s) == {} ==> Step(s).full == s.full
    ensures Meets(s) != {} || !NoEntry(s.full) ==> !NoEntry(Step(s).full)
  {
  }

  /** A bound of the table after the step bounds the table before it and the met node. */
  lemma StepBounded<V>(s: Scan<V>, k: int)
    requires ScanOk(s) && !Done(s) && Bounds(Step(s).nodes, Step(s).full, k)
    ensures Bounds(s.nodes, s.full, k)
    ensures forall x :: x in Meets(s) ==> x < |s.nodes| && s.nodes[x].value.Some? && k <= s.nodes[x].key
  {
  }

  /** At most `fuel` steps of the scan, stopping when no hollow root is left. */
  function ScanF<V>(s: Scan<V>, fuel: nat): (r: Scan<V>)
    requires ScanOk(s)
    ensures ScanOk(r)
    decreases fuel
  {
    if fuel == 0 || Done(s) then s else ScanF(Step(s), fuel - 1)
  }

  /** The scan keeps every key and value. */
  lemma {:induction false} ScanItems<V>(s: Scan<V>, fuel: nat)
    requires ScanOk(s)
    ensures SameItems(s.nodes, ScanF(s, fuel).nodes)
    decreases fuel
  {
    if fuel > 0 && !Done(s) {
      StepItems(s);
      ScanItems(Step(s), fuel - 1);
    }
  }

  /** A scan with fuel left and a hollow root to visit takes one step. */
  lemma ScanUnfold<V>(s: Scan<V>, fuel: nat)
    requires ScanOk(s) && fuel > 0 && !Done(s)
    ensures ScanF(s, fuel) == ScanF(Step(s), fuel - 1)
  {
  }

  /** The full nodes the scan meets as children, which it ranks. */
  ghost function Met<V>(s: Scan<V>, fuel: nat): set<nat>
    requires ScanOk(s)
    decreases fuel
  {
    if fuel == 0 || Done(s) then {} else Meets(s) + Met(Step(s), fuel - 1)
  }

  /**
    Every full node the scan meets is bounded below by every bound of the
    table afterwards, and so is every entry the table started with.
  */
  lemma {:induction false} MetBounded<V>(s: Scan<V>, fuel: nat, k: int)
    requires ScanOk(s) && Bounds(ScanF(s, fuel).nodes, ScanF(s, fuel).full, k)
    ensures Bounds(s.nodes, s.full, k)
    ensures forall x :: x in Met(s, fuel) ==> x < |s.nodes| && s.nodes[x].value.Some? && k <= s.nodes[x].key
    decreases fuel
  {
    if fuel > 0 && !Done(s) {
      var s' := Step(s);
      assert ScanF(s, fuel) == ScanF(s', fuel - 1);
      MetBounded(s', fuel - 1, k);
      StepBounded(s, k);
      StepItems(s);
      forall x | x in Met(s, fuel)
        ensures x < |s.nodes| && s.nodes[x].value.Some? && k <= s.nodes[x].key
      {
        if x !in Meets(s) {
          assert x in Met(s', fuel - 1);
          assert s.nodes[x].key == s'.nodes[x].key && s.nodes[x].value == s'.nodes[x].value;
        }
      }
    }
  }

  /** A scan that meets no full node leaves the table as it was. */
  lemma {:induction false} MetNone<V>(s: Scan<V>, fuel: nat)
    requires ScanOk(s)
    ensures Met(s, fuel) == {} ==> ScanF(s, fuel).full == s.full
    decreases fuel
  {
    if fuel > 0 && !Done(s) {
      StepTable(s);
      MetNone(Step(s), fuel - 1);
    }
  }

  /** A scan that meets a full node leaves an entry in the table. */
  lemma {:induction false} MetSome<V>(s: Scan<V>, fuel: nat)
    requires ScanOk(s)
    ensures Met(s, fuel) != {} || !NoEntry(s.full) ==> !NoEntry(ScanF(s, fuel).full)
    decreases fuel
  {
    if fuel > 0 && !Done(s) {
      StepTable(s);
      MetSome(Step(s), fuel - 1);
    }
  }

  /** The scan that `delete` starts from the hollow root `root`, with an empty table. */
  function StartScan<V>(nodes: seq<HNode<V>>, root: Option<nat>): (s: Scan<V>)
    requires Ptrs(nodes) && InRange(root, |nodes|)
    ensures ScanOk(s) && NoEntry(s.full)
  {
    Scan(nodes, [], root, None, 0)
  }

  /** `delete`'s rebuild below the hollow root `root`: at most `fuel` scan steps, then the fold. */
  function Rebuilt<V>(nodes: seq<HNode<V>>, root: Option<nat>, fuel: nat): (r: (seq<HNode<V>>, Option<nat>))
    requires Ptrs(nodes) && InRange(root, |nodes|)
    ensures Ptrs(r.0) && SameItems(nodes, r.0) && InRange(r.1, |r.0|)
    ensures r.1.Some? ==> r.0[r.1.value].value.Some?
  {
    var s := ScanF(StartScan(nodes, root), fuel);
    ScanItems(StartScan(nodes, root), fuel);
    Fold(s.nodes, s.full)
  }

  /**
    The rebuilt heap is empty exactly when the scan met no full node, and
    otherwise its root is full and holds a key no larger than that of any
    full node the scan met.
  */
  lemma RebuiltRoot<V>(nodes: seq<HNode<V>>, root: Option<nat>, fuel: nat)
    requires Ptrs(nodes) && InRange(root, |nodes|)
    ensures var r := Rebuilt(nodes, root, fuel);
      r.1.None? <==> Met(StartScan(nodes, root), fuel) == {}
    ensures var r := Rebuilt(nodes, root, fuel);
      r.1.Some? ==> forall x :: x in Met(StartScan(nodes, root), fuel) ==>
        x < |nodes| && nodes[x].value.Some? && r.0[r.1.value].key <= nodes[x].key
  {
    var s0 := StartScan(nodes, root);
    var s := ScanF(s0, fuel);
    var r := Fold(s.nodes, s.full);
    MetNone(s0, fuel);
    MetSome(s0, fuel);
    if r.1.Some? {
      var k := s.nodes[r.1.value].key;
      assert Bounds(s.nodes, s.full, k);
      MetBounded(s0, fuel, k);
    }
  }

  // ---------------------------------------------------------------------
  // Heap order at the root.
  // ---------------------------------------------------------------------

  /** Node `i` is full and its key is the least of all full nodes. */
  ghost predicate Least<V>(nodes: seq<HNode<V>>, i: nat) {
    && i < |nodes| && nodes[i].value.Some?
    && forall j :: 0 <= j < |nodes| && nodes[j].value.Some? ==> nodes[i].key <= nodes[j].key
  }

  predicate NoFull<V>(nodes: seq<HNode<V>>) {
    forall i :: 0 <= i < |nodes| ==> nodes[i].value.None?
  }

  /** The bounded number of scan steps a rebuild of an arena of `n` nodes may take. */
  function ScanBound(n: nat): nat {
    3 * n + 1
  }

  /**
    The arena after a key decrease below a non-root node `p`: `p` is hollowed
    and gets the new node as its second parent; the new node, appended at the
    end, takes the new key, the new value if one is given and `p`'s otherwise,
    rank two less than `p`'s and `p` as its only child.
  */
  function Hollowed<V>(nodes: seq<HNode<V>>, p: nat, key: int, value: Option<V>): (r: seq<HNode<V>>)
    requires p < |nodes| && nodes[p].value.Some?
    ensures |r| == |nodes| + 1 && r[p].value.None? && r[p].secondParent == Some(|nodes|)
    ensures r[|nodes|].key == key && r[|nodes|].value.Some? && r[|nodes|].firstChild == Some(p)
    ensures r[|nodes|].rank == if nodes[p].rank > 2 then nodes[p].rank - 2 else 0
    ensures forall i :: 0 <= i < |nodes| && i != p ==> r[i] == nodes[i]
    ensures Ptrs(nodes) ==> Ptrs(r)
  {
    var n := nodes[p];
    var res := HNode(key, if value.Some? then value else n.value, if n.rank > 2 then n.rank - 2 else 0, None, Some(p), None);
    nodes[p := n.(value := None, secondParent := Some(|nodes|))] + [res]
  }

  /** Inserting below a least root, or into an empty heap, leaves the least key at the new root. */
  lemma InsertLeast<V>(nodes: seq<HNode<V>>, root: Option<nat>, key: int, value: V)
    requires root.Some? ==> Least(nodes, root.value)
    requires root.None? ==> NoFull(nodes)
    ensures var grown := nodes + [Singleton(key, value)];
      root.None? ==> Least(grown, |nodes|)
    ensures var grown := nodes + [Singleton(key, value)];
      root.Some? ==> Least(LinkF(grown, |nodes|, root.value), LinkWinner(grown, |nodes|, root.value))
  {
    var grown := nodes + [Singleton(key, value)];
    assert forall j :: 0 <= j < |nodes| ==> grown[j] == nodes[j];
  }

  /** Lowering the key of a least node keeps it least. */
  lemma LowerLeast<V>(nodes: seq<HNode<V>>, p: nat, key: int, value: Option<V>)
    requires Least(nodes, p) && key < nodes[p].key
    ensures Least(nodes[p := nodes[p].(key := key, value := if value.Some? then value else nodes[p].value)], p)
  {
  }

  /** A key decrease below a non-root node, linked with a least root, leaves the least key at the new root. */
  lemma DecreaseLeast<V>(nodes: seq<HNode<V>>, p: nat, r: nat, key: int, value: Option<V>)
    requires p < |nodes| && nodes[p].value.Some? && Least(nodes, r) && p != r
    ensures var h := Hollowed(nodes, p, key, value);
      Least(LinkF(h, |nodes|, r), LinkWinner(h, |nodes|, r))
  {
  }

  /** Hollowing a node other than a least one keeps that one least. */
  lemma TakeLeast<V>(nodes: seq<HNode<V>>, r: nat, p: nat)
    requires Least(nodes, r) && p < |nodes| && p != r
    ensures Least(nodes[p := nodes[p].(value := None)], r)
  {
  }

  // ---------------------------------------------------------------------
  // The heap.
  // ---------------------------------------------------------------------

  class LazyHollowHeap<V> {
    var nodes: seq<HNode<V>>
    var root: Option<nat>

    /** Every link stays inside the arena and the root, if any, is full. */
    ghost predicate Valid()
      reads this
    {
      Ptrs(nodes) && InRange(root, |nodes|) && (root.Some? ==> nodes[root.value].value.Some?)
    }

    /** The root holds the least key, and an empty heap has no full node. */
    ghost predicate MinAtRoot()
      reads this
    {
      && (root.Some? ==> Least(nodes, root.value))
      && (root.None? ==> NoFull(nodes))
    }

    /** `new`: an empty heap. */
    constructor ()
      ensures Valid() && MinAtRoot() && nodes == [] && root == None
    {
      nodes := [];
      root := None;
    }

    /** `new_node`: append a full node of rank 0 and return its index. */
    method NewNode(key: int, value: V) returns (res: nat)
      modifies this
      ensures res == |old(nodes)| && nodes == old(nodes) + [Singleton(key, value)] && root == old(root)
    {
      res := |nodes|;
      nodes := nodes + [Singleton(key, value)];
    }

    /** `add_child`: push `child` in front of `parent`'s children and return `parent`. */
    method AddChild(child: nat, parent: nat) returns (r: nat)
      requires child < |nodes| && parent < |nodes|
      modifies this
      ensures r == parent && nodes == AddChildF(old(nodes), child, parent) && root == old(root)
    {
      var former := nodes[parent].firstChild;
      nodes := nodes[parent := nodes[parent].(firstChild := Some(child))];
      nodes := nodes[child := nodes[child].(nextSibling := former)];
      r := parent;
    }

    /** `link`: the node with the larger key, `lhs` on a tie, becomes a child of the other. */
    method Link(lhs: nat, rhs: nat) returns (w: nat)
      requires lhs < |nodes| && rhs < |nodes|
      modifies this
      ensures w == LinkWinner(old(nodes), lhs, rhs) && nodes == LinkF(old(nodes), lhs, rhs) && root == old(root)
    {
      if nodes[lhs].key < nodes[rhs].key {
        w := AddChild(rhs, lhs);
      } else {
        w := AddChild(lhs, rhs);
      }
    }

    /** `meld`: link two roots, or keep whichever one exists. */
    method Meld(lhs: Option<nat>, rhs: Option<nat>) returns (r: Option<nat>)
      requires InRange(lhs, |nodes|) && InRange(rhs, |nodes|)
      modifies this
      ensures root == old(root)
      ensures lhs.Some? && rhs.Some? ==>
        r == Some(LinkWinner(old(nodes), lhs.value, rhs.value)) && nodes == LinkF(old(nodes), lhs.value, rhs.value)
      ensures lhs.None? || rhs.None? ==> r == (if lhs.Some? then lhs else rhs) && nodes == old(nodes)
    {
      if lhs.Some? && rhs.Some? {
        var w := Link(lhs.value, rhs.value);
        r := Some(w);
      } else {
        r := if lhs.Some? then lhs else rhs;
      }
    }

    /** `is_empty`: with the root at the least key, empty exactly when no node is full. */
    method IsEmpty() returns (b: bool)
      ensures b <==> root.None?
      ensures Valid() && MinAtRoot() ==> (b <==> NoFull(nodes))
    {
      b := root.None?;
    }

    /** `insert`: a full node of rank 0 at the end of the arena, melded with the root. */
    method Insert(key: int, value: V) returns (p: nat)
      requires Valid()
      modifies this
      ensures Valid() && p == |old(nodes)| && |nodes| == p + 1
      ensures nodes[p].key == key && nodes[p].value == Some(value)
      ensures var grown := old(nodes) + [Singleton(key, value)];
        && (old(root).None? ==> nodes == grown && root == Some(p))
        && (old(root).Some? ==> nodes == LinkF(grown, p, old(root).value) && root == Some(LinkWinner(grown, p, old(root).value)))
      ensures old(MinAtRoot()) ==> MinAtRoot()
    {
      if MinAtRoot() {
        InsertLeast(nodes, root, key, value);
      }
      var res := NewNode(key, value);
      root := Meld(Some(res), root);
      p := res;
    }

    /** `find_min`: the root's key and value, or nothing in an empty heap. */
    method FindMin() returns (m: Option<(int, V)>)
      requires Valid()
      ensures m.None? <==> root.None?
      ensures m.Some? ==> m.value == (nodes[root.value].key, nodes[root.value].value.value)
      ensures m.Some? && MinAtRoot() ==>
        forall i :: 0 <= i < |nodes| && nodes[i].value.Some? ==> m.value.0 <= nodes[i].key
    {
      if root.Some? {
        var i := root.value;
        m := Some((nodes[i].key, nodes[i].value.value));
      } else {
        m := None;
      }
    }

    /**
      The common body of `update_key_better` (`value` none: the node keeps its
      value) and `update_key_value_better` (`value` given: it replaces the old).
    */
    method Decrease(p: nat, key: int, value: Option<V>) returns (q: nat)
      requires Valid() && p < |nodes|
      requires key < nodes[p].key && root != Some(p) ==> nodes[p].value.Some? && root.Some?
      modifies this
      ensures Valid()
      ensures old(nodes[p].key) <= key ==> q == p && nodes == old(nodes) && root == old(root)
      ensures key < old(nodes[p].key) && old(root) == Some(p) ==>
        && q == p && root == old(root)
        && nodes == old(nodes)[p := old(nodes[p]).(key := key, value := if value.Some? then value else old(nodes[p].value))]
      ensures key < old(nodes[p].key) && old(root) != Some(p) ==>
        var h := Hollowed(old(nodes), p, key, value);
        && q == |old(nodes)|
        && nodes == LinkF(h, q, old(root).value) && root == Some(LinkWinner(h, q, old(root).value))
      ensures old(MinAtRoot()) ==> MinAtRoot()
    {
      if nodes[p].key <= key {
        return p;
      }
      if root == Some(p) {
        if MinAtRoot() {
          LowerLeast(nodes, p, key, value);
        }
        nodes := nodes[p := nodes[p].(key := key)];
        if value.Some? {
          nodes := nodes[p := nodes[p].(value := value)];
        }
        return p;
      }
      if MinAtRoot() {
        DecreaseLeast(nodes, p, root.value, key, value);
      }
      q := HollowOut(p, key, value);
      var oldRoot := root.value;
      root := None;
      var w := Link(q, oldRoot);
      root := Some(w);
    }

    /** The part of a key decrease that hollows `p` and appends the node that replaces it. */
    method HollowOut(p: nat, key: int, value: Option<V>) returns (res: nat)
      requires p < |nodes| && nodes[p].value.Some?
      modifies this
      ensures res == |old(nodes)| && nodes == Hollowed(old(nodes), p, key, value) && root == old(root)
    {
      ghost var h := Hollowed(nodes, p, key, value);
      var taken := nodes[p].value;
      nodes := nodes[p := nodes[p].(value := None)];
      res := NewNode(key, if value.Some? then value.value else taken.value);
      if nodes[p].rank > 2 {
        nodes := nodes[res := nodes[res].(rank := nodes[p].rank - 2)];
      }
      nodes := nodes[p := nodes[p].(secondParent := Some(res))];
      nodes := nodes[res := nodes[res].(firstChild := Some(p))];
      assert nodes == h;
    }

    /** `update_key_better`: lower the key of the node `p` refers to; returns the new reference. */
    method UpdateKeyBetter(p: nat, key: int) returns (q: nat)
      requires Valid() && p < |nodes|
      requires key < nodes[p].key && root != Some(p) ==> nodes[p].value.Some? && root.Some?
      modifies this
      ensures Valid()
      ensures old(nodes[p].key) <= key ==> q == p && nodes == old(nodes) && root == old(root)
      ensures key < old(nodes[p].key) && old(root) == Some(p) ==>
        q == p && root == old(root) && nodes == old(nodes)[p := old(nodes[p]).(key := key)]
      ensures key < old(nodes[p].key) && old(root) != Some(p) ==>
        var h := Hollowed(old(nodes), p, key, None);
        && q == |old(nodes)|
        && nodes == LinkF(h, q, old(root).value) && root == Some(LinkWinner(h, q, old(root).value))
      ensures key < old(nodes[p].key) ==> q < |nodes| && nodes[q].key == key && nodes[q].value == old(nodes[p].value)
      ensures old(MinAtRoot()) ==> MinAtRoot()
    {
      q := Decrease(p, key, None);
    }

    /** `update_key_value_better`: lower the key and replace the value. */
    method UpdateKeyValueBetter(p: nat, key: int, value: V) returns (q: nat)
      requires Valid() && p < |nodes|
      requires key < nodes[p].key && root != Some(p) ==> nodes[p].value.Some? && root.Some?
      modifies this
      ensures Valid()
      ensures old(nodes[p].key) <= key ==> q == p && nodes == old(nodes) && root == old(root)
      ensures key < old(nodes[p].key) && old(root) == Some(p) ==>
        q == p && root == old(root) && nodes == old(nodes)[p := old(nodes[p]).(key := key, value := Some(value))]
      ensures key < old(nodes[p].key) && old(root) != Some(p) ==>
        var h := Hollowed(old(nodes), p, key, Some(value));
        && q == |old(nodes)|
        && nodes == LinkF(h, q, old(root).value) && root == Some(LinkWinner(h, q, old(root).value))
      ensures key < old(nodes[p].key) ==> q < |nodes| && nodes[q].key == key && nodes[q].value == Some(value)
      ensures old(MinAtRoot()) ==> MinAtRoot()
    {
      q := Decrease(p, key, Some(value));
    }
  
    /**
      `delete`: take the value out of `p`.  While the root stays full nothing
      else changes; once the root is hollow the heap is rebuilt below it.
    */
    method Delete(p: nat) returns (key: int, value: V)
      requires Valid() && p < |nodes| && nodes[p].value.Some? && root.Some?
      modifies this
      ensures Valid()
      ensures key == old(nodes[p].key) && value == old(nodes[p].value.value)
      ensures old(root) != Some(p) ==> nodes == old(nodes)[p := old(nodes[p]).(value := None)] && root == old(root)
      ensures old(root) == Some(p) ==>
        (nodes, root) == Rebuilt(old(nodes)[p := old(nodes[p]).(value := None)], old(root), ScanBound(|old(nodes)|))
      ensures old(root) != Some(p) ==> (old(MinAtRoot()) ==> MinAtRoot())
    {
      if root != Some(p) && MinAtRoot() {
        TakeLeast(nodes, root.value, p);
      }
      value := nodes[p].value.value;
      nodes := nodes[p := nodes[p].(value := None)];
      key := nodes[p].key;
      if nodes[root.value].value.Some? {
        return;
      }
      Rebuild(ScanBound(|nodes|));
    }

    /** The rebuild of `delete`: scan the hollow roots for at most `fuel` steps, then fold the table. */
    method Rebuild(fuel: nat)
      requires Ptrs(nodes) && InRange(root, |nodes|)
      modifies this
      ensures (nodes, root) == Rebuilt(old(nodes), old(root), fuel)
    {
      var arena, full := ScanRoots(nodes, root, fuel);
      nodes := arena;
      root := FoldRoots(full);
    }

    /**
      The scan of `delete` over the arena `arena0`, which takes the hollow
      root `root0` and leaves the rewritten arena and the table of full roots.
    */
    method ScanRoots(arena0: seq<HNode<V>>, root0: Option<nat>, fuel0: nat) returns (arena: seq<HNode<V>>, full: seq<Option<nat>>)
      requires Ptrs(arena0) && InRange(root0, |arena0|)
      ensures var s := ScanF(StartScan(arena0, root0), fuel0);
        arena == s.nodes && full == s.full && Ptrs(arena) && FullRoots(arena, full)
    {
      ghost var goal := ScanF(StartScan(arena0, root0), fuel0);
      arena, full := arena0, [];
      var hollow := root0;
      var cursor: Option<nat> := None;
      var t: nat := 0;
      var fuel: nat := fuel0;
      while hollow.Some? && fuel > 0
        invariant ScanOk(Scan(arena, full, hollow, cursor, t))
        invariant ScanF(Scan(arena, full, hollow, cursor, t), fuel) == goal
        invariant fuel > 0 ==> cursor.None?
        decreases fuel
      {
        arena, hollow, cursor, t := ScanRoot(arena, full, hollow, t, fuel);
        fuel := fuel - 1;
        arena, full, hollow, cursor, fuel := ScanChildren(arena, full, hollow, cursor, t, fuel);
      }
    }

    /** One hollow root of `delete`'s scan: detach its children for visiting. */
    method ScanRoot(arena: seq<HNode<V>>, full: seq<Option<nat>>, hollow: Option<nat>, t: nat, ghost fuel: nat)
      returns (arena': seq<HNode<V>>, hollow': Option<nat>, cursor': Option<nat>, t': nat)
      requires hollow.Some? && ScanOk(Scan(arena, full, hollow, None, t)) && fuel > 0
      ensures Scan(arena', full, hollow', cursor', t') == Step(Scan(arena, full, hollow, None, t))
      ensures ScanOk(Scan(arena', full, hollow', cursor', t'))
      ensures ScanF(Scan(arena', full, hollow', cursor', t'), fuel - 1) == ScanF(Scan(arena, full, hollow, None, t), fuel)
    {
      ScanUnfold(Scan(arena, full, hollow, None, t), fuel);
      t' := hollow.value;
      cursor' := arena[t'].firstChild;
      hollow' := arena[t'].nextSibling;
      arena' := arena[t' := arena[t'].(firstChild := None)];
    }

    /** The inner loop of `delete`'s scan: the children of the hollow root `t`. */
    method ScanChildren(arena0: seq<HNode<V>>, full0: seq<Option<nat>>, hollow0: Option<nat>, cursor0: Option<nat>, t: nat, fuel0: nat)
      returns (arena: seq<HNode<V>>, full: seq<Option<nat>>, hollow: Option<nat>, cursor: Option<nat>, fuel: nat)
      requires ScanOk(Scan(arena0, full0, hollow0, cursor0, t))
      ensures ScanOk(Scan(arena, full, hollow, cursor, t))
      ensures ScanF(Scan(arena, full, hollow, cursor, t), fuel) == ScanF(Scan(arena0, full0, hollow0, cursor0, t), fuel0)
      ensures cursor.None? || fuel == 0
      ensures fuel <= fuel0
    {
      arena, full, hollow, cursor, fuel := arena0, full0, hollow0, cursor0, fuel0;
      while cursor.Some? && fuel > 0
        invariant ScanOk(Scan(arena, full, hollow, cursor, t))
        invariant ScanF(Scan(arena, full, hollow, cursor, t), fuel) == ScanF(Scan(arena0, full0, hollow0, cursor0, t), fuel0)
        invariant fuel <= fuel0
        decreases fuel
      {
        arena, full, hollow, cursor := ScanChild(arena, full, hollow, cursor, t, fuel);
        fuel := fuel - 1;
      }
    }

    /** One child of the hollow root `t` in `delete`'s scan. */
    method ScanChild(arena: seq<HNode<V>>, full: seq<Option<nat>>, hollow: Option<nat>, cursor: Option<nat>, t: nat, ghost fuel: nat)
      returns (arena': seq<HNode<V>>, full': seq<Option<nat>>, hollow': Option<nat>, cursor': Option<nat>)
      requires ScanOk(Scan(arena, full, hollow, cursor, t)) && cursor.Some? && fuel > 0
      ensures Scan(arena', full', hollow', cursor', t) == Step(Scan(arena, full, hollow, cursor, t))
      ensures ScanOk(Scan(arena', full', hollow', cursor', t))
      ensures ScanF(Scan(arena', full', hollow', cursor', t), fuel - 1) == ScanF(Scan(arena, full, hollow, cursor, t), fuel)
    {
      ScanUnfold(Scan(arena, full, hollow, cursor, t), fuel);
      var c := cursor.value;
      cursor' := arena[c].nextSibling;
      arena' := arena[c := arena[c].(nextSibling := None)];
      full', hollow' := full, hollow;
      if arena'[c].value.None? {
        var sp := arena'[c].secondParent;
        arena' := arena'[c := arena'[c].(secondParent := None)];
        if sp.Some? {
          if sp.value == t {
            arena' := arena'[c := arena'[c].(nextSibling := cursor')];
            cursor' := None;
          }
        } else {
          arena' := arena'[c := arena'[c].(nextSibling := hollow)];
          hollow' := Some(c);
        }
      } else {
        arena', full' := RankedLink(arena', c, full);
      }
    }

    /** The ranked link of `delete`'s scan for the full node `c0` of the arena `arena0`. */
    method RankedLink(arena0: seq<HNode<V>>, c0: nat, full0: seq<Option<nat>>) returns (arena: seq<HNode<V>>, full: seq<Option<nat>>)
      requires Ptrs(arena0) && c0 < |arena0| && arena0[c0].value.Some? && FullRoots(arena0, full0)
      ensures (arena, full) == RankedLinkF(arena0, full0, c0)
    {
      arena := arena0;
      var c: nat := c0;
      full := full0;
      while true
        invariant Ptrs(arena) && c < |arena| && arena[c].value.Some? && FullRoots(arena, full)
        invariant RankedLinkF(arena, full, c) == RankedLinkF(arena0, full0, c0)
        decreases |full| - arena[c].rank
      {
        ghost var fullBefore := full;
        var rank := arena[c].rank;
        if |full| <= rank {
          full := full + seq(rank + 1 - |full|, _ => None);
        }
        RankedLinkPad(arena, fullBefore, c, full);
        if full[rank].Some? {
          var other := full[rank].value;
          var w := LinkWinner(arena, c, other);
          var linked := LinkF(arena, c, other);
          RankedLinkCarry(arena, full, c, linked[w := linked[w].(rank := rank + 1)]);
          full := full[rank := None];
          arena := linked[w := linked[w].(rank := rank + 1)];
          c := w;
        } else {
          RankedLinkStore(arena, fullBefore, c, full);
          full := full[rank := Some(c)];
          break;
        }
      }
    }

    /** The final fold of `delete`: link the table's entries in index order. */
    method FoldRoots(full: seq<Option<nat>>) returns (acc: Option<nat>)
      requires Ptrs(nodes) && FullRoots(nodes, full)
      modifies this
      ensures (nodes, acc) == Fold(old(nodes), full)
    {
      ghost var scanned := nodes;
      acc := None;
      for i := 0 to |full|
        invariant FullRoots(scanned, full[..i])
        invariant (nodes, acc) == Fold(scanned, full[..i])
      {
        assert full[..i + 1][..i] == full[..i];
        assert FullRoots(scanned, full[..i + 1]);
        if full[i].Some? {
          if acc.None? {
            acc := full[i];
          } else {
            var w := Link(acc.value, full[i].value);
            acc := Some(w);
          }
        }
      }
      assert full[..|full|] == full;
    }
  }

  // The arenas of the source's unit test, one per stage.

  /** After inserting 10 (value 0) and then 11 (value 1): node 1 is the child of node 0. */
  function Inserted(): seq<HNode<int>> {
    [HNode(10, Some(0), 0, None, Some(1), None), HNode(11, Some(1), 0, None, None, None)]
  }

  /** After lowering node 1 to 9: node 1 is hollow below nodes 0 and 2, and node 2 is the root. */
  function Lowered(): seq<HNode<int>> {
    [ HNode(10, Some(0), 0, None, Some(1), Some(1)),
      HNode(11, None, 0, Some(2), None, None),
      HNode(9, Some(1), 0, None, Some(0), None) ]
  }

  /** After deleting node 2: node 0 is the root, with the hollow node 1 still listed as its child. */
  function Deleted(): seq<HNode<int>> {
    [ HNode(10, Some(0), 0, None, Some(1), None),
      HNode(11, None, 0, None, None, None),
      HNode(9, None, 0, None, None, None) ]
  }

  lemma InsertedArena()
    ensures var grown := [Singleton(10, 0)] + [Singleton(11, 1)];
      LinkF(grown, 1, 0) == Inserted() && LinkWinner(grown, 1, 0) == 0
  {
  }

  lemma LoweredArena()
    ensures var h := Hollowed(Inserted(), 1, 9, None);
      LinkF(h, 2, 0) == Lowered() && LinkWinner(h, 2, 0) == 2
  {
    var h := Hollowed(Inserted(), 1, 9, None);
    assert h == [
      HNode(10, Some(0), 0, None, Some(1), None),
      HNode(11, None, 0, Some(2), None, None),
      HNode(9, Some(1), 0, None, Some(1), None) ];
  }

  /** Deleting the root 2 scans it, ranks node 0 and drops node 1's second parent. */
  lemma FirstRebuild()
    ensures Rebuilt(Lowered()[2 := Lowered()[2].(value := None)], Some(2), ScanBound(3)) == (Deleted(), Some(0))
  {
    var n0 := Lowered()[2 := Lowered()[2].(value := None)];
    var s0 := StartScan(n0, Some(2));
    var n1 := n0[2 := n0[2].(firstChild := None)];
    var s1 := Scan(n1, [], None, Some(0), 2);
    assert Step(s0) == s1;
    var n2 := n1[0 := n1[0].(nextSibling := None)];
    var padded: seq<Option<nat>> := [] + seq(1, _ => None);
    RankedLinkPad(n2, [], 0, padded);
    RankedLinkStore(n2, [], 0, padded);
    assert padded[0 := Some(0)] == [Some(0)];
    var s2 := Scan(n2, [Some(0)], None, Some(1), 2);
    assert Step(s1) == s2;
    var s3 := Scan(Deleted(), [Some(0)], None, None, 2);
    assert Step(s2) == s3;
    assert ScanF(s0, 10) == s3;
    assert Fold(Deleted(), [Some(0)]).1 == Some(0);
  }

  /** Deleting the root 0 scans it, turns node 1 into a hollow root, scans that and finds nothing full. */
  lemma SecondRebuild()
    ensures Rebuilt(Deleted()[0 := Deleted()[0].(value := None)], Some(0), ScanBound(3)).1 == None
  {
    var n0 := Deleted()[0 := Deleted()[0].(value := None)];
    var s0 := StartScan(n0, Some(0));
    var n1 := n0[0 := n0[0].(firstChild := None)];
    var s1 := Scan(n1, [], None, Some(1), 0);
    assert Step(s0) == s1;
    var s2 := Scan(n1, [], Some(1), None, 0);
    assert Step(s1) == s2;
    var s3 := Scan(n1, [], None, None, 1);
    assert Step(s2) == s3;
    assert ScanF(s0, 10) == s3;
  }

  /**
    The scenario of the source's unit test: insert 10 and 11, lower 11 to 9,
    then delete both.
  */
  method SourceTest() {
    var pq := new LazyHollowHeap<int>();
    var node0 := pq.Insert(10, 0);
    var node1 := pq.Insert(11, 1);
    InsertedArena();
    assert pq.nodes == Inserted() && pq.root == Some(0);
    node1 := pq.UpdateKeyBetter(node1, 9);
    LoweredArena();
    assert pq.nodes == Lowered() && pq.root == Some(2) && node1 == 2;
    var m := pq.FindMin();
    assert m == Some((9, 1));
    var k, v := pq.Delete(node1);
    FirstRebuild();
    assert (k, v) == (9, 1);
    assert pq.nodes == Deleted() && pq.root == Some(0);
    m := pq.FindMin();
    assert m == Some((10, 0));
    k, v := pq.Delete(node0);
    SecondRebuild();
    assert (k, v) == (10, 0);
    var e := pq.IsEmpty();
    assert e;
  }
}
