# ralgo in Dafny

A model of the algorithmic core of MiSawa/ralgo, a Rust library of
competitive-programming algorithms, with proofs about that model. Each Rust
source file of the core becomes one or more Dafny modules:

- `FlowNum` (src/flow/mod.rs): the sign helpers of the `Flow`/`Cost` traits
  and the integer instances.
- `ModInt` (src/util/modint.rs): `take_modulo`, `from`, `neg`, `add`, `mul`,
  `product`, with Rust's truncating `%` written out.
- `UnionFind` (src/data_structure/union_find.rs): a class over the `nodes`
  vector, with union by size and path halving. A ghost rank witnesses that
  every walk to a root ends.
- `Dinic` (src/flow/dinic.rs): the paired residual edges, the BFS
  levelling `dual`, the blocking-flow `primal_dfs`, `augment`, `max_flow` and
  `get_flow`.
- The network simplex of src/flow/network_simplex.rs and
  src/flow/dfs_lca_network_simplex.rs, which share most of their code:
  - `SimplexEdges`: edge pairs `i`/`i ^ 1` and `add_flow`.
  - `SimplexTree`: the spanning tree and its potentials.
  - `SimplexRelabel`: `update_tree`'s relabelling walk.
  - `SimplexSeed`: `prepare_data`'s artificial root and edges.
  - `SimplexCycle`: `pivot`'s cycle, its bottleneck and the push.
  - `SimplexExchange`: the swap of tree edges.
  - `SimplexPivot`: the leaving-edge choice.
  - `SimplexSelect`: the block search of `select_edge`.
  - `SimplexOptimal`: `run` and the `Ret` read-outs.
  - `NetworkSimplexCore`: the classes with the solver's state.
  - `DfsLcaTraversal` and `DfsLcaSimplex`: the PRE/POST bucket pass of
    `dfs_lca_pivot` and its `run` loop.
- `HollowHeap` (src/data_structure/lazy_hollow_heap.rs): the lazy hollow
  heap as a class over an arena of nodes, with `insert`, `find_min`, the
  decrease-key operations and `delete`'s rebuild.
- `SplayCore` and `SplayTree` (src/data_structure/splay_tree.rs): the splay
  tree sequence over an abstract monoid, with rotations, splay, join, cut,
  concat, reverse, split by size, partition by key and meld.
- `HashElems`, `HashLsm` and `HashRadix`
  (src/data_structures/hash_lsm_tree.rs, src/data_structure/hash_radix_tree.rs):
  the two associative arrays over an abstract 64-bit hash.

Integers are mathematical `int` throughout. Where a Rust bound matters, it is
a precondition or an explicit range predicate. Source paths below are
relative to the repository root.

## Model

| member | source | states |
|---|---|---|
| FlowNum.Abs | src/flow/mod.rs:61-67 | `abs` is non-negative and equals `x` or `-x`; it is `-x` (and differs from `x`) exactly when `x` is negative |
| FlowNum.SignTrichotomy | src/flow/mod.rs:28-36 | exactly one of `is_zero`, `is_positive`, `is_negative` holds for every value |
| FlowNum.AbsInRange | src/flow/mod.rs:61-94 | for each integer instance width (i8 to i128), `abs(x)` stays in the type exactly when `x` is not the minimum value; `zero()` and `one()` are in range |
| FlowNum.AbsInWideRange | src/flow/mod.rs:61-67 | the same range fact for any two's-complement width of at least 2 bits |
| ModInt.TruncRem | src/util/modint.rs:13-14 | Rust's `%`: the remainder lies strictly between `-m` and `m` and has the sign of the dividend |
| ModInt.TruncRemAdjusted | src/util/modint.rs:13-20 | adding `m` to a negative truncated remainder gives the Euclidean residue |
| ModInt.TakeModulo | src/util/modint.rs:13-20 | `take_modulo` returns the residue of `value` in `[0, m)` |
| ModInt.TakeModuloLarger | src/util/modint.rs:22-29 | `take_modulo_larger` returns a value in `[0, m)` |
| ModInt.TakeModuloLargerAgrees | src/util/modint.rs:13-29 | `take_modulo_larger` and `take_modulo` agree on every input, and both give `value mod m` |
| ModInt.From | src/util/modint.rs:58-62 | `from(v)` is normalised and holds `v mod m` |
| ModInt.FromLarge | src/util/modint.rs:64-68 | `from_large(v)` is normalised and holds `v mod m` |
| ModInt.OneAsWrittenNotNormal | src/util/modint.rs:83-86 | `one()` as written (raw value 1) is not normalised for the modulus 1, and differs from `from(1)` there |
| ModInt.One | src/util/modint.rs:83-86 | the reduced unit is normalised, holds `1 mod m`, and equals the value as written whenever `m > 1` |
| ModInt.Neg | src/util/modint.rs:93-105 | `neg` of a normalised value is normalised, sums with it to 0 mod `m`, and `add(a, neg(a))` is `zero()` |
| ModInt.Add | src/util/modint.rs:107-119 | `add` of two normalised values is normalised and equals `(a + b) mod m` |
| ModInt.Mul | src/util/modint.rs:121-131 | `mul` is normalised and equals `(a * b) mod m` |
| ModInt.MulAssign | src/util/modint.rs:132-136 | `mul_assign` leaves a reduced residue equal to the product of the two values modulo `m` |
| ModInt.FoldMulValue | src/util/modint.rs:138-142 | folding `mul` over a sequence from a normalised accumulator gives `(acc * product of the values) mod m` |
| ModInt.ProductValue | src/util/modint.rs:138-142 | `product` of a sequence, folded from the corrected unit `One(m)` of the modint.rs:84-86 Findings row rather than the raw `one()`, is normalised and equals the product of its values mod `m` |
| ModInt.ThreeTimesTwoModFive | src/util/modint.rs:163-168 | the unit test: `3 * 2` modulo 5 has value 1 |
| UnionFind.RootOf | src/data_structure/union_find.rs:47-56 | the root reached from `u` is in range and is its own parent; a root is its own root |
| UnionFind.JoinRootOf | src/data_structure/union_find.rs:16-19 | after `join_roots(parent, child)` the forest stays ranked, and an element's root is `parent` if it was `child`, otherwise unchanged |
| UnionFind.JoinAll | src/data_structure/union_find.rs:16-19 | the same root change, for all elements at once |
| UnionFind.JoinSizes | src/data_structure/union_find.rs:16-19 | `join_roots` keeps every root's `size` equal to the size of its component |
| UnionFind.JoinComponent | src/data_structure/union_find.rs:16-19 | after `join_roots` the `parent` component is the union of the two old components; other components are unchanged |
| UnionFind.HalveRootOf | src/data_structure/union_find.rs:38-45 | one path-halving step (parent := grandparent) changes no element's root |
| UnionFind.SameForestTrans | src/data_structure/union_find.rs:38-45 | "same roots, same ranking" is transitive, so any number of halving steps keeps the roots |
| UnionFind.HalveAll | src/data_structure/union_find.rs:38-45 | a halving step keeps the forest's roots, and a non-root moves strictly up in rank to its grandparent |
| UnionFind.SizesMatchTransfer | src/data_structure/union_find.rs:38-45 | forests with the same roots have the same component sizes, so halving keeps `size` correct |
| UnionFind.UnionFind.constructor | src/data_structure/union_find.rs:10-14 | `new(n)` makes `n` elements, each its own root with size 1 |
| UnionFind.UnionFind.JoinRoots | src/data_structure/union_find.rs:16-19 | `join_roots` keeps the forest valid and moves the roots of `child`'s component to `parent` |
| UnionFind.UnionFind.Unite | src/data_structure/union_find.rs:21-36 | `unite` returns false and the common root when the elements are already together. Otherwise it returns true and the root of the larger component (ties go to `u`'s root). That root's size is the sum of both, and both components now share it |
| UnionFind.UnionFind.FindMut | src/data_structure/union_find.rs:38-45 | `find_mut` returns `u`'s root and changes no element's root, no size and which nodes are roots |
| UnionFind.UnionFind.Find | src/data_structure/union_find.rs:47-56 | `find` returns `u`'s root without changing anything |
| UnionFind.UnionFind.SameMut | src/data_structure/union_find.rs:58-60 | `same_mut` holds iff the two roots are equal; roots are unchanged |
| UnionFind.UnionFind.Same | src/data_structure/union_find.rs:62-64 | `same` holds iff the two roots are equal |
| UnionFind.UnionFind.IsEmpty | src/data_structure/union_find.rs:66-68 | `is_empty` iff there are no elements |
| UnionFind.UnionFind.Len | src/data_structure/union_find.rs:69-71 | `len` is the number of elements |
| UnionFind.UnionFind.ComponentLen | src/data_structure/union_find.rs:73-76 | `component_len(u)` is the number of elements sharing `u`'s root |
| UnionFind.UnionFind.ComponentLenMut | src/data_structure/union_find.rs:78-81 | `component_len_mut(u)` is that same number, and no root changes |
| UnionFind.UniteScenario | src/data_structure/union_find.rs:88-98 | the unit test: `unite(2,3)` merges, then 1 and 2 are apart; `unite(1,3)` merges, then 1 and 2 are together; `unite(1,2)` does not merge |
| Dinic.Push | src/flow/dinic.rs:106-110 | moving `f` units between an edge and its pair keeps every endpoint, `rev` and `upper` |
| Dinic.PushCells | src/flow/dinic.rs:106-110 | the push lowers `edges[u][i].flow` by `f`, raises the pair's flow by `f`, and leaves every other stored edge and list alone |
| Dinic.PushPaired | src/flow/dinic.rs:101-110 | a push of `0 <= f <= flow` keeps every pair's flows summing to `upper` and inside `[0, upper]` |
| Dinic.PushNet | src/flow/dinic.rs:106-110 | a push along `u -> v` lowers the stored flow sum at `u` by `f` and raises it at `v` by `f`, and changes no other vertex |
| Dinic.WithEdgeCells | src/flow/dinic.rs:32-51 | `add_edge` on a large enough graph appends `Edge(dst, re, 0, cap)` to `src`'s list and `Edge(src, e, cap, cap)` to `dst`'s list, where `re` is shifted by 1 for a self-loop; nothing else changes |
| Dinic.WithEdgePaired | src/flow/dinic.rs:32-51 | a new edge of non-negative capacity keeps the pairing invariant |
| Dinic.WithEdgeNet | src/flow/dinic.rs:32-51 | a new edge adds its capacity to the stored flow sum at `dst` only |
| Dinic.PadPaired | src/flow/dinic.rs:33-34 | appending empty lists keeps the pairing invariant |
| Dinic.PadNet | src/flow/dinic.rs:33-34 | appending empty lists changes no vertex's flow sum |
| Dinic.SumResidualNonneg | src/flow/dinic.rs:145-148 | the residual capacities of a list with `flow <= upper` sum to a non-negative value, the `inf` limit of `max_flow` |
| Dinic.LabelQueue | src/flow/dinic.rs:78-85 | labelling an unlabelled vertex from the queue keeps the queue invariant: the queue holds exactly the labelled vertices, `s` first, each label at most its queue position |
| Dinic.LabelVia | src/flow/dinic.rs:79-81 | the newly labelled vertex is reached over a residual edge from a vertex labelled one less |
| Dinic.ViaLevelled | src/flow/dinic.rs:66-91 | the recorded predecessors witness that every labelled vertex other than `s` is one level above a residual-edge predecessor |
| Dinic.ClosedFromProcessed | src/flow/dinic.rs:75-88 | a search that scanned its whole queue leaves the labelled set closed under residual edges |
| Dinic.ScanEdge | src/flow/dinic.rs:80-86 | one edge of the BFS scan either labels its far end (stopping at `t`) or keeps the scan invariant one edge further on |
| Dinic.ScanEdges | src/flow/dinic.rs:76-87 | the scan of one queued vertex ends with `t` labelled, or with that vertex processed and the queue invariant kept |
| Dinic.Bfs | src/flow/dinic.rs:70-88 | the BFS labels `s` with 0, every label is at most `n`, every labelled vertex is one level above a residual-edge predecessor, and if `t` is unlabelled the labelled set is closed under residual edges |
| Dinic.BfsDone | src/flow/dinic.rs:75-88 | an emptied queue yields those same facts |
| Dinic.DfsStep | src/flow/dinic.rs:99-123 | one successful step of `primal_dfs` (the nested call, then the push back along `u`'s edge) composes with the changes so far: `total + f` units moved, labels only reset to `n`, lists above `u`'s level untouched |
| Dinic.DfsExhausted | src/flow/dinic.rs:124-125 | marking an exhausted `u` with label `n` keeps the label-reset invariant |
| Dinic.DfsStopped | src/flow/dinic.rs:113-118 | returning early at `limit` keeps the label-reset invariant |
| Dinic.Dinic.constructor | src/flow/dinic.rs:28-30 | `new` is the empty graph |
| Dinic.Dinic.AddEdge | src/flow/dinic.rs:32-51 | `add_edge` grows the graph to `max(src, dst) + 1` vertices if needed and returns `EdgeId(src, e)`. It stores the forward edge (flow 0) and the reverse edge (flow = capacity) with matching `rev` indices, a self-loop shifted by one. The pairing invariant holds, and only `dst`'s flow sum changes, by the capacity |
| Dinic.TemporaryData.constructor | src/flow/dinic.rs:56-63 | the scratch data starts with `n`, `s`, `t`, zero labels and cursors, and an empty buffer |
| Dinic.Dinic.PrepareData | src/flow/dinic.rs:53-64 | `prepare_data` pads the graph with empty lists to `max(s, t) + 1` vertices and returns scratch data sized to the graph; no flow sum changes |
| Dinic.Dinic.Dual | src/flow/dinic.rs:66-91 | `dual` returns true iff `t` is labelled below `n`. It resets every cursor to 0 and labels `s` with 0. Each labelled vertex is one level above a residual-edge predecessor. After a false return the labelled set is closed under residual edges |
| Dinic.Dinic.PrimalDfs | src/flow/dinic.rs:93-127 | `primal_dfs(u, limit)` returns `0 <= total <= limit` and moves exactly `total` units from `s` to `u` in the flow sums. The pairing invariant holds. Labels only change to `n`, and only at vertices no higher than `u`. Lists of vertices labelled above `u` are untouched |
| Dinic.Dinic.DfsEdge | src/flow/dinic.rs:100-121 | one round of `primal_dfs`'s loop over edge `i` keeps that invariant and adds `0 <= f <= limit` to the moved amount |
| Dinic.Dinic.PushAlong | src/flow/dinic.rs:106-110 | the push of `f <= flow` along `edges[u][i]` keeps the pairing invariant and moves `f` units between the two flow sums, touching only lists `u` and `dst` |
| Dinic.Dinic.Augment | src/flow/dinic.rs:129-140 | `augment` (with `s != t` and `limit >= 0`) returns `0 <= flow <= limit` and moves exactly `flow` units out of `s` and into `t` in the flow sums; the pairing invariant holds; when its phases stopped because `t` became unreachable, some vertex set holds `s` but not `t` and no residual edge leaves it |
| Dinic.ClosedSeparated | src/flow/dinic.rs:133 | a levelling that labels `s` but leaves `t` at `n` and is closed under residual edges separates `s` from `t` |
| Dinic.Dinic.MaxFlow | src/flow/dinic.rs:142-161 | `max_flow` (with `s != t`) returns a non-negative flow, moved out of `s` and into `t`, and the increasing list of vertices labelled below `n`. When the phase loop ran to its end, `s` is in the cut, `t` is not, and no residual edge leaves the cut, so the flow is maximum |
| Dinic.Dinic.GetFlow | src/flow/dinic.rs:163-165 | `get_flow` returns the forward edge's flow, which lies in `[0, capacity]` |
| Dinic.Reached | src/flow/dinic.rs:153-159 | the cut lists, in increasing order, exactly the vertices whose label is below `n` |
| Dinic.TestAnswerIsMaximum | src/flow/dinic.rs:172-195 | the unit test's expected edge flows are feasible and conserved, carry 5 units from 0 to 5, and equal the capacity of the expected cut `{0, 2}`, so 5 is the maximum |
| SimplexEdges.Rev | src/flow/network_simplex.rs:18-22 | `rev` (`id ^ 1`) gives the other id of the same pair, of the opposite parity |
| SimplexEdges.RevRev | src/flow/network_simplex.rs:18-22 | `rev` is an involution |
| SimplexEdges.SamePair | src/flow/network_simplex.rs:18-22 | two ids share a pair index exactly when they are equal or reverses of each other |
| SimplexEdges.ResidualCapacity | src/flow/network_simplex.rs:142-144 | the residual capacity is non-negative iff `flow <= capacity`, zero iff the edge is saturated, and adding it saturates the edge |
| SimplexEdges.PairedEven | src/flow/network_simplex.rs:94-108 | a paired edge store has an even number of edges |
| SimplexEdges.NetUpdate | src/flow/network_simplex.rs:135-140 | changing one edge's flow changes the net outflow of its source by the difference, and no other vertex's |
| SimplexEdges.NetAppend | src/flow/network_simplex.rs:94-108 | appending an edge adds its flow to its source's net outflow |
| SimplexEdges.NetNoSource | src/flow/network_simplex.rs:94-108 | a vertex that is no edge's source has net outflow 0 |
| SimplexEdges.AddFlowTo | src/flow/network_simplex.rs:135-140 | `add_flow(e, f)` adds `f` to `e`'s flow, subtracts `f` from `rev(e)`'s, and changes no other edge |
| SimplexEdges.AddFlowShape | src/flow/network_simplex.rs:135-140 | `add_flow` changes flows only |
| SimplexEdges.AddFlowPaired | src/flow/network_simplex.rs:135-140 | `add_flow` keeps `flow(e) + flow(rev e) = 0` and the mirrored endpoints and costs |
| SimplexEdges.AddFlowNet | src/flow/network_simplex.rs:135-140 | `add_flow` along `src -> dst` raises `src`'s net outflow by `f`, lowers `dst`'s by `f`, and changes no other vertex |
| SimplexTree.ReducedCostRev | src/flow/network_simplex.rs:146-148 | the reverse edge has the opposite reduced cost |
| SimplexTree.DepthZeroIsRoot | src/flow/network_simplex.rs:24-31 | in a consistent tree, only the root has depth 0 |
| SimplexTree.TreeRanked | src/flow/network_simplex.rs:159-161 | depths strictly increase from parent to child, so the parent links have no cycle |
| SimplexTree.TreeOkShape | src/flow/network_simplex.rs:286-306 | the tree invariant depends only on endpoints and costs, so pushing flow keeps it |
| SimplexTree.TreeEdgeReducedCost | src/flow/network_simplex.rs:159-162 | in a consistent tree every tree edge, in either direction, has reduced cost 0 |
| SimplexTree.Up | src/flow/network_simplex.rs:261-273 | the `k`-th ancestor of `v` exists and has depth `depth(v) - k` |
| SimplexTree.UpStep | src/flow/network_simplex.rs:261-273 | one more step up is the parent of the last vertex reached, which is not the root |
| SimplexTree.DownPath | src/flow/network_simplex.rs:282-293 | the `k` edges walked up from the source side, in walking order, each the reverse of a parent edge |
| SimplexTree.UpPath | src/flow/network_simplex.rs:298-307 | the `k` edges walked up from the destination side, in walking order, each a parent edge |
| SimplexTree.RelabelledAdjacency | src/flow/network_simplex.rs:150-167 | relabelling a subtree leaves every adjacency list alone |
| SimplexRelabel.WalkStart | src/flow/network_simplex.rs:151 | the stack `[v0]` with nothing popped satisfies the walk invariant |
| SimplexRelabel.LabelsParent | src/flow/network_simplex.rs:156 | a pushed vertex already carries its target parent and its original tree-edge set |
| SimplexRelabel.StackPop | src/flow/network_simplex.rs:152 | popping the stack yields a pushed, unpopped vertex and keeps the stack invariant |
| SimplexRelabel.StackPush | src/flow/network_simplex.rs:163 | pushing a new vertex keeps the stack invariant |
| SimplexRelabel.ClosedPop | src/flow/network_simplex.rs:152-154 | popping `u` and taking its tree edges for visiting keeps the "pushed iff parent popped and edge visited" invariant |
| SimplexRelabel.WalkPop | src/flow/network_simplex.rs:152-154 | popping keeps the walk invariant, and the popped vertex's tree edges are still its original ones |
| SimplexRelabel.WalkSkip | src/flow/network_simplex.rs:156-158 | skipping the edge to the parent keeps the walk invariant |
| SimplexRelabel.AdoptTarget | src/flow/network_simplex.rs:155-160 | a visited tree edge that does not lead to `u`'s parent leads to a not-yet-pushed child `w` of `u`, attached by the reverse of that edge |
| SimplexRelabel.ClosedAdopt | src/flow/network_simplex.rs:159-163 | pushing that child keeps the closure invariant |
| SimplexRelabel.LabelsAdopt | src/flow/network_simplex.rs:159-162 | giving the child parent `u`, parent edge `rev(eid)`, depth `depth(u) + 1` and potential `potential(u) + cost` keeps the labelling invariant |
| SimplexRelabel.WalkAdopt | src/flow/network_simplex.rs:159-163 | the whole relabel-and-push step keeps the walk invariant |
| SimplexRelabel.WalkDone | src/flow/network_simplex.rs:150-167 | when the stack is empty, exactly the subtree below `v0` has been relabelled: each of its vertices has its new parent, parent edge, depth and zero-reduced-cost potential, and every other vertex is unchanged |
| SimplexSeed.VertexBound | src/flow/network_simplex.rs:181-183 | the vertex count of `prepare_data`'s first loop is at least the balances' length, above every edge source, and attained by one of them |
| SimplexSeed.PositiveCostsBound | src/flow/network_simplex.rs:185-187 | the sum of positive costs is non-negative and at least every single cost |
| SimplexSeed.OutIdsExact | src/flow/network_simplex.rs:184 | a vertex's `adjacent_edges` lists, in increasing order, exactly the ids of the edges leaving it |
| SimplexSeed.OutIdsAppend | src/flow/network_simplex.rs:203-204 | a new edge extends its source's list by its id |
| SimplexSeed.ScanStep | src/flow/network_simplex.rs:181-188 | one round of the first loop grows the records to `max(n, 1 + src)`, lists the edge at its source, and adds a positive cost to `infinity` |
| SimplexSeed.SeedsAt | src/flow/network_simplex.rs:194-207 | the artificial pair of vertex `v` sits at positions `2v` and `2v + 1` of the seeded edges |
| SimplexSeed.SeedsOk | src/flow/network_simplex.rs:194-207 | the artificial pairs keep the edge store paired and feasible |
| SimplexSeed.SeedUp | src/flow/network_simplex.rs:196-204 | each real vertex's artificial edge towards the root has cost `infinity` when the balance is non-negative and `-infinity` otherwise, and its reverse leaves the root |
| SimplexSeed.SeedPairNet | src/flow/network_simplex.rs:195-202 | an artificial pair moves vertex `v`'s balance `b` into its net outflow and leaves other real vertices alone |
| SimplexSeed.SeedsNet | src/flow/network_simplex.rs:194-207 | all artificial pairs add each real vertex's balance to its net outflow |
| SimplexSeed.Padded | src/flow/network_simplex.rs:193 | `resize_with` zero-extends the balances to the root |
| SimplexSeed.SeedTreeStep | src/flow/network_simplex.rs:205-206 | each seeding round adds vertex `v`'s artificial edge to its tree set and the reverse to the root's |
| SimplexSeed.SeedEdges | src/flow/network_simplex.rs:194-207 | after seeding, the store is paired and feasible, and all endpoints lie at or below the root |
| SimplexSeed.SeedStar | src/flow/network_simplex.rs:212 | `update_tree(root)` on the seeded star gives every real vertex parent `root`, its artificial parent edge, depth 1 and potential `infinity` (negative balance) or `-infinity`; the root is unchanged |
| SimplexSeed.SeedTreeOk | src/flow/network_simplex.rs:169-214 | that star is a consistent spanning tree: parent chain, zero reduced cost on parent edges, and tree sets oriented by the parents |
| SimplexSeed.SeedFlow | src/flow/network_simplex.rs:196-202 | `add_edge(x, y, 0, cap, infinity)` then `add_flow(eid, abs(b))` yields the artificial pair: flow `abs(b)` of capacity `-b` from the root, or of capacity `b + 1` to the root |
| SimplexSeed.SeedingStep | src/flow/network_simplex.rs:194-207 | one round of the seeding loop spends `balances[v]`, appends `v`'s pair, and records both tree edges |
| SimplexSeed.PreparedConserves | src/flow/network_simplex.rs:194-207 | `prepare_data` keeps, at every real vertex, net outflow plus balance |
| SimplexSeed.SeedPrepared | src/flow/network_simplex.rs:169-214 | the seeded state is exactly what `prepare_data` builds: root after the real vertices, `infinity = 1 + sum of positive costs`, balances all 0, the star tree |
| SimplexCycle.PushAllAt | src/flow/network_simplex.rs:134-140 | after `add_flow(x, f)` for each `x` of a list, every edge's flow has moved by `f` times the number of pushes along it minus those along its reverse |
| SimplexCycle.DeltaRev | src/flow/network_simplex.rs:18-22 | an edge and its reverse are moved by opposite amounts |
| SimplexCycle.PushAllShape | src/flow/network_simplex.rs:134-140 | pushing along a list of edges leaves endpoints, capacities and costs alone |
| SimplexCycle.PushAllPaired | src/flow/network_simplex.rs:134-140 | pushing along a list of edges keeps every pair's flows opposite |
| SimplexCycle.PushAllNet | src/flow/network_simplex.rs:134-140 | pushing `f` along a list changes a vertex's net outflow by `f` times the net number of listed edges leaving it |
| SimplexCycle.DeltaDistinct | src/flow/network_simplex.rs:282-307 | in a list using no edge pair twice, each listed edge is pushed once and its reverse withdrawn once |
| SimplexCycle.PushAllFeasible | src/flow/network_simplex.rs:258-273 | pushing at most the smallest residual capacity along a pair-distinct list keeps every flow within its capacity |
| SimplexCycle.PushAllSat | src/flow/network_simplex.rs:286-305 | in a pair-distinct list, an edge that a push of `f` saturates ends at its capacity after the push along the whole list |
| SimplexCycle.SatChoiceSaturated | src/flow/network_simplex.rs:282-307 | the last saturated edge of the upward part, else the middle edge, else the first saturated edge of the downward part, when one exists, ends at its capacity after the push |
| SimplexCycle.FirstSat | src/flow/network_simplex.rs:286-290 | the first listed edge that a push of `f` saturates, or `None` exactly when none is saturated |
| SimplexCycle.FirstSatExtend | src/flow/network_simplex.rs:287-290 | keeping an earlier hit and otherwise taking the next saturated edge computes `FirstSat` of the longer list |
| SimplexCycle.LastSat | src/flow/network_simplex.rs:302-305 | the last listed edge that a push of `f` saturates, or `None` exactly when none is saturated |
| SimplexCycle.LastSatExtend | src/flow/network_simplex.rs:302-305 | an unsaturated last edge leaves `LastSat` as for the list without it |
| SimplexCycle.DownAtEnds | src/flow/network_simplex.rs:263-266 | the `i`-th reversed parent edge above `s` leads from the `(i+1)`-th ancestor down to the `i`-th |
| SimplexCycle.UpAtEnds | src/flow/network_simplex.rs:268-271 | the `j`-th parent edge above `t` leads from the `j`-th ancestor up to the `(j+1)`-th |
| SimplexCycle.DownThrough | src/flow/network_simplex.rs:282-293 | the downward path to `s` leaves its top once and enters `s` once, and is balanced at every other vertex |
| SimplexCycle.UpThrough | src/flow/network_simplex.rs:298-307 | the upward path from `t` leaves `t` once and enters its top once, and is balanced at every other vertex |
| SimplexCycle.CycleThrough | src/flow/network_simplex.rs:282-307 | the pivot cycle (down to `s`, the entering edge, up from `t` to the apex) is balanced at every vertex |
| SimplexCycle.ParentEdgePairs | src/flow/network_simplex.rs:28 | distinct non-root vertices have parent edges from different pairs |
| SimplexCycle.NonTreePair | src/flow/network_simplex.rs:146-148 | an edge of non-zero reduced cost shares no pair with any parent edge |
| SimplexCycle.CyclePairsDistinct | src/flow/network_simplex.rs:282-307 | the pivot cycle uses no edge pair twice |
| SimplexExchange.SubParent | src/flow/network_simplex.rs:150-167 | a non-root vertex `u` lies in the subtree of `w` iff `u` is `w` or the parent of `u` lies in it |
| SimplexExchange.SwappedFacts | src/flow/network_simplex.rs:313-320 | after the swap, the entering edge is a tree edge at `c`, its reverse at `d`, and every other pair's tree edges are kept |
| SimplexExchange.SwappedRemoves | src/flow/network_simplex.rs:315-320 | the leaving edge leaves the tree set of its source and its reverse that of its destination |
| SimplexExchange.ExchangeChild | src/flow/network_simplex.rs:308-325 | every vertex's new parent and parent edge agree with the swapped tree-edge sets |
| SimplexExchange.ExchangeTreeEdge | src/flow/network_simplex.rs:308-325 | every swapped tree edge joins a vertex to its new parent or to one of its new children |
| SimplexExchange.ExchangeRank | src/flow/network_simplex.rs:308-325 | the new parents come with a rank that strictly decreases towards the root, so the new tree is acyclic |
| SimplexExchange.Exchange | src/flow/network_simplex.rs:308-325 | the swapped tree with the new parents is a valid starting point for `update_tree(d)`, and `d` keeps its parent edge |
| SimplexExchange.SwappedChain | src/flow/network_simplex.rs:313-320 | changing tree-edge sets keeps the parent chain and the potentials as they were |
| SimplexExchange.ExchangeRelabelled | src/flow/network_simplex.rs:322-323 | `update_tree` on the swapped tree yields a valid spanning tree whose tree sets are the swapped ones |
| SimplexPivot.LowestStart | src/flow/network_simplex.rs:258-260 | the bottleneck walk starts at both ends of the entering edge with its residual capacity as the minimum |
| SimplexPivot.ClimbDown | src/flow/network_simplex.rs:262-266 | stepping up from the deeper side `a` adds its reversed parent edge to the downward path and keeps the walk invariant |
| SimplexPivot.ClimbUp | src/flow/network_simplex.rs:267-271 | stepping up from `b` adds its parent edge to the upward path and keeps the walk invariant |
| SimplexPivot.ClimbDone | src/flow/network_simplex.rs:261 | when `a == b` the walk has reached the apex: the two paths below it share no vertex |
| SimplexPivot.PushAllConcat | src/flow/network_simplex.rs:282-307 | pushing along two lists one after the other is pushing along their concatenation |
| SimplexPivot.PushStep | src/flow/network_simplex.rs:286-305 | after one more `add_flow` along a path, its saturation flag is whether `f` filled it, and the first and last saturated edges extend as the loops record them |
| SimplexPivot.SomeSat | src/flow/network_simplex.rs:308 | the bottleneck edge is saturated, so some edge of the cycle is chosen to leave |
| SimplexPivot.LastSatAgree | src/flow/network_simplex.rs:298-307 | pushes on edges of other pairs do not change which edges of the upward path are saturated |
| SimplexPivot.PushSplit | src/flow/network_simplex.rs:282-307 | the three loops of `pivot` together push `f` along the whole cycle |
| SimplexPivot.SwapSrc | src/flow/network_simplex.rs:322 | a leaving edge on the source side gives an exchange that hangs the source's subtree below `dst` |
| SimplexPivot.SwapDst | src/flow/network_simplex.rs:323 | a leaving edge on the destination side gives an exchange along the reversed entering edge, below `src` |
| SimplexPivot.NotTreeEdge | src/flow/network_simplex.rs:313-314 | an edge of non-zero reduced cost is in no tree set, so the two inserts of `pivot` succeed |
| SimplexPivot.LeavingSets | src/flow/network_simplex.rs:315-320 | the leaving edge is in its source's tree set and its reverse in its destination's, so the removes succeed |
| SimplexPivot.SwapPlan | src/flow/network_simplex.rs:313-320 | the four tree-set updates of `pivot` produce exactly the swapped tree sets |
| SimplexPivot.CyclePush | src/flow/network_simplex.rs:255-307 | pushing the bottleneck `f >= 0` around the cycle keeps the store paired and feasible, changes no net outflow, and saturates the bottleneck edge |
| SimplexPivot.LeavingOnCycle | src/flow/network_simplex.rs:279-307 | the leaving edge is `LeavingChoice`: the last saturated edge on the destination side if there is one, else the entering edge if it is saturated, else the first saturated edge on the source side; such an edge always exists and is saturated after the push, and it is the entering edge exactly when its side is `ENTER` |
| SimplexPivot.CycleIds | src/flow/network_simplex.rs:282-307 | the two tree paths and the entering edge of a cycle whose ids are in range each have their ids in range |
| SimplexPivot.ChoiceSaturated | src/flow/network_simplex.rs:279-307 | the edge `LeavingChoice` names is saturated once the bottleneck has been pushed around the cycle |
| SimplexSelect.Range | src/flow/network_simplex.rs:217-219 | the ids `a, a + 1, …, b - 1` |
| SimplexSelect.OrderIds | src/flow/network_simplex.rs:217-219 | the scan visits `start, …, m - 1` and then `0, …, start - 1`, all below `m` |
| SimplexSelect.BlockBest | src/flow/network_simplex.rs:223-244 | the best candidate of a block: an eligible edge that no eligible edge of the block precedes in (reduced cost, id) order, or `None` exactly when none is eligible |
| SimplexSelect.BlockBestStep | src/flow/network_simplex.rs:229-241 | extending a block by one id updates its best candidate with `min` on (reduced cost, id) |
| SimplexSelect.Scan | src/flow/network_simplex.rs:221-251 | the block search from position `p`: blocks before the chosen one hold no eligible edge, and a hit is the best of a block of `block_size` ids (or the rest) |
| SimplexSelect.BlockStep | src/flow/network_simplex.rs:245-250 | a block with a candidate ends the search; an empty one moves on to the next |
| SimplexSelect.ScanSome | src/flow/network_simplex.rs:245-250 | a chosen edge is eligible and best in its block |
| SimplexSelect.Select | src/flow/network_simplex.rs:216-253 | what `select_edge` returns, with the cursor it leaves (always at most the edge count) |
| SimplexSelect.SelectSpec | src/flow/network_simplex.rs:216-253 | a selected edge is eligible, and nothing is selected exactly when no edge is eligible |
| SimplexOptimal.CostSplit | src/flow/network_simplex.rs:146-148 | total cost is total reduced cost minus source potentials plus destination potentials |
| SimplexOptimal.DstIsMinusSrc | src/flow/network_simplex.rs:134-140 | on a paired store, the destination-potential sum is minus the source-potential sum |
| SimplexOptimal.SrcIsNet | src/flow/network_simplex.rs:146-148 | the source-potential sum equals potentials weighted by net outflow |
| SimplexOptimal.EdgeGain | src/flow/network_simplex.rs:226-230 | when no edge is eligible, each edge's `flow * reduced_cost` is at most that of any feasible flow |
| SimplexOptimal.Optimality | src/flow/network_simplex.rs:328-347 | when no edge is eligible, no feasible flow with the same net outflows has a smaller total cost |
| SimplexOptimal.IdleSuffix | src/flow/network_simplex.rs:333-337 | edges without flow change neither net outflows nor total cost |
| SimplexOptimal.OptimalWithoutIdle | src/flow/network_simplex.rs:333-337 | dropping the idle artificial edges of an optimal flow leaves a paired minimum-cost flow |
| SimplexOptimal.ValueIsHalfCost | src/flow/network_simplex.rs:61-70 | `get_value`, the sum over edges with positive flow of `flow * cost`, is half the total over all stored edges |
| SimplexOptimal.PairValue | src/flow/network_simplex.rs:61-70 | an edge pair contributes `f * c` to the value whichever of its two edges carries the positive flow |
| NetworkSimplexCore.TemporaryData.constructor | src/flow/network_simplex.rs:48-54 | empty vertex data with the given vertex count, root 0, block size 1 and scan cursor 0 |
| NetworkSimplexCore.SupplyAdded | src/flow/network_simplex.rs:116-120 | the balances grown to cover `v`, with `b` added at `v` and all else unchanged |
| NetworkSimplexCore.Concluded | src/flow/network_simplex.rs:333-347 | when no edge is eligible and the artificial edges are idle, the kept flow meets every balance, is minimum-cost, and comes with slack potentials |
| NetworkSimplexCore.Finished | src/flow/network_simplex.rs:338-346 | the final flow and potentials solve the original network |
| NetworkSimplexCore.FinishedSlack | src/flow/network_simplex.rs:340-345 | the reported potentials make every original edge saturated or of non-negative reduced cost |
| NetworkSimplexCore.FinishedNets | src/flow/network_simplex.rs:333-337 | dropping idle artificial edges leaves net outflow equal to the original plus the balance at every vertex |
| NetworkSimplexCore.NetworkSimplex.constructor | src/flow/network_simplex.rs:80-85 | no edges and no balances |
| NetworkSimplexCore.NetworkSimplex.AddSupply | src/flow/network_simplex.rs:116-120 | the balance of `v` rises by `b` and no other changes |
| NetworkSimplexCore.NetworkSimplex.AddDemand | src/flow/network_simplex.rs:122-124 | the balance of `v` falls by `b` and no other changes |
| NetworkSimplexCore.NetworkSimplex.AddEdge | src/flow/network_simplex.rs:87-114 | `lower > upper` yields `None` and changes nothing; otherwise the edge and its reverse are appended at an even id, a non-zero lower bound moves `lower` from the source's balance to the destination's, and net outflow plus balance is unchanged everywhere |
| NetworkSimplexCore.NetworkSimplex.AddFlow | src/flow/network_simplex.rs:134-140 | `f` is added to the edge and subtracted from its reverse, and the result says whether the edge is now saturated |
| NetworkSimplexCore.NetworkSimplex.VisitTreeEdge | src/flow/network_simplex.rs:155-163 | one visited tree edge keeps the relabelling walk's invariant |
| NetworkSimplexCore.NetworkSimplex.ExpandVertex | src/flow/network_simplex.rs:154-164 | visiting all tree edges of the popped vertex keeps the walk invariant |
| NetworkSimplexCore.NetworkSimplex.UpdateTree | src/flow/network_simplex.rs:150-167 | the subtree below `v` is relabelled with its new parents, parent edges, depths and potentials; all else is unchanged |
| NetworkSimplexCore.NetworkSimplex.ScanEdges | src/flow/network_simplex.rs:181-188 | the vertex count covers every edge source, each recorded vertex lists exactly its out-edges, and `infinity` is one plus the positive costs |
| NetworkSimplexCore.NetworkSimplex.SeedVertex | src/flow/network_simplex.rs:195-206 | one round of the seeding loop keeps the seeding invariant one vertex further |
| NetworkSimplexCore.NetworkSimplex.SeedAll | src/flow/network_simplex.rs:194-207 | the seeding loop seeds every real vertex |
| NetworkSimplexCore.NetworkSimplex.HangStar | src/flow/network_simplex.rs:212 | `update_tree(root)` turns the seeded store into a valid spanning tree |
| NetworkSimplexCore.NetworkSimplex.SeedTree | src/flow/network_simplex.rs:189-212 | seeding and hanging the star give a valid tree and the prepared state |
| NetworkSimplexCore.NetworkSimplex.PrepareData | src/flow/network_simplex.rs:169-214 | the prepared state with a valid spanning tree, `n = root + 1`, cursor 0 and block size `min(sqrt + 10, edge count)` |
| NetworkSimplexCore.NetworkSimplex.ScanBlock | src/flow/network_simplex.rs:223-244 | one block of at most `block_size` ids yields the candidate `(reduced cost, id)` of its best edge |
| NetworkSimplexCore.NetworkSimplex.SelectEdge | src/flow/network_simplex.rs:216-253 | the selected edge and new cursor are those of `Select` |
| NetworkSimplexCore.NetworkSimplex.FindApex | src/flow/network_simplex.rs:258-273 | the walk stops at the apex of the cycle, and `f` is the smallest residual capacity on the cycle |
| NetworkSimplexCore.NetworkSimplex.PushDown | src/flow/network_simplex.rs:282-293 | pushes `f` along the source side and returns its first saturated edge, with side `SRC` when there is one |
| NetworkSimplexCore.NetworkSimplex.PushFirstHalf | src/flow/network_simplex.rs:282-297 | the source side and the entering edge are pushed, with the saturation flag of the entering edge |
| NetworkSimplexCore.NetworkSimplex.PushUp | src/flow/network_simplex.rs:298-307 | pushes `f` along the destination side; its last saturated edge, if any, overrides the earlier choice with side `DST` |
| NetworkSimplexCore.NetworkSimplex.PushAround | src/flow/network_simplex.rs:279-307 | all of the cycle is pushed; the leaving edge is `LeavingChoice` of the cycle, saturated after the push, and its side is as `LeavingOnCycle` describes |
| NetworkSimplexCore.NetworkSimplex.PushCycle | src/flow/network_simplex.rs:256-307 | pushes the bottleneck around the cycle (`Pushed`: the new store is the push of the smallest residual capacity along the cycle, and the leaving edge is `LeavingChoice`, saturated); net outflows and balances are kept and the store stays valid |
| NetworkSimplexCore.NetworkSimplex.SwapTreeEdges | src/flow/network_simplex.rs:313-320 | the two inserts and two removes give exactly the requested tree sets |
| NetworkSimplexCore.NetworkSimplex.SwapLeaving | src/flow/network_simplex.rs:313-320 | the tree sets become the swapped ones |
| NetworkSimplexCore.NetworkSimplex.Rehang | src/flow/network_simplex.rs:322-323 | `update_tree` on the swapped sets gives a valid tree with those sets |
| NetworkSimplexCore.NetworkSimplex.ExchangeTree | src/flow/network_simplex.rs:308-325 | the swap and relabel give a valid tree with the swapped sets |
| NetworkSimplexCore.NetworkSimplex.Rechain | src/flow/network_simplex.rs:308-325 | the tree afterwards is valid, and its tree-edge sets are unchanged when the entering edge leaves, else those of the exchange at the leaving edge's position on the source or destination side (`Exchanged`) |
| NetworkSimplexCore.NetworkSimplex.Pivot | src/flow/network_simplex.rs:255-326 | a pivot keeps a valid spanning tree, the balances, every edge's shape and every net outflow; it pushes the bottleneck around the cycle, picks the saturated leaving edge of `LeavingChoice` and exchanges the tree sets at it (`Pivoted`) |
| NetworkSimplexCore.NetworkSimplex.Choose | src/flow/network_simplex.rs:330 | the selected edge is eligible, or no edge is |
| NetworkSimplexCore.NetworkSimplex.Advance | src/flow/network_simplex.rs:330-331 | one pivot and the next selection keep the running invariant |
| NetworkSimplexCore.NetworkSimplex.Pivots | src/flow/network_simplex.rs:330-332 | the pivot loop keeps the running invariant, and when it ends no edge is eligible |
| NetworkSimplexCore.NetworkSimplex.Finish | src/flow/network_simplex.rs:333-346 | drops the artificial edges, gives `None` exactly when one of them carries flow, and otherwise reports flows, costs and the real vertices' potentials |
| NetworkSimplexCore.NetworkSimplex.Conclude | src/flow/network_simplex.rs:333-347 | the kept edges are the first `|e0|` of the store; the result is `None` exactly when an artificial edge carries flow, and a `Some` result solves the original network |
| NetworkSimplexCore.NetworkSimplex.Run | src/flow/network_simplex.rs:328-347 | when the pivots finish, the pivoted store keeps the shapes and net outflows of the prepared star network and its first edges are the final edges; the answer is `None` exactly when an artificial edge of it carries flow, and a `Some` answer meets every balance, has minimum cost among feasible flows, and comes with slack potentials |
| NetworkSimplexCore.ExampleFlowOptimal | src/flow/network_simplex.rs:354-375 | the expected flow `[1, 0, 3, 3, 0]` of the repository's test is feasible, meets the balances and is minimum-cost, with total cost `-4` |
| NetworkSimplexCore.ExampleValue | src/flow/network_simplex.rs:375 | any solution of the test network has value `-2`, the flows `[1, 0, 3, 3, 0]` on the test's edges, potential of vertex 2 one below vertex 0 and potential of vertex 1 between 1 and 3 below vertex 0 |
| NetworkSimplexCore.ExampleShape | src/flow/network_simplex.rs:360-364 | a store shaped like the test's has its ten edge ends, capacities and costs |
| NetworkSimplexCore.ExampleSums | src/flow/network_simplex.rs:354-375 | on the test's shape, net outflows at vertices 0 and 1 and the summed cost as sums over the flows |
| NetworkSimplexCore.ExampleFlowUnique | src/flow/network_simplex.rs:370 | a feasible paired flow on the test network meeting the balances at cost `-4` is `[1, 0, 3, 3, 0]` on the test's edges |
| NetworkSimplexCore.ExampleNetwork | src/flow/network_simplex.rs:363-371 | the test's `add_supply`, `add_demand` and `add_edge` calls build exactly its edges and balances |
| NetworkSimplexCore.Example | src/flow/network_simplex.rs:354-375 | a value returned for the test network is `-2`, with the flows `[1, 0, 3, 3, 0]`, and the potentials offset by vertex 0 are `0`, some value in `[-3, -1]`, `-1`; no answer yields empty lists |
| DfsLcaTraversal.PreAll | src/flow/dfs_lca_network_simplex.rs:299-304 | the `PRE` entries for a list of vertices, in order |
| DfsLcaTraversal.CountsAppend | src/flow/dfs_lca_network_simplex.rs:293-307 | the number of `POST` entries and the stack weight add up over concatenation |
| DfsLcaTraversal.DistinctElements | src/flow/dfs_lca_network_simplex.rs:290-324 | a duplicate-free list has as many elements as its set |
| DfsLcaTraversal.TreeEdgeChild | src/flow/dfs_lca_network_simplex.rs:299-303 | a tree edge of `v` leads to its parent or to one of its children, and in the latter case it is that child's parent edge reversed |
| DfsLcaTraversal.ChildEdgeIn | src/flow/dfs_lca_network_simplex.rs:299 | the edge to each child of `v` is among `v`'s tree edges |
| DfsLcaTraversal.TraversalStart | src/flow/dfs_lca_network_simplex.rs:290 | the stack `[PRE(root)]` with only the root pending satisfies the walk invariant |
| DfsLcaTraversal.StackBound | src/flow/dfs_lca_network_simplex.rs:294-324 | the stack never holds more entries than there are vertices |
| DfsLcaTraversal.EnterLayout | src/flow/dfs_lca_network_simplex.rs:296-298 | replacing `PRE(v)` by `POST(v)` keeps the stack layout with `v` open |
| DfsLcaTraversal.PushLayout | src/flow/dfs_lca_network_simplex.rs:302 | pushing `PRE(u)` keeps the stack layout with `u` pending |
| DfsLcaTraversal.LeaveLayout | src/flow/dfs_lca_network_simplex.rs:306-321 | popping `POST(v)` and closing `v` keeps the layout; only the root's `POST` is ever popped from the bottom |
| DfsLcaTraversal.EnterFrontier | src/flow/dfs_lca_network_simplex.rs:296-299 | when `v` is entered all its children are unseen |
| DfsLcaTraversal.PushFrontier | src/flow/dfs_lca_network_simplex.rs:301-303 | pushing a child makes it pending and strictly shrinks the unseen vertices |
| DfsLcaTraversal.LeaveFrontier | src/flow/dfs_lca_network_simplex.rs:321 | closing `v` keeps the frontier invariant and the unseen vertices |
| DfsLcaTraversal.TraversalDone | src/flow/dfs_lca_network_simplex.rs:294 | when the stack is empty every vertex is closed |
| DfsLcaTraversal.SeenAll | src/flow/dfs_lca_network_simplex.rs:294 | when the walk has finished no vertex is unseen |
| DfsLcaTraversal.PushedByFilter | src/flow/dfs_lca_network_simplex.rs:308-316 | what `POST(v)` files is exactly its out-edges whose head is closed or which are the first edge of a self-loop pair |
| DfsLcaTraversal.PushedBySorted | src/flow/dfs_lca_network_simplex.rs:308 | the edges filed by `POST(v)` are in increasing id order |
| DfsLcaTraversal.Halves | src/flow/dfs_lca_network_simplex.rs:21-23 | the pair index `eid / 2` of each id |
| DfsLcaTraversal.TallyStart | src/flow/dfs_lca_network_simplex.rs:291-292 | before anything is closed, no pair is settled and no bucket is filled |
| DfsLcaTraversal.ClosingSettles | src/flow/dfs_lca_network_simplex.rs:310-321 | an edge filed while `v` is closed belongs to a pair that was not settled before and is settled after |
| DfsLcaTraversal.SettlingCloses | src/flow/dfs_lca_network_simplex.rs:308-316 | a pair that becomes settled when `v` closes is filed by one of `v`'s out-edges |
| DfsLcaTraversal.PushedHalvesDistinct | src/flow/dfs_lca_network_simplex.rs:308-316 | one `POST(v)` files at most one edge of each pair |
| DfsLcaTraversal.PostTally | src/flow/dfs_lca_network_simplex.rs:306-321 | `POST(v)` keeps the bucket invariant: the filed edges name distinct pairs, exactly the settled ones |
| DfsLcaTraversal.TallyDone | src/flow/dfs_lca_network_simplex.rs:325-328 | when all is closed the buckets hold `edges.len() / 2` ids, one of each pair (this is the `assert_eq!`) |
| DfsLcaTraversal.TallyCovers | src/flow/dfs_lca_network_simplex.rs:325-328 | every edge or its reverse is filed |
| DfsLcaTraversal.SumLensFlatten | src/flow/dfs_lca_network_simplex.rs:326 | the summed bucket lengths are the length of the flattened order |
| DfsLcaTraversal.FlattenRevPush | src/flow/dfs_lca_network_simplex.rs:312-314 | pushing into one bucket adds that id to the flattened order as a multiset |
| DfsLcaTraversal.QuietCover | src/flow/dfs_lca_network_simplex.rs:329-347 | when no pair in an order covering every edge is pivoted, no edge is eligible |
| DfsLcaSimplex.PreparedReady | src/flow/dfs_lca_network_simplex.rs:169-209 | after `prepare_data` each vertex's adjacency lists exactly its out-edges and no edge loops at the root |
| DfsLcaSimplex.EnterVertex | src/flow/dfs_lca_network_simplex.rs:296-305 | the `PRE(v)` step keeps the walk invariant, counts one more `POST`, closes nothing, and makes progress in the termination measure |
| DfsLcaSimplex.VisitTreeEdgeOf | src/flow/dfs_lca_network_simplex.rs:299-304 | one tree edge of `v` pushes its head when it is a child, and keeps the entering invariant |
| DfsLcaSimplex.FileEdge | src/flow/dfs_lca_network_simplex.rs:309-315 | one out-edge is added to some bucket exactly when it is closing, and the union-find and top depths stay in range |
| DfsLcaSimplex.FileEdges | src/flow/dfs_lca_network_simplex.rs:308-316 | `POST(v)` adds exactly the closing out-edges of `v` to the buckets |
| DfsLcaSimplex.LeaveVertex | src/flow/dfs_lca_network_simplex.rs:306-321 | `POST(v)` files the closing edges and closes `v` |
| DfsLcaSimplex.MergeUp | src/flow/dfs_lca_network_simplex.rs:317-320 | uniting `v` with its parent and recording `depth - 1` keeps every closed vertex's top depth in range |
| DfsLcaSimplex.LeaveStep | src/flow/dfs_lca_network_simplex.rs:306-322 | the `POST` step keeps the walk invariant with a smaller stack weight |
| DfsLcaSimplex.EnterStep | src/flow/dfs_lca_network_simplex.rs:296-305 | the `PRE` step keeps the walk invariant and decreases the termination measure |
| DfsLcaSimplex.WalkStep | src/flow/dfs_lca_network_simplex.rs:294-323 | one popped entry keeps the walk invariant and decreases the termination measure |
| DfsLcaSimplex.FiledAll | src/flow/dfs_lca_network_simplex.rs:325-328 | when the walk ends the buckets hold one edge of every pair and `edges.len() / 2` ids |
| DfsLcaSimplex.BucketTree | src/flow/dfs_lca_network_simplex.rs:284-328 | the bucketing walk returns `n` buckets that together hold one edge of every pair |
| DfsLcaSimplex.Bucket | src/flow/dfs_lca_network_simplex.rs:284-328 | the same, on the solver's state |
| DfsLcaSimplex.Consider | src/flow/dfs_lca_network_simplex.rs:335-345 | one pair is pivoted in by whichever of its edges has negative reduced cost and residual capacity; otherwise nothing changes and neither edge is eligible |
| DfsLcaSimplex.PivotOn | src/flow/dfs_lca_network_simplex.rs:342-345 | a pivot inside the round keeps the bucketing state ready, the balances, the edge shapes and the net outflows |
| DfsLcaSimplex.PivotAll | src/flow/dfs_lca_network_simplex.rs:329-347 | the round pivots nothing exactly when every pair was quiet, and otherwise some edge was eligible before it |
| DfsLcaSimplex.DfsLcaPivot | src/flow/dfs_lca_network_simplex.rs:283-348 | `dfs_lca_pivot` returns true exactly when no edge was eligible, and then changes nothing; balances, shapes and net outflows are kept |
| DfsLcaSimplex.Rounds | src/flow/dfs_lca_network_simplex.rs:352 | the loop of rounds keeps the solver invariant and ends with no edge eligible |
| DfsLcaSimplex.Run | src/flow/dfs_lca_network_simplex.rs:350-367 | when the rounds finish, the pivoted store keeps the shapes and net outflows of the prepared star network and its first edges are the final edges; the answer is `None` exactly when an artificial edge of it carries flow, and a `Some` answer meets every balance, has minimum cost among feasible flows, and comes with slack potentials |
| DfsLcaSimplex.Example | src/flow/dfs_lca_network_simplex.rs:374-395 | a value returned for the repository's test network is `-2`, with the flows `[1, 0, 3, 3, 0]`, and the potentials offset by vertex 0 are `0`, some value in `[-3, -1]`, `-1`; no answer yields empty lists |
| HollowHeap.AddChildF | src/data_structure/lazy_hollow_heap.rs:48-52 | `child` becomes `parent`'s first child, its sibling the former first child; no other slot, key, value or rank changes |
| HollowHeap.LinkWinner | src/data_structure/lazy_hollow_heap.rs:54-59 | the winner of a link is one of the two nodes and has the smaller key; on equal keys `rhs` wins |
| HollowHeap.LinkF | src/data_structure/lazy_hollow_heap.rs:54-59 | the loser of the link becomes the winner's first child; keys, values and ranks are kept |
| HollowHeap.RankedLinkF | src/data_structure/lazy_hollow_heap.rs:166-180 | the ranked-link loop leaves the table of full roots non-empty and consistent, and a key bounds the new table from below exactly when it bounds the old table and `c`'s key |
| HollowHeap.StoreSlot | src/data_structure/lazy_hollow_heap.rs:170-177 | storing `c` into its empty rank slot (after `resize_with`) keeps the table consistent and adds `c`'s key to it |
| HollowHeap.TakeSlot | src/data_structure/lazy_hollow_heap.rs:173-175 | linking `c` with the root already at its rank and raising the winner's rank by one keeps the table consistent, with the smaller key carried on |
| HollowHeap.Fold | src/data_structure/lazy_hollow_heap.rs:184-189 | folding the table with `link` gives no root exactly when the table is empty, and otherwise a full root whose key is the least in the table |
| HollowHeap.ChildStep | src/data_structure/lazy_hollow_heap.rs:145-181 | one child examined: a hollow one is dropped, moved or queued as a new hollow root, a full one is ranked into the table |
| HollowHeap.Relink | src/data_structure/lazy_hollow_heap.rs:148-164 | the hollow-child cases of the scan keep keys, values, ranks and the table |
| HollowHeap.RootStep | src/data_structure/lazy_hollow_heap.rs:142-144 | starting on the next hollow root detaches its children and keeps the table |
| HollowHeap.StepTable | src/data_structure/lazy_hollow_heap.rs:145-181 | a step that meets no full node leaves the table alone, and a step that meets one, or any step on a non-empty table, leaves it non-empty |
| HollowHeap.StepBounded | src/data_structure/lazy_hollow_heap.rs:145-181 | a lower bound of the table after a step bounds the table before it and every full node the step met |
| HollowHeap.ScanItems | src/data_structure/lazy_hollow_heap.rs:140-183 | the scan keeps every node's key and value |
| HollowHeap.ScanUnfold | src/data_structure/lazy_hollow_heap.rs:142-183 | the scan with fuel is one step followed by the scan with one unit less |
| HollowHeap.MetBounded | src/data_structure/lazy_hollow_heap.rs:140-183 | a lower bound of the final table bounds every full node the scan met |
| HollowHeap.MetNone | src/data_structure/lazy_hollow_heap.rs:140-183 | a scan that meets no full node leaves the table as it was |
| HollowHeap.MetSome | src/data_structure/lazy_hollow_heap.rs:140-183 | a scan that meets a full node ends with a non-empty table |
| HollowHeap.StartScan | src/data_structure/lazy_hollow_heap.rs:140-141 | the scan starts at the old root with an empty table |
| HollowHeap.Rebuilt | src/data_structure/lazy_hollow_heap.rs:140-189 | the rebuilt arena keeps keys and values, and its root, if any, is full |
| HollowHeap.RebuiltRoot | src/data_structure/lazy_hollow_heap.rs:140-189 | the rebuilt heap is empty exactly when the scan met no full node, and otherwise its root's key is at most that of every full node met |
| HollowHeap.Hollowed | src/data_structure/lazy_hollow_heap.rs:93-102 | a decrease below a non-root node hollows it and appends a full node with the new key, rank two less (floored at 0) and `p` as its only child, which becomes `p`'s second parent |
| HollowHeap.InsertLeast | src/data_structure/lazy_hollow_heap.rs:73-77 | inserting below a least root, or into an empty heap, leaves the least key at the new root |
| HollowHeap.LowerLeast | src/data_structure/lazy_hollow_heap.rs:88-92 | lowering the key at a least root keeps it least |
| HollowHeap.DecreaseLeast | src/data_structure/lazy_hollow_heap.rs:97-105 | the new node linked with a least root leaves the least key at the winner |
| HollowHeap.TakeLeast | src/data_structure/lazy_hollow_heap.rs:132-139 | hollowing a node other than the least root keeps that root least |
| HollowHeap.LazyHollowHeap.constructor | src/data_structure/lazy_hollow_heap.rs:35-40 | an empty arena and no root |
| HollowHeap.LazyHollowHeap.NewNode | src/data_structure/lazy_hollow_heap.rs:42-46 | appends `Node::new(key, value)` and returns its index |
| HollowHeap.LazyHollowHeap.AddChild | src/data_structure/lazy_hollow_heap.rs:48-52 | the arena becomes `AddChildF`, and `parent` is returned |
| HollowHeap.LazyHollowHeap.Link | src/data_structure/lazy_hollow_heap.rs:54-59 | the arena becomes `LinkF`, and the winner is returned |
| HollowHeap.LazyHollowHeap.Meld | src/data_structure/lazy_hollow_heap.rs:61-67 | two roots are linked; if either is missing the other is returned and nothing changes |
| HollowHeap.LazyHollowHeap.IsEmpty | src/data_structure/lazy_hollow_heap.rs:69-71 | true exactly when there is no root, which under heap order means no full node |
| HollowHeap.LazyHollowHeap.Insert | src/data_structure/lazy_hollow_heap.rs:73-77 | the new node is at the end of the arena and melded with the root; heap order at the root is kept |
| HollowHeap.LazyHollowHeap.FindMin | src/data_structure/lazy_hollow_heap.rs:79-82 | the root's key and value, or `None` exactly when there is no root; under heap order, the least key of all full nodes |
| HollowHeap.LazyHollowHeap.Decrease | src/data_structure/lazy_hollow_heap.rs:84-129 | a key that is not smaller changes nothing; at the root the key (and value) is replaced in place; otherwise the node is hollowed and its replacement linked with the root; heap order is kept |
| HollowHeap.LazyHollowHeap.HollowOut | src/data_structure/lazy_hollow_heap.rs:93-102 | the arena becomes `Hollowed` and the new node's index is returned |
| HollowHeap.LazyHollowHeap.UpdateKeyBetter | src/data_structure/lazy_hollow_heap.rs:108-129 | `Decrease` keeping the old value; the returned reference names a node with the new key and the old value |
| HollowHeap.LazyHollowHeap.UpdateKeyValueBetter | src/data_structure/lazy_hollow_heap.rs:84-106 | `Decrease` with the new value; the returned reference names a node with the new key and value |
| HollowHeap.LazyHollowHeap.Delete | src/data_structure/lazy_hollow_heap.rs:131-191 | returns `p`'s key and value; below a full root only `p` is hollowed (keeping heap order), and when the root is taken the heap is rebuilt |
| HollowHeap.LazyHollowHeap.Rebuild | src/data_structure/lazy_hollow_heap.rs:140-189 | the arena and root become `Rebuilt` of the old ones |
| HollowHeap.LazyHollowHeap.ScanRoots | src/data_structure/lazy_hollow_heap.rs:140-183 | the outer scan loop leaves the arena and table of the bounded specification scan |
| HollowHeap.LazyHollowHeap.ScanRoot | src/data_structure/lazy_hollow_heap.rs:142-144 | one hollow root taken up is one specification step |
| HollowHeap.LazyHollowHeap.ScanChildren | src/data_structure/lazy_hollow_heap.rs:145-182 | the inner loop runs specification steps until the child list is exhausted or the fuel runs out |
| HollowHeap.LazyHollowHeap.ScanChild | src/data_structure/lazy_hollow_heap.rs:146-181 | one child examined is one specification step |
| HollowHeap.LazyHollowHeap.RankedLink | src/data_structure/lazy_hollow_heap.rs:166-180 | the ranked-link loop computes `RankedLinkF` |
| HollowHeap.LazyHollowHeap.FoldRoots | src/data_structure/lazy_hollow_heap.rs:184-189 | the unranked fold computes `Fold` on the arena |
| HollowHeap.InsertedArena | src/data_structure/lazy_hollow_heap.rs:199-201 | after inserting 10 and 11 of the repository's test, node 1 hangs below the root 0 |
| HollowHeap.LoweredArena | src/data_structure/lazy_hollow_heap.rs:202 | lowering node 1 to 9 makes a new root 2 with the hollow node below it |
| HollowHeap.FirstRebuild | src/data_structure/lazy_hollow_heap.rs:204-205 | deleting node 2 rebuilds the heap with node 0 (key 10) at the root |
| HollowHeap.SecondRebuild | src/data_structure/lazy_hollow_heap.rs:206-207 | deleting node 0 then leaves the heap empty |
| SplayCore.ReversibleLawful | src/data_structure/splay_tree.rs:466-489 | `Reversible<O>` satisfies the monoid laws and the reversal law whenever `O` is a monoid |
| SplayCore.Reversed | src/data_structure/splay_tree.rs:297-302 | the sequence read backwards |
| SplayCore.ReversedAppend | src/data_structure/splay_tree.rs:69-78 | reversing a concatenation reverses the parts and swaps them |
| SplayCore.ReversedTwice | src/data_structure/splay_tree.rs:297-302 | reversing twice gives back the sequence |
| SplayCore.ProdAppend | src/data_structure/splay_tree.rs:80-96 | the product of a concatenation is the product of the products |
| SplayCore.ProdReversed | src/data_structure/splay_tree.rs:69-78 | under the reversal law, `reverse` of a product is the product of the reversed sequence |
| SplayCore.ReversibleProd | src/data_structure/splay_tree.rs:466-489 | the accumulated pair of `Reversible<O>` is the product of the sequence and the product of its reverse |
| SplayCore.SizeSeq | src/data_structure/splay_tree.rs:80-96 | in a valid tree the stored `len` is the length of the represented sequence |
| SplayCore.CreateSpec | src/data_structure/splay_tree.rs:46-58 | `Node::create` is a valid tree representing its single item |
| SplayCore.Push | src/data_structure/splay_tree.rs:69-78 | pushing leaves an empty tree empty and a node a node |
| SplayCore.ToggleSpec | src/data_structure/splay_tree.rs:73 | flipping a node's `rev` flag represents the reversed sequence |
| SplayCore.PushSpec | src/data_structure/splay_tree.rs:69-78 | `push` clears the flag and keeps the represented sequence, the node's item and its position |
| SplayCore.PosItem | src/data_structure/splay_tree.rs:80-96 | a node's own item sits in its sequence right after its left part |
| SplayCore.CleanAcc | src/data_structure/splay_tree.rs:80-96 | a valid tree's `acc` is the product of its sequence |
| SplayCore.PullSpec | src/data_structure/splay_tree.rs:80-96 | `pull` over two valid children gives a valid node representing left, item, right |
| SplayCore.RotRSpec | src/data_structure/splay_tree.rs:123-146 | `rotate_right` keeps the sequence and validity and raises the left child |
| SplayCore.RotLSpec | src/data_structure/splay_tree.rs:98-121 | `rotate_left` keeps the sequence and validity and raises the right child |
| SplayCore.Attach | src/data_structure/splay_tree.rs:34-43 | a subtree put back below its parent frame is a node |
| SplayCore.PlugSeq | src/data_structure/splay_tree.rs:34-43 | a tree plugged into its path represents the items before the path, the tree's own, then those after it |
| SplayCore.PlugSame | src/data_structure/splay_tree.rs:98-146 | replacing the focus by a valid tree with the same sequence changes neither validity nor sequence of the whole |
| SplayCore.PlugSnoc | src/data_structure/splay_tree.rs:34-43 | one more frame on the path adds its item and other subtree before or after the focus |
| SplayCore.ZigZigLeft | src/data_structure/splay_tree.rs:168-171 | two right rotations, parent first, raise a left-left grandchild to the top with the same sequence |
| SplayCore.ZigZigRight | src/data_structure/splay_tree.rs:172-175 | two left rotations, parent first, raise a right-right grandchild |
| SplayCore.ZigZagLeft | src/data_structure/splay_tree.rs:176-179 | left then right rotation of the node raises a left-right grandchild |
| SplayCore.ZigZagRight | src/data_structure/splay_tree.rs:180-183 | right then left rotation of the node raises a right-left grandchild |
| SplayCore.Rotate2Spec | src/data_structure/splay_tree.rs:164-184 | a double step brings the node two levels up, keeping the sequence and its position |
| SplayCore.SplayStep | src/data_structure/splay_tree.rs:164-184 | a double step on the zipper keeps the whole tree's sequence and shortens the path by two |
| SplayCore.Rotate1Spec | src/data_structure/splay_tree.rs:155-162 | the single step below the root raises the node to the root, keeping the sequence |
| SplayCore.SplayLast | src/data_structure/splay_tree.rs:149-163 | the last step (none, or one rotation below the root, after pushes) yields the root |
| SplayCore.Splay | src/data_structure/splay_tree.rs:148-186 | `splay` makes the node the pushed root of a valid tree with the same sequence, and it sits where it was in that sequence |
| SplayTree.RightmostPath | src/data_structure/splay_tree.rs:195-200 | the corrected descent to the last item (pushing each node before reading its right child), whose position is `len - 1` |
| SplayTree.LeftmostPath | src/data_structure/splay_tree.rs:188-193 | the corrected descent to the first item (pushing each node before reading its left child), at position 0 |
| SplayTree.Join | src/data_structure/splay_tree.rs:202-210 | `join` gives a valid non-empty tree representing the left sequence followed by the right |
| SplayTree.CutLeftSpec | src/data_structure/splay_tree.rs:224-233 | cutting the left child gives the left part and the node with the rest |
| SplayTree.CutRightSpec | src/data_structure/splay_tree.rs:236-245 | cutting the right child gives the node with everything left of it, and the right part |
| SplayTree.Singleton | src/data_structure/splay_tree.rs:269-271 | `singleton_tree` represents its single item |
| SplayTree.IsEmpty | src/data_structure/splay_tree.rs:313-315 | a handle is empty exactly when its sequence is empty |
| SplayTree.Concat | src/data_structure/splay_tree.rs:285-291 | `concat` represents the first sequence followed by the second; an empty side returns the other |
| SplayTree.Reverse | src/data_structure/splay_tree.rs:297-302 | `reverse` represents the reversed sequence |
| SplayTree.Len | src/data_structure/splay_tree.rs:306-311 | `len` is the length of the sequence |
| SplayTree.AllProduct | src/data_structure/splay_tree.rs:369-374 | `None` for the empty handle, and otherwise the product of the sequence |
| SplayTree.Leftmost | src/data_structure/splay_tree.rs:351-358 | the first item, or `None` for the empty handle; the sequence is kept |
| SplayTree.Rightmost | src/data_structure/splay_tree.rs:360-367 | the last item, or `None` for the empty handle; the sequence is kept |
| SplayTree.KthPath | src/data_structure/splay_tree.rs:329-345 | the corrected descent of `split_by_size`, pushing each node, stops at the `k`-th item |
| SplayTree.SplitBySize | src/data_structure/splay_tree.rs:317-349 | for `k <= len`, the first `k` items and the rest |
| SplayTree.PartitionPath | src/data_structure/splay_tree.rs:414-433 | the corrected descent of `partition_with_key`, pushing each node; on a predicate that holds on a prefix it stops at the boundary of that prefix |
| SplayTree.SplitAt | src/data_structure/splay_tree.rs:415-427 | the predicate's value at the reached item narrows the undecided range to one side of it |
| SplayTree.PartitionWithKey | src/data_structure/splay_tree.rs:409-434 | the two parts always make up the sequence; on a prefix-closed predicate they are the items where it holds and those where it fails |
| SplayTree.MeldPivot | src/data_structure/splay_tree.rs:443-452 | the tree with the smaller first key becomes `a` and the other's first key the pivot (the left one on a tie) |
| SplayTree.MeldOrder | src/data_structure/splay_tree.rs:453-459 | the items of `a` up to the pivot followed by the meld of the rest are sorted and hold all items |
| SplayTree.Meld | src/data_structure/splay_tree.rs:436-460 | melding two key-sorted trees gives a sorted tree holding exactly the items of both, as multisets |
| SplayTree.RightmostAsWritten | src/data_structure/splay_tree.rs:195-200 | the node reached along stored right links has no right child |
| SplayTree.KthAsWritten | src/data_structure/splay_tree.rs:331-345 | the node the `split_by_size` loop reaches on stored links, when it reaches one |
| SplayTree.RightmostAsWrittenMisses | src/data_structure/splay_tree.rs:195-200 | on a valid tree with pending reversals the stored right links end at key 2 while the last item has key 1 |
| SplayTree.KthAsWrittenMisses | src/data_structure/splay_tree.rs:331-345 | on the same tree the loop looking for the third item (key 2) stops at key 1 |
| SplayTree.LeftmostAsWritten | src/data_structure/splay_tree.rs:188-193 | the node reached along stored left links has no left child |
| SplayTree.PartitionAsWritten | src/data_structure/splay_tree.rs:414-433 | the loop on stored links stops at a node with no right child where the predicate holds, and with no left child where it fails |
| SplayTree.Turned3Spec | src/data_structure/splay_tree.rs:285-302 | `concat(1, concat(2, 3))` reversed is valid, and `splay`'s push of its root gives a valid tree of the sequence 3, 2, 1 |
| SplayTree.LeftmostAsWrittenMisses | src/data_structure/splay_tree.rs:351-356 | on that tree the stored left links end at key 2 while the first item has key 3 |
| SplayTree.PartitionAsWrittenMisses | src/data_structure/splay_tree.rs:414-433 | on that tree, with a predicate that always fails, the loop stops at the second item (key 2), so the cut leaves the first item (key 3) on the side where the predicate is meant to hold |
| SplayTree.MeldNonEmpty | src/data_structure/splay_tree.rs:436-460 | melding two sorted trees one of which is non-empty keeps the order and every item of both |
| SplayTree.MeldPartition | src/data_structure/splay_tree.rs:453-459 | with `a`'s first key at most `pivot`, `b`'s first key: partitioning `a` at `pivot`, melding `b` with the part above it and joining gives a sorted tree of all items of `a` and `b`, as multisets |
| SplayTree.MeldRest | src/data_structure/splay_tree.rs:454-459 | the part of `a` at or below `pivot`, joined before the meld of `b` with the part above, is a sorted tree holding exactly the items of the three |
| HashElems.FindAt | src/data_structures/hash_lsm_tree.rs:109-114 | a linear scan finds the value of the first entry with the key, wherever that entry is |
| HashElems.FindNone | src/data_structures/hash_lsm_tree.rs:124-128 | a scan finds nothing when no entry has the key |
| HashElems.FindNoneAll | src/data_structures/hash_lsm_tree.rs:124-128 | conversely, a scan that finds nothing means that no entry has the key |
| HashElems.FindSameAway | src/data_structures/hash_lsm_tree.rs:109-112 | overwriting the value of one entry leaves the lookups of every other key unchanged |
| HashElems.FindSnoc | src/data_structures/hash_lsm_tree.rs:115-119 | appending an entry with another key leaves the lookups of a key unchanged |
| HashElems.FindAppend | src/data_structure/hash_radix_tree.rs:97 | after an appended entry, earlier entries still win; the new entry answers only for its own key |
| HashLsm.Next | src/data_structures/hash_lsm_tree.rs:47-63 | the merging iterator yields the smaller head of the older and newer runs, the newer one on a tie in `(hash, key)` while dropping the older, and stops only when both runs are used up |
| HashLsm.MergeFrom | src/data_structures/hash_lsm_tree.rs:81-84 | every merged entry comes from one of the two levels |
| HashLsm.MergeHashed | src/data_structures/hash_lsm_tree.rs:81-84 | merging keeps every stored hash equal to the hasher's value on its key |
| HashLsm.MergeAbove | src/data_structures/hash_lsm_tree.rs:81-84 | an entry that sorts below both levels sorts below their merge |
| HashLsm.MergeSorted | src/data_structures/hash_lsm_tree.rs:81-84 | the merge of two sorted levels is strictly sorted by `(hash, key)` |
| HashLsm.MergeLength | src/data_structures/hash_lsm_tree.rs:81-84 | the merge is at least as long as either level |
| HashLsm.BelowHead | src/data_structures/hash_lsm_tree.rs:141-142 | a key that sorts below the head of a sorted, hashed level has no entry in it |
| HashLsm.MergeFind | src/data_structures/hash_lsm_tree.rs:81-84 | a lookup in the merge finds the newer level's entry for the key if it has one, the older level's otherwise |
| HashLsm.MergeLevel | src/data_structures/hash_lsm_tree.rs:81-84 | merging two levels is a level that maps each key as the newer level does, falling back to the older |
| HashLsm.InsertAbove | src/data_structures/hash_lsm_tree.rs:91 | an entry sorting below `e` and below `s` sorts below `s` with `e` put in |
| HashLsm.InsertSorts | src/data_structures/hash_lsm_tree.rs:91 | putting an entry of a new key into a sorted level keeps it sorted |
| HashLsm.InsertHashed | src/data_structures/hash_lsm_tree.rs:91 | putting a hashed entry into a hashed level keeps it hashed |
| HashLsm.InsertFind | src/data_structures/hash_lsm_tree.rs:91 | after putting `e` into `s`, the key of `e` maps to its value and every other key as in `s` |
| HashLsm.InsertPerm | src/data_structures/hash_lsm_tree.rs:91 | putting `e` into `s` adds exactly `e` to its entries, as multisets |
| HashLsm.SortElemsPerm | src/data_structures/hash_lsm_tree.rs:91 | sorting the buffer only reorders it: same entries, as multisets |
| HashLsm.SortElemsSpec | src/data_structures/hash_lsm_tree.rs:91 | the sorted buffer is a sorted, hashed level that maps every key as the buffer does |
| HashLsm.ScanLevel | src/data_structures/hash_lsm_tree.rs:139-158 | the forward and backward scans from any start index of a sorted level find its entry for the key, or nothing when it has none |
| HashLsm.HashApart | src/data_structures/hash_lsm_tree.rs:141-153 | along a sorted level, an entry at or after one of larger hash, or at or before one of smaller hash, has another key |
| HashLsm.KeyFound | src/data_structures/hash_lsm_tree.rs:144-145 | an entry with the key anywhere in a sorted level is the one a lookup of the key finds |
| HashLsm.StartIndex | src/data_structures/hash_lsm_tree.rs:130-138 | the interpolated start index of a non-empty level is always in range |
| HashLsm.MergeDown | src/data_structures/hash_lsm_tree.rs:92-99 | the pop/merge/push loop of `fix` turns a sorted buffer and a valid stack of levels into a valid stack that maps each key as the buffer does, falling back to the old stack |
| HashLsm.PushLevel | src/data_structures/hash_lsm_tree.rs:99 | pushing a level shorter than the top keeps the stack valid, and the new level is searched first |
| HashLsm.HashLsmTree.constructor | src/data_structures/hash_lsm_tree.rs:73-79 | a fresh tree is valid and maps no key |
| HashLsm.HashLsmTree.Fix | src/data_structures/hash_lsm_tree.rs:86-100 | `fix` leaves a short buffer alone; a full one becomes the new top level, merged with every level on top not longer than it; the tree is valid afterwards, with level lengths strictly shrinking upwards, and maps every key as before |
| HashLsm.HashLsmTree.Insert | src/data_structures/hash_lsm_tree.rs:108-121 | after `insert` the tree maps `key` to `value` and every other key as before; a key already in the buffer is overwritten in place without touching the levels |
| HashLsm.HashLsmTree.Get | src/data_structures/hash_lsm_tree.rs:123-161 | `get` returns what the tree maps the key to: the buffer's entry, else that of the newest level holding the key |
| HashLsm.TestInsertGet | src/data_structures/hash_lsm_tree.rs:168-179 | inserting 10..999 and then `0 -> 10`: key 0 maps to 10 and key 1 to nothing until `1 -> 11` is inserted |
| HashRadix.Shift | src/data_structure/hash_radix_tree.rs:66 | shifting right by `pos * E` bits divides by a positive number |
| HashRadix.Digit | src/data_structure/hash_radix_tree.rs:66 | a digit `(hash >> (pos * E)) & MASK` selects one of the `B` children |
| HashRadix.ShiftStep | src/data_structure/hash_radix_tree.rs:104 | `shifted >>= E` after `pos` shifts leaves `hash` shifted by `pos + 1` digits |
| HashRadix.Path | src/data_structure/hash_radix_tree.rs:84-105 | the path of a hash to depth `d` is its first `d` digits |
| HashRadix.Leaf | src/data_structure/hash_radix_tree.rs:84-105 | the leaf the walk reaches lies at least as deep as where it started |
| HashRadix.SamePathSelf | src/data_structure/hash_radix_tree.rs:84-105 | the walk of a hash reaches its own leaf |
| HashRadix.SamePathLookup | src/data_structure/hash_radix_tree.rs:109-131 | a key whose path meets the leaf of `hash` is looked up in that leaf's buffer |
| HashRadix.ReplaceLookup | src/data_structure/hash_radix_tree.rs:99 | replacing the leaf of `hash` changes the lookups only of keys whose path meets that leaf, which are now answered by the new leaf |
| HashRadix.ReplaceKeeps | src/data_structure/hash_radix_tree.rs:99 | a new leaf that keeps the tree's invariants at its place keeps them for the whole tree |
| HashRadix.Bucket | src/data_structure/hash_radix_tree.rs:64-68 | a bucket is no longer than the buffer it is taken from |
| HashRadix.BucketFrom | src/data_structure/hash_radix_tree.rs:64-68 | bucket `i` holds only entries of the buffer whose digit at `pos` is `i` |
| HashRadix.BucketFind | src/data_structure/hash_radix_tree.rs:64-68 | a key is found in the bucket of its own digit exactly as in the whole buffer |
| HashRadix.BuildLookup | src/data_structure/hash_radix_tree.rs:59-78 | `build_inner` makes a tree with `B` children per inner node that answers every key as the buffer did |
| HashRadix.BuildKeeps | src/data_structure/hash_radix_tree.rs:59-78 | the split keeps every entry under the digits of its hash, the hashes right, inner nodes only where digits are left and leaves there no longer than `BUF_LEN` |
| HashRadix.BuildInner | src/data_structure/hash_radix_tree.rs:59-78 | `build_inner` computes the split `Build` |
| HashRadix.FillBuckets | src/data_structure/hash_radix_tree.rs:64-68 | the first loop of `build_inner` puts into each of the `B` buckets exactly the buffer's entries with that digit, in order |
| HashRadix.HashRadixTree.constructor | src/data_structure/hash_radix_tree.rs:46-51 | a fresh tree is valid and maps no key |
| HashRadix.HashRadixTree.Insert | src/data_structure/hash_radix_tree.rs:80-107 | `insert` returns the key's old value and afterwards the tree is valid and maps `key` to `value` and every other key as before |
| HashRadix.HashRadixTree.Get | src/data_structure/hash_radix_tree.rs:109-131 | `get` returns what the tree maps the key to |
| HashRadix.Walk | src/data_structure/hash_radix_tree.rs:84-105 | the walk from the root ends at the leaf the digits of the hash spell, and at its depth |
| HashRadix.PutInLeaf | src/data_structure/hash_radix_tree.rs:90-101 | at the leaf, an existing key has its value replaced and returned; otherwise the entry is pushed and the leaf split once longer than `BUF_LEN`; the new leaf answers `key` with `value` and every other key as before, and keeps the invariants at its place |
| HashRadix.BuildAll | src/data_structure/hash_radix_tree.rs:98-100 | a split buffer keeps the tree's invariants and answers every key as the buffer did |
| HashRadix.LeafKeeps | src/data_structure/hash_radix_tree.rs:84-105 | the leaf the walk reaches holds hashed entries under its own path, at most `BUF_LEN` of them where digits are left |
| HashRadix.ReplaceLeaf | src/data_structure/hash_radix_tree.rs:99 | replacing the reached leaf by one that answers `key` with `value` keeps the invariants and changes the map at `key` only |
| HashRadix.TestInsertGet | src/data_structure/hash_radix_tree.rs:138-149 | inserting 10..999 and then `0 -> 10`: key 0 maps to 10 and key 1 to nothing until `1 -> 11` is inserted |
| SplayTree.MeldSplit | src/data_structure/splay_tree.rs:453-454 | partitioning a sorted tree whose first key is at most the pivot leaves a non-empty lower part and a strictly shorter upper part, both sorted: the recursive meld is on fewer items |

## Left out

- Formatting: the `Debug` impls and `visit` of src/data_structure/splay_tree.rs:376-400 and the `Display`/`Debug` impls of src/util/modint.rs:37-47 only produce text and are not modelled.
- `ac_library::Monoid` (src/data_structure/splay_tree.rs:491-507): calls into another crate, not part of this model.
- Machine integers: flows, costs, balances, potentials and modular values are unbounded `int`. Only `FlowNum` states the range of a signed width, where `abs` of the minimum value leaves it. Dinic's exhausted-cursor value `!0` is the constant `UsizeMax`.
- `NetworkSimplexCore.NetworkSimplex.PrepareData`: the block size `(edges.len() as f64).sqrt() as usize + 10` comes from floating point, so the square root is the parameter `sqrtLen`. Every result about `select_edge` holds for any block size from 1 up to the edge count.
- `HashLsm.StartIndex`: `get`'s start index is computed in exact arithmetic, not in `f64`, so rounding can pick a different index. `HashLsm.ScanLevel` is proved for every start index, so the answer of `get` does not depend on this.
- Hashers: `BuildHasher`/`Hasher` are a function `hasher: int -> U64` fixed when a table is built. `new` with `RandomState` is the constructor given an unknown function.
- Key types: the hash tables, the heap and the splay tree are generic over ordered or hashable keys, and the model uses `int` keys. The code only compares keys or tests them for equality.
- `HashSet` iteration order: the `tree_edges` sets are Dafny sets. `update_tree` and the pivot visit their elements in an order the model does not fix, so every contract holds for any order.
- `sort_unstable_by` in `fix` is modelled as an insertion sort (`HashLsm.SortElems`). It is proved a permutation that is strictly sorted by `(hash, key)`, and for a buffer with distinct keys there is only one such arrangement.
- Termination of the simplex `run` loops (`NetworkSimplexCore.NetworkSimplex.Run`, `DfsLcaSimplex.Run`), of Dinic's phase loop (`Dinic.Dinic.MaxFlow`, `Dinic.Dinic.Augment`) and of the heap rebuild is not proved. The simplex loops and Dinic's run under a fuel bound. The simplex loops report when the fuel ran out with an `OutOfFuel` outcome. Dinic's `complete` flag is true only when the phases ended because `t` became unreachable. It is false both when the fuel ran out and when `augment` stopped because `flow` reached `limit`, so a false flag does not say which.
- `HollowHeap.LazyHollowHeap.Delete`, `HollowHeap.LazyHollowHeap.Rebuild`: the rebuild scans for at most `ScanBound`, `3n + 1` steps for `n` nodes, and returns nothing that says whether it stopped early. That this bound suffices is not proved; the contracts describe `Rebuilt` at that bound, which is the true rebuild only when the scan finishes within it.
- `HollowHeap.LazyHollowHeap.Delete`: which nodes are reachable from the root is not tracked. So after a rebuild, "the minimum key is at the root" and "the heap is empty exactly when no full node is left" are proved (`HollowHeap.RebuiltRoot`, `HollowHeap.MetBounded`) only over the nodes the scan met, not over every full node of the arena.
- `HollowHeap.LazyHollowHeap.Delete`, `HollowHeap.LazyHollowHeap.UpdateKeyBetter`, `HollowHeap.LazyHollowHeap.UpdateKeyValueBetter`: the `expect` panics on a deleted node or an empty heap become preconditions.
- `Dinic.Dinic.AddEdge`: requires a non-negative capacity, which `add_edge` (src/flow/dinic.rs:32-51) does not check. With a negative capacity the forward half would start with flow 0 above its bound, and the invariant every later contract rests on would fail.
- `Dinic.Dinic.Augment`, `Dinic.Dinic.MaxFlow`: the `assert_ne!(s, t)` panic becomes the precondition `s != t`.
- `Dinic.Dinic.Augment`: requires `limit >= 0`, which `augment` (src/flow/dinic.rs:129-140) does not check. With a negative limit, `primal_dfs` pushes `min(limit, flow) = limit` backwards along the path. That moves stored flows outside `[0, upper]` and returns a negative amount, which breaks the invariant every later contract rests on. `max_flow` runs the same loop with the non-negative `inf` as its limit, so it never meets this case.
- `NetworkSimplexCore.NetworkSimplex.AddEdge`: the `assert!(lower <= upper)` panic (src/flow/network_simplex.rs:88-93) is modelled as a `None` result that leaves the network unchanged, and a valid edge returns `Some(id)`. The source returns a plain `EdgeId` and panics instead.
- `SplayTree.SplitBySize`: the `assert!(k <= len)` panic becomes the precondition `k <= |Seq(t)|`.
- `NetworkSimplexCore.Example`, `DfsLcaSimplex.Example`, `NetworkSimplexCore.NetworkSimplex.Run`, `DfsLcaSimplex.Run`: the test's `assert!(ret.is_some())` (src/flow/network_simplex.rs:366, src/flow/dfs_lca_network_simplex.rs:386) is not proved. The Example contracts state what an answer is if there is one, and a run ending in `None` meets them too. Behind this, `Run` proves that `None` comes exactly when an artificial edge still carries flow, but not that the artificial cost `infinity` is large enough. So a feasible network is not proved to give `Some`, and a `None` answer is not proved to mean the network is infeasible.
- `NetworkSimplexCore.Example`, `DfsLcaSimplex.Example`: the test's expected potentials `[0, -1, -1]` are proved only up to vertex 1, whose offset potential is bounded to `[-3, -1]`. Any potentials meeting the optimality conditions of the test network satisfy those bounds, and picking `-1` depends on the order of the pivots, which the model does not evaluate.
- `HollowHeap.LazyHollowHeap.Decrease` is the part the two update operations share: their code differs only in whether the value is replaced.
- `DfsLcaSimplex.FileEdge`: the bucket an edge pair is filed into is proved to exist and to lie in range, not to be the depth of the two ends' lowest common ancestor. The bucket index is computed as the source computes it; only that meaning of it is not proved.
- Splay tree arena: the `RefCell` nodes with parent pointers are modelled as values. A tree is a `Tree` datatype and a parent chain is a zipper (`Frame` path). So aliasing between handles and in-place mutation of shared nodes are not modelled.
- `SplayTree.Concat`: `append` (src/data_structure/splay_tree.rs:293-295) calls `concat(self, other)` and drops the result; a `&self` handle is not rebound. When `self` is non-empty its node is relinked into the joined tree, so `self` afterwards names `Concat(self, other)`, and the model reads `append` as `Concat`. When `self` is empty it stays empty, whereas `Concat(Nil, other)` is `other`; this empty-left case of `append` is not modelled.
- `Trees::new`, `empty_tree`, `empty_sequence` and `singleton_sequence` (src/data_structure/splay_tree.rs:261-279) only build an arena or return `Nil`/`Singleton`, so they have no members of their own.
- `SplayTree.Meld`: its contract, like the other splay results about reversal, needs `Lawful`: `reverse` must turn a product into the product of the reversed sequence. The default `reverse` meets this only for a commutative operation, and `Reversible` does for every monoid. Meld's inputs are also required to be sorted by key, which is what the source relies on.
- `SimplexOptimal.GetFlow`, `SimplexOptimal.GetPotential`: the read-outs `Ret::get_flow` and `Ret::get_potential` are plain accessors with no contract.
- `HollowHeap.SourceTest`, `SplayTree.TestAppendLen`: the source's tests are replayed with assertions inside the body and have no `ensures`.
- Split helpers: several members are pieces of one Rust function's inline code, each cut out so that its proof stays small. Examples are Dinic's `ScanEdge`/`PushAlong`/`Bfs`, the radix tree's `Walk`/`PutInLeaf`/`FillBuckets`, and the simplex `pivot` split into `FindApex`, `PushCycle`, `SwapTreeEdges`, `Rechain` and friends. They compute what the inline code does, except the splay descents `RightmostPath`, `LeftmostPath`, `KthPath` and `PartitionPath`, which push each node where the source does not (see Findings).

## Findings

| source | as written | input that shows it | evidently intended | confidence | as-written member | corrected member |
|---|---|---|---|---|---|---|
| src/util/modint.rs:84-86 | `one()` stores the raw value 1 whatever the modulus | modulus 1: `one()` holds 1, which lies outside `[0, 1)`, so `one() != from(1)`; the empty `product()` at modulus 1, folded from `one()`, likewise holds 1 | the unit reduced modulo `m` (0 when `m == 1`) | not executed | ModInt.OneAsWrittenNotNormal | ModInt.One |
| src/data_structure/splay_tree.rs:195-200 | `Node::rightmost` follows the stored right links without pushing pending reversals | singletons 1, 2, 3, 4 concatenated, the result reversed, then its root pushed by the next `concat`: the stored right links end at key 2, but the last item has key 1 | push each node before descending, so the walk ends at the last item | not executed | SplayTree.RightmostAsWrittenMisses | SplayTree.RightmostPath |
| src/data_structure/splay_tree.rs:331-345 | the descent of `split_by_size` reads the stored children without pushing | the same tree, looking up the third item (key 2): the loop stops at key 1 | push each node before reading its children, so the loop stops at the `k`-th item | not executed | SplayTree.KthAsWrittenMisses | SplayTree.KthPath |
| src/data_structure/splay_tree.rs:188-193 | `Node::leftmost` follows the stored left links without pushing pending reversals | singletons 1, 2, 3 joined as `concat(1, concat(2, 3))`, reversed, then `leftmost`: after `splay` pushes the root, the stored left links end at key 2, but the first item has key 3 | push each node before descending, so the walk ends at the first item | not executed | SplayTree.LeftmostAsWrittenMisses | SplayTree.LeftmostPath |
| src/data_structure/splay_tree.rs:414-433 | the loop of `partition_with_key` reads the stored children without pushing | the same tree with a predicate that fails on every key: the loop stops at key 2, the second item, and cutting its left child puts key 3 in the part where the predicate should hold | push each node before reading its children, so the loop stops at the boundary of the prefix where the predicate holds | not executed | SplayTree.PartitionAsWrittenMisses | SplayTree.PartitionPath |
