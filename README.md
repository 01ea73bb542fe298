# Initial node order of a layered layout, in Dafny

This project models `initOrder(g)` from `lib/order/init-order.js`, the step of
dagre's layered ("Sugiyama-style") layout that gives every node its first
position inside its rank, and proves properties of that model. The step has two
parts.

1. **Rank-DFS layering** (lines 19-43).
   - The simple nodes are the nodes without children.
   - It allocates one empty layer per rank `0..maxRank`.
   - It takes the simple nodes stably sorted by rank. From each one it runs a
     depth-first search over `successors`.
   - A node is appended to the layer of its rank the first time it is visited.
2. **Alternating-layer aligner** (lines 45-82). With fewer than two layers the DFS
   layering is returned as it is. Otherwise:
   - Even layers (entity nodes) are stably sorted by `order`.
   - Each odd layer (process nodes that stand for an edge, `edgeObj`) is rebuilt
     against a sorted neighbouring layer. First come the processes whose edge
     ends at a node of that layer, grouped by node in the layer's order. Then
     come the other processes.
   - Past the middle layer, the neighbour is the next layer and the edge's target
     `w` is matched. Elsewhere it is the previous layer and the source `v`.

Modules, one per file:

- `Collections` (`collections.dfy`): `Option`, `Result`, and `Filter` with its
  lemmas.
- `StableSort` (`stable_sort.dfy`): lodash's `_.sortBy` as a stable insertion sort
  `SortBy`. It is proved sorted, a permutation, stable, and the only sequence
  with these three properties.
- `Graphs` (`graphs.dfy`): the graph as a value.
  - Its node list is a sequence field. The queries `children`, `successors` and
    `node` are function fields.
  - A label has `rank`, `order` and an optional `edgeObj`.
  - The module also holds the simple-node filter and the layer count.
- `RankDfs` (`rank_dfs.dfy`):
  - The reference traversal `Visit`/`VisitAll`, a value-level pre-order DFS.
  - The class `Traversal`, which holds the state the source mutates: the
    `visited` set and the `layers` array. Its methods `Dfs`, `Each` and `Mark`
    are the recursive `dfs`, `_.each(…, dfs)` and the marking step. They are
    proved to follow the reference traversal.
  - `DfsLayering`, the layering the traversal leaves.
- `Aligner` (`aligner.dfy`): the aligner as functions.
  - `SortProcesses` is the `forEach`/`push` loop.
  - `Reorder` is an independent statement of each odd layer's result, proved
    equal to the code's.
- `InitOrder` (`init_order.dfy`): the method `InitOrder`. It runs the traversal,
  then the `map` over the layers, and is proved to return
  `Aligned(g, DfsLayering(g))`. Theorems about that result sit beside it.

On well-formed input (see `Graphs.WellFormed` under "Left out") the aligner can
throw in two ways. Both are modelled as error results (`AlignError`) rather than
excluded:

- `MissingLayer`: with an even layer count of at least 4, the last layer is odd
  and past the middle. It then reads `nodeSortedLayers[index + 1]` beyond the end
  and throws a TypeError. `AlignedErrors` and `InitOrderThrows` state exactly when
  this happens, provided every process carries an `edgeObj`. Without that
  assumption, an earlier `MissingEdgeObj` can be thrown first.
- `MissingEdgeObj`: a process without `edgeObj` is compared with a reference node
  and throws. This only happens when the reference layer is non-empty, as in the
  code.

A process whose `edgeObj` points at a node outside the reference layer is kept
among the unmatched processes.

## Model

| member | source | states |
|---|---|---|
| `Graphs.SimpleNodes` | lib/order/init-order.js:20-22 | the kept nodes are exactly the nodes without children |
| `Graphs.MaxRank` | lib/order/init-order.js:23-27 | the result is at least every node's rank and is the rank of one of them |
| `Graphs.LayerCount` | lib/order/init-order.js:23-30 | the number of layers is zero exactly when there is no simple node; every simple node's rank indexes a layer; the last layer is some simple node's rank |
| `StableSort.SortBy` | lib/order/init-order.js:40-42 | `_.sortBy` by an integer key gives a sequence ordered by key that is a permutation of the input |
| `StableSort.SortByStable` | lib/order/init-order.js:40-42 | elements with equal keys keep their input order |
| `StableSort.SortByDistinct` | lib/order/init-order.js:50 | sorting a sequence without repetitions yields one without repetitions |
| `StableSort.SortedStableUnique` | lib/order/init-order.js:50 | two sequences ordered by key that agree key by key on element order are equal, so sorted + stable determine `_.sortBy` |
| `StableSort.SortByCharacterized` | lib/order/init-order.js:50 | any sequence ordered by key that agrees key by key with s is `SortBy(s)` |
| `RankDfs.StartOrder` | lib/order/init-order.js:40-42 | the DFS start order holds exactly the simple nodes, ascending by rank, ties in graph enumeration order |
| `RankDfs.Visit` | lib/order/init-order.js:32-38 | definition: the nodes `dfs(v)` appends, in order: nothing if v is visited, else v followed by `VisitAll` over its successors with v marked |
| `RankDfs.VisitAll` | lib/order/init-order.js:37 | definition: the nodes `_.each(ss, dfs)` appends, each `dfs` starting from the nodes visited so far |
| `RankDfs.Pushed` | lib/order/init-order.js:28-36 | definition: the layers after pushing the nodes of a trace in order onto the layer of their rank, starting from `LayerCount` empty layers; it always has `LayerCount` layers |
| `RankDfs.VisitSound` | lib/order/init-order.js:32-38 | `dfs(v)` appends only simple nodes not yet visited, none twice; it appends nothing exactly when v was visited, and otherwise appends v first (pre-order) |
| `RankDfs.VisitAllSound` | lib/order/init-order.js:37 | `_.each(ss, dfs)` appends only unvisited simple nodes, none twice, and leaves every node of ss visited |
| `RankDfs.VisitClosed` | lib/order/init-order.js:32-38 | every successor of a node `dfs(v)` appends was either visited before the call or is appended by it; completeness from an empty `visited` is `Trace` |
| `RankDfs.VisitAllClosed` | lib/order/init-order.js:37 | the same closure for `_.each(ss, dfs)` |
| `RankDfs.Trace` | lib/order/init-order.js:43 | the whole traversal visits every simple node exactly once |
| `RankDfs.PushedInRank` | lib/order/init-order.js:36 | pushing visited nodes onto `layers[rank]` leaves in layer i exactly the visited nodes of rank i, in visiting order |
| `RankDfs.DfsLayering` | lib/order/init-order.js:19-43 | one layer per rank; layer i holds exactly the simple nodes of rank i, each once |
| `RankDfs.Traversal.constructor` | lib/order/init-order.js:19-30 | `visited` starts empty and `layers` holds one empty layer per rank |
| `RankDfs.Traversal.Mark` | lib/order/init-order.js:34-36 | marks v visited and appends it to the layer of its rank, keeping the layers equal to the visited nodes pushed in order |
| `RankDfs.Traversal.Dfs` | lib/order/init-order.js:32-38 | the recursive `dfs(v)` appends exactly the nodes of the reference traversal `Visit`, keeping the layer invariant |
| `RankDfs.Traversal.Each` | lib/order/init-order.js:37 | `_.each(ss, dfs)` appends exactly the nodes of `VisitAll` |
| `Collections.Filter` | lib/order/init-order.js:20-22 | `_.filter` and `Array.prototype.filter`: the elements satisfying the predicate, in order; exactly those are members of the result, and it is no longer than the input |
| `Aligner.Claimed` | lib/order/init-order.js:60-62 | `layer.filter(p => edgeObj.w === id)` (or `.v` at lines 68-70) without the crash: exactly the processes of the layer whose edge ends at id on that side |
| `Aligner.Matched` | lib/order/init-order.js:56-73 | definition: `sortedProcesses` after the `forEach`, the claims of the reference nodes concatenated in reference order; its properties are `MatchedMembers`, `MatchedDistinct` and `MatchedIsStableSort` |
| `Aligner.AlignLayer` | lib/order/init-order.js:55-77 | definition: one odd layer rebuilt as `sortedProcesses` followed by `otherProcesses`; it returns when the reference layer is empty, and any error names a process of the layer without an `edgeObj` |
| `Aligner.NodeSorted` | lib/order/init-order.js:48-53 | definition: `nodeSortedLayers`, the even layers sorted by `order` and the odd ones unchanged; its contract keeps the layer count, and `AlignedEvenLayer` states the sorting |
| `Aligner.AlignAt` | lib/order/init-order.js:54-79 | the `map` callback for index i: even layers are returned as they are, so only odd ones throw; a read past the end happens only past the middle, on the last layer, at index `|layers|` |
| `Aligner.AlignUpTo` | lib/order/init-order.js:54-80 | definition: the first n results of the `map`, or the first error thrown; when it returns it has n layers (the rest is `AlignUpToSpec`) |
| `Aligner.Aligned` | lib/order/init-order.js:46-82 | the aligner: the DFS layering itself when `midLayerCount` is 0, else the `map` over `nodeSortedLayers`; when it returns it has as many layers as its input |
| `Aligner.MatchedMembers` | lib/order/init-order.js:56-73 | a process is pushed to `sortedProcesses` exactly when its edge ends at a node of the reference layer |
| `Aligner.MatchedDistinct` | lib/order/init-order.js:56-73 | against a layer and a reference layer without repetitions, no process is pushed twice |
| `Aligner.MatchedIsStableSort` | lib/order/init-order.js:56-73 | `sortedProcesses` is the stable sort of the matched processes by their reference node's position: groups follow the reference order and each keeps layer order |
| `Aligner.UnmatchedWithoutRef` | lib/order/init-order.js:74-76 | `otherProcesses` are the processes without a reference node, in layer order |
| `Aligner.FirstMissingEdgeObj` | lib/order/init-order.js:60-62 | finds the first process of the layer without an `edgeObj`, the one the filter throws on; there is none exactly when all carry one |
| `Aligner.GroupByReference` | lib/order/init-order.js:56-73 | the `forEach` throws exactly when the reference layer is non-empty and some process lacks an `edgeObj`, and then names such a process |
| `Aligner.SortProcesses` | lib/order/init-order.js:56-73 | the `forEach`/`push` loop computes `GroupByReference`: the matched processes or the TypeError |
| `Aligner.AlignLayerIsReorder` | lib/order/init-order.js:56-77 | a rebuilt odd layer equals `Reorder`: the matched processes stably sorted by reference position, then the unmatched ones in layer order |
| `Aligner.AlignLayerPermutation` | lib/order/init-order.js:56-77 | a rebuilt odd layer is a permutation of the layer, without repetitions |
| `Aligner.RefIndex` | lib/order/init-order.js:58 | the position of a node in the reference layer: the first occurrence, or the layer length when absent |
| `Aligner.AlignUpToSpec` | lib/order/init-order.js:54-80 | the `map` over the layers returns exactly when no callback throws, with result i from callback i; otherwise it throws the first callback's error |
| `Aligner.OnlyLastThrows` | lib/order/init-order.js:54-80 | when only the last callback can throw, the `map` fails exactly as that callback does |
| `Aligner.AlignAtOdd` | lib/order/init-order.js:57-73 | whenever its reference layer exists, the callback for an odd layer, error results included, is the rebuild against the next sorted layer matching `w` past the middle, else against the previous one matching `v`; that reference is an even layer |
| `Aligner.AlignedErrors` | lib/order/init-order.js:57-58 | when every process carries an `edgeObj`, the aligner throws exactly when the layer count is even and at least 4, with the out-of-range read at the layer count |
| `Aligner.LastAlignAt` | lib/order/init-order.js:57-58 | the callback on the last layer throws exactly when the layer count is even and at least 4 |
| `Aligner.AlignedPermutation` | lib/order/init-order.js:48-80 | every output layer is a permutation of its input layer, without repetitions |
| `Aligner.AlignedEvenLayer` | lib/order/init-order.js:48-53 | with at least two layers, each even output layer is its input layer stably sorted by `order`; with one layer the DFS layer is returned unsorted (lines 46-47) |
| `Aligner.AlignedOddLayer` | lib/order/init-order.js:54-80 | each odd output layer is its input layer reordered against the sorted neighbour the selection rule names |
| `InitOrder.RankLayers` | lib/order/init-order.js:19-43 | the class-based traversal leaves exactly `DfsLayering(g)` in `layers` |
| `InitOrder.AlignCallback` | lib/order/init-order.js:54-80 | the `map` callback computes `AlignAt` for its index, error cases included |
| `InitOrder.AlignUpToErrStays` | lib/order/init-order.js:54-80 | once a callback has thrown, the `map` ends with that error |
| `InitOrder.InitOrder` | lib/order/init-order.js:18-83 | `initOrder(g)` returns `Aligned(g, DfsLayering(g))`; with at most one layer that is the DFS layering itself |
| `InitOrder.InitOrderLayers` | lib/order/init-order.js:46-82 | when `initOrder` returns, layer i holds exactly the simple nodes of rank i, once each, as a permutation of the DFS layer |
| `InitOrder.InitOrderThrows` | lib/order/init-order.js:57-58 | when every process carries an `edgeObj`, `initOrder` throws exactly when the layer count is even and at least 4 |

## Left out

- The graph library and lodash are not part of this model. `g.nodes()`,
  `g.children`, `g.successors` and `g.node` are the fields of a `Graph` value.
  `_.filter`, `_.map`, `_.max` and `_.range` are written out as Dafny
  expressions. `_.sortBy` is `SortBy`, the stable sort it specifies.
- Preconditions instead of crashes. Every simple node has a non-negative rank,
  and the successors of a simple node are simple nodes. A negative rank or a
  compound successor would push onto an undefined layer and throw;
  `Graphs.WellFormed` states this precondition.
- `order` and `rank` are integers. An undefined `order` and lodash's ordering of
  undefined keys are left out. So are `edgeObj` fields `v`/`w` that are absent
  while `edgeObj` itself is present.
- JavaScript coercions are left out. Ids are strings; the `visited` object is a
  set, so object-key quirks are not modelled. Equality is on ids.
- `InitOrder.InitOrder` returns the DFS layers when there are fewer than two. It
  does not model that these are the same array objects the traversal built; the
  model has no aliasing across the result.
- The `map` of lines 48-53 is the value `NodeSorted`. The `map` of lines 54-80 is
  a `for` loop over the layers that stops at the first error. The JavaScript
  `map` also stops at the first exception.
- `_.each` stops early when its callback returns `false`. `dfs` never returns a
  value, so that path cannot occur and is not modelled.
- Stack depth of the recursive `dfs` is not modelled.
- Later crossing minimisation and coordinate assignment are in other files and
  are not part of this model.
