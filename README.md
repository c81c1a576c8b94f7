# Graph algorithm pages, modelled in Dafny

The repository is four browser pages. Each one lets a user build a graph in a
vis.js network and then runs one classical algorithm on it:

- `tasks/task1/script.js`: depth-first and breadth-first traversal from the
  first node, plus a directed adjacency-matrix export and import keyed by
  edge labels.
- `tasks/task2/script.js`: Edmonds-Karp maximum flow over a residual table
  held as a nested dictionary. Each edge records the flow pushed through it.
- `tasks/task3/script.js`: Kruskal's minimum spanning tree with a union-find
  (path compression, union by rank), plus an undirected, weight-valued
  adjacency-matrix export and import. Each added edge is stored in both
  directions.
- `tasks/task4/script.js`: Dijkstra's shortest path with early exit at the
  target. It uses the same undirected matrix codec, and an edge store that
  refuses a second edge between the same pair of nodes.

The model keeps the algorithms and the edge stores and drops the rendering.

- A vis `DataSet` is a sequence in insertion order, since `get()` returns
  items in that order.
- Node ids are strings.
- JavaScript's `Infinity` is the extended integer `Graph.Ext`.
- `parseInt` results arrive as `Option<int>`, with `None` standing for `NaN`.
- The nested dictionaries (`parent`, `rank`, `distances`, `previous`, the
  residual table) are finite maps with no inherited keys. The program's
  plain objects also inherit `Object.prototype`'s properties; see
  "## Left out".
- The residual table is keyed by pairs. A separate map gives each row's keys
  in the order `for ... in` visits them (module `KeyOrder`).
- The imperative code stays imperative:
  - `UnionFind.UnionFind` is a class whose `Find` and `Union` update its
    `parent` and `rank` fields;
  - the matrix builders fill an `array2`;
  - the traversals, Dijkstra, the bfs of Edmonds-Karp and the outer
    augmenting loop are methods with loops and invariants;
  - the three edge stores are classes whose `AddEdge`, `UpdateFlow` and
    `StartMaxFlow` methods change their `edges` field.

Each method is proved against a specification function or predicate. The
lemmas state what the pages promise about those functions.

Modules:

| module | file | models |
|---|---|---|
| `Graph` | graph.dfy | nodes, edges, `findIndex`, decimal captions, walks and undirected reachability |
| `UnionFind` | unionfind.dfy | `find` / `union` of task3 |
| `Kruskal` | kruskal.dfy | the weight sort and the greedy loop of task3 |
| `WeightedCodec` | weighted_codec.dfy | mirrored weight matrix export and import of task3 and task4 |
| `DirectedCodec` | directed_codec.dfy | label matrix export and import of task1 |
| `Traversal` | traversal.dfy | `startDFS` / `startBFS` of task1 |
| `Dijkstra` | dijkstra.dfy | `dijkstra` / `startShortestPath` of task4 |
| `KeyOrder` | keyorder.dfy | the key order of `for (let v in obj)` on a plain object |
| `MaxFlow` | maxflow.dfy | `createResidualGraph`, `bfs`, `edmondsKarp` of task2 |
| `Stores` | stores.dfy | the `addEdge` guards of task2, task3 and task4, and `updateFlowVisual` |

## Model

| member | source | states |
|---|---|---|
| Graph.IndexOf | tasks/task3/script.js:186-187 | `findIndex` by id: -1 exactly when no node has the id, otherwise the first position holding it |
| Graph.NatToStringInjective | tasks/task3/script.js:48-49 | the decimal caption of a weight determines the weight |
| Graph.NumberedIndex | tasks/task3/script.js:212-213 | after decoding, node id `"k"` sits at position k |
| UnionFind.Root | tasks/task3/script.js:97-102 | the node `find` ends at is a root (its own parent), with rank at least the start's |
| UnionFind.UnionFind.Find | tasks/task3/script.js:97-102 | returns the root of x; afterwards every node on the chain from x points at that root, no rank changes, and no node changes root |
| UnionFind.CompressedRoots | tasks/task3/script.js:99-100 | path compression keeps the forest valid and every node's root unchanged |
| UnionFind.UnionFind.Union | tasks/task3/script.js:104-122 | afterwards `find(a) == find(b)`; the two old components merge under the higher-ranked root, all other roots are unchanged, and ranks change only as `MergeRank` says |
| UnionFind.MergeRank | tasks/task3/script.js:107-119 | a root's rank rises by exactly 1, and only when two distinct roots of equal rank merge; merging a component with itself changes no root link |
| UnionFind.MergeRootCount | tasks/task3/script.js:107-120 | merging two components removes exactly one root; merging a component with itself removes none |
| UnionFind.HangRootSet | tasks/task3/script.js:108-118 | hanging one root under another removes exactly that root from the set of roots |
| Kruskal.SortSorted | tasks/task3/script.js:83 | the sorted edge list is in non-decreasing weight order |
| Kruskal.SortPermutation | tasks/task3/script.js:83 | sorting is a permutation of the edge list |
| Kruskal.SortStable | tasks/task3/script.js:83 | sorting is stable: edges of equal weight keep their relative order |
| Kruskal.Kruskal | tasks/task3/script.js:81-137 | the kept edges are exactly the greedy choice over the weight-sorted list: an edge is kept iff its endpoints were not yet connected; for a non-empty edge list fewer edges are kept than there are distinct endpoints, and exactly one fewer when the edges form one connected graph; every input edge's endpoints are joined by kept edges no heavier than it (the cycle condition of a minimum spanning forest) |
| Kruskal.GreedySubsequence | tasks/task3/script.js:125-130 | the kept edges are a subsequence of the list scanned |
| Kruskal.GreedyAcyclic | tasks/task3/script.js:128-130 | the kept edges contain no cycle |
| Kruskal.GreedySpans | tasks/task3/script.js:125-137 | the endpoints of every scanned edge are connected by kept edges |
| Kruskal.KruskalTree | tasks/task3/script.js:81-137 | the result is sorted by weight, drawn from the input, acyclic, and connects the endpoints of every input edge, so it spans every component |
| Kruskal.RepeatedPairSkipped | tasks/task3/script.js:128 | a later edge joining a pair already joined by an earlier edge is never kept |
| Kruskal.GreedyPrefix | tasks/task3/script.js:124-130 | `mstEdges` only grows: what is kept from a prefix of the sorted list is a prefix of what is kept from all of it |
| Kruskal.LightSpans | tasks/task3/script.js:125-130 | when the j-th sorted edge is scanned its endpoints are already joined, or it is kept, by kept edges that weigh at most its weight |
| Kruskal.KruskalLight | tasks/task3/script.js:81-137 | the cycle condition: every input edge's endpoints are joined by kept edges no heavier than it, so no input edge can replace a heavier kept edge on that walk |
| Kruskal.ConnectedOneRoot | tasks/task3/script.js:85-122 | a union-find forest whose links join the endpoints of every edge of a connected graph over its keys has a single root |
| Kruskal.KruskalConnected | tasks/task3/script.js:85-137 | on a connected edge list the loop ends with one root, so the tree has exactly one edge fewer than there are nodes on the edges |
| Kruskal.KruskalResult | tasks/task3/script.js:124-137 | from the forest the loop leaves: fewer kept edges than endpoints, exactly one fewer on a connected list, and the cycle condition |
| Kruskal.KruskalTriangle | tasks/task3/script.js:81-143 | A-B(1), B-C(2), A-C(5) keeps A-B then B-C and rejects A-C, for a total weight of 3 |
| WeightedCodec.GenerateAdjacencyMatrix | tasks/task3/script.js:180-198 | fills an n×n array with exactly the cells of `Encode` |
| WeightedCodec.EncodeCells | tasks/task3/script.js:180-198 | every cell is 0 or the weight of an edge whose endpoints sit at that row and column (in either order) |
| WeightedCodec.PlaceCells | tasks/task3/script.js:188-194 | one edge writes its weight at (from, to), writes the mirror cell (to, from) only if that cell is still 0, and does nothing if an endpoint is unknown |
| WeightedCodec.EncodeIgnoresUnknown | tasks/task3/script.js:188 | edges with an endpoint outside the node list do not affect the matrix |
| WeightedCodec.LoadGraph | tasks/task3/script.js:212-231 | decoding yields the nodes `"0".."n-1"` and the edges of the row-major scan |
| WeightedCodec.DecodeSound | tasks/task3/script.js:215-228 | every decoded edge comes from a positive entry, with that weight and its decimal caption |
| WeightedCodec.DecodeCovers | tasks/task3/script.js:215-228 | every positive entry ends with its pair joined by a decoded edge, in some direction |
| WeightedCodec.DecodeNoRepeat | tasks/task3/script.js:216-221 | no two decoded edges join the same unordered pair |
| WeightedCodec.RoundTrip | tasks/task4/script.js:187-238 | encoding a freshly decoded symmetric, non-negative square matrix gives the matrix back |
| DirectedCodec.GenerateAdjacencyMatrix | tasks/task1/script.js:131-145 | fills an n×n array with exactly the cells of `Encode` (the same build as updateAdjacencyMatrix, 256-268) |
| DirectedCodec.EncodeLast | tasks/task1/script.js:136-142 | cell (i, j) holds the label of the last edge from node i to node j, and stays 0 if there is none; nothing is mirrored |
| DirectedCodec.LastArcNone | tasks/task1/script.js:137-139 | no edge is counted for (i, j) exactly when none goes from node i to node j, so unknown endpoints are skipped |
| DirectedCodec.LastArcFound | tasks/task1/script.js:136-142 | the edge counted for (i, j) joins them, and no later edge does |
| DirectedCodec.LoadGraph | tasks/task1/script.js:158-168 | decoding yields the nodes `"0".."n-1"` and the arcs of the row-major scan |
| DirectedCodec.DecodeSound | tasks/task1/script.js:160-166 | every decoded arc comes from a positive entry, labelled by that entry's decimal string |
| DirectedCodec.DecodeComplete | tasks/task1/script.js:160-166 | every positive entry yields its arc |
| DirectedCodec.RoundTrip | tasks/task1/script.js:131-168 | encoding a freshly decoded square matrix gives, at each cell, the entry as a string if it is positive and 0 otherwise |
| Traversal.Incident | tasks/task1/script.js:190-192 | the filter keeps exactly the edges touching the node, in either direction |
| Traversal.DepthFirst.Visit | tasks/task1/script.js:183-201 | marks u visited before exploring; logs u only if it was unvisited; never logs a node twice; every log entry is reachable from the first; on return no visited node has an unvisited neighbour outside the open frames |
| Traversal.StartDfs | tasks/task1/script.js:178-207 | on no nodes logs nothing; otherwise logs the first node first, no node twice, and exactly the nodes reachable from it by edges in either direction |
| Traversal.Component | tasks/task1/script.js:190-206 | a finished traversal log holds exactly the nodes reachable from its first entry |
| Traversal.Scan | tasks/task1/script.js:229-238 | one dequeued node marks and enqueues each unvisited neighbour exactly once, at one hop more than itself |
| Traversal.BreadthFirst | tasks/task1/script.js:209-242 | the start is logged first, no node twice, exactly the nodes reachable from the start, in non-decreasing hop distance |
| Traversal.StartBfs | tasks/task1/script.js:209-242 | `startBFS` from the first node: nothing on no nodes; otherwise the reachable component, each node once, in non-decreasing hop distance |
| Traversal.HopOrder | tasks/task1/script.js:223-241 | a node logged before another is no further from the start |
| Dijkstra.Init | tasks/task4/script.js:92-100 | every node starts at distance ∞ with no predecessor and unsettled; then the start's distance is 0 |
| Dijkstra.MinIndexFirstMin | tasks/task4/script.js:105-107 | the node selected has the least distance among the unsettled ones, and ties go to the earliest in set order |
| Dijkstra.Relax | tasks/task4/script.js:126-137 | only unsettled neighbours across an incident edge change; a distance never rises; whenever one falls, the predecessor becomes the current node and the edge accounts for the new distance |
| Dijkstra.PendingWithout | tasks/task4/script.js:104-124 | each round removes exactly one node from the unsettled set |
| Dijkstra.WithoutLength | tasks/task4/script.js:124 | deleting the selected node shortens the unsettled set by one, bounding the rounds by the node count |
| Dijkstra.Backtrack | tasks/task4/script.js:113-119 | the predecessor walk terminates and yields the chain that ends at `end` and starts at a node with no predecessor |
| Dijkstra.Exhausted | tasks/task4/script.js:104-143 | the set runs empty without selecting `end` only when `end` is not a node id |
| Dijkstra.ShortestPath | tasks/task4/script.js:86-144 | no path exactly when `end` is not a node id, then at cost ∞; otherwise a path ending at `end` joined by edges, from `start` with its weight sum when the cost is finite, just `[end]` when it is ∞; with non-negative weights the cost is the least over all walks; at most one round per node |
| Dijkstra.StartShortestPath | tasks/task4/script.js:86-144 | the same over the page's node and edge lists; with positive weights a finite cost is least |
| Dijkstra.TriangleShortest | tasks/task4/script.js:86-144 | A-B(1), B-C(1), A-C(5): any answer of least cost from A to C is `[A, B, C]` at cost 2 |
| KeyOrder.DecimalValue | tasks/task2/script.js:153 | the decimal text of n reads back as n, starts with '0' only when it is "0", and is an array-index key when n < 2^32 - 1 |
| KeyOrder.EnumOrderShape | tasks/task2/script.js:215 | `for ... in` lists each key once: the array-index keys first in ascending value, then the others in insertion order |
| KeyOrder.EnumOrderExample | tasks/task2/script.js:215 | keys added as "b", "10", "2" are visited as "2", "10", "b" |
| MaxFlow.Residual | tasks/task2/script.js:181-195 | entry (u, v) exists exactly when some edge wrote it, and holds the last value written; each endpoint gets a row listing its keys in first-write order |
| MaxFlow.Antiparallel | tasks/task2/script.js:192-193 | an edge b→a after a→b zeroes the capacity of a→b |
| MaxFlow.Explore | tasks/task2/script.js:199-223 | with the visited test fixed: the sink gets a parent exactly when it is reached; every parent link is an open residual pair; a failed search leaves the visited set closed under open pairs |
| MaxFlow.Backtrack | tasks/task2/script.js:205-212 | under that premise (each parent settled strictly before its child), reconstruction terminates in a duplicate-free parent chain that ends at the sink and starts at a node whose parent is null (that this node is the source comes from the search, inside MaxFlow.Bfs) |
| MaxFlow.Bfs | tasks/task2/script.js:198-224 | a path from source to sink, duplicate-free, along positive residuals; `null` exactly when no such path exists |
| MaxFlow.ScanAsWritten | tasks/task2/script.js:215-220 | one scan as written, with `!parent[v]`: a node that already has a non-null parent keeps it, so no node other than the source is given a parent twice; the keys with a non-null parent only grow; the push log grows by the pushed nodes, and while the source's parent is null no node is logged twice and each parent is logged before its child |
| MaxFlow.ExploreAsWritten | tasks/task2/script.js:199-223 | the search as written: only the source may have a null parent, every parent link is an open residual pair from a dequeued node, and `found` holds exactly when the sink was dequeued; if the source's parent is still null the push log ranks parent (each parent pushed before its child), and if it is not, no walk back from the sink reaches a null parent |
| MaxFlow.PushedRanked | tasks/task2/script.js:200-220 | while the source's parent is null, every non-null parent was pushed before its child |
| MaxFlow.NeverUnwinds | tasks/task2/script.js:207-211 | once the source has a parent no node has a null one, so the walk back from the sink never stops |
| MaxFlow.RankedUnwinds | tasks/task2/script.js:207-211 | when parents are ranked by push order the walk back from any node ends at a node with a null parent |
| MaxFlow.AsWrittenEnds | tasks/task2/script.js:205-212 | once the sink is dequeued, reconstruction ends exactly when the source's parent is still null |
| MaxFlow.FirstRound | tasks/task2/script.js:181-195 | on the network of the finding the construction loop builds the rows s: [a], a: [s, t, b], t: [a, b], b: [a, t] and a table that, after one unit is pushed along s, a, t, is the table of the second round |
| MaxFlow.ReparentedSource | tasks/task2/script.js:200-216 | on the network of the finding, the second search re-parents the source and reconstruction cannot end |
| MaxFlow.Bottleneck | tasks/task2/script.js:124-129 | `pathFlow` is positive, at most every residual on the path and equal to one of them; ∞ only for a one-node path |
| MaxFlow.Augment | tasks/task2/script.js:131-136 | the residual table after updating each pair on the path |
| MaxFlow.AugmentedAt | tasks/task2/script.js:131-136 | each pair on the path loses `pathFlow` forwards and gains it backwards; other entries are unchanged |
| MaxFlow.AugmentedPairs | tasks/task2/script.js:134-135 | `r[u][v] + r[v][u]` is preserved by augmentation |
| MaxFlow.RoundKeeps | tasks/task2/script.js:131-136 | an augmentation keeps the table well formed and residuals non-negative, and conserves every pair sum |
| MaxFlow.OutAfter | tasks/task2/script.js:131-143 | the residual out of the source falls by exactly `pathFlow` |
| MaxFlow.EdmondsKarp | tasks/task2/script.js:116-146 | terminates with no augmenting path left; `maxFlow` is the sum of the positive bottlenecks, equal to the source's lost residual, within [0, initial out-capacity]; 0 exactly when no augmenting path existed initially |
| MaxFlow.RunTotal | tasks/task2/script.js:143 | `maxFlow` is 0 exactly when no augmentation happened, so it strictly grows each round |
| MaxFlow.SameEnds | tasks/task2/script.js:123-145 | with source equal to sink the only path is `[source]`, whose augmentation changes nothing, so the loop never ends |
| Stores.TextValue | tasks/task2/script.js:153 | the template text of an integer reads back as that integer: a non-negative one as canonical decimal digits, a negative one as '-' followed by the canonical digits of its magnitude |
| Stores.BothWaysPaired | tasks/task3/script.js:41-64 | an accepted edge (both ids non-empty, a positive integer weight) is stored as u→v and v→u with that weight; a rejected one adds nothing |
| Stores.TwoWayEdges.AddEdge | tasks/task3/script.js:41-64 | the store becomes `BothWays` of its old contents |
| Stores.SecondCopySkipped | tasks/task3/script.js:45-58 | in the sorted list the reverse copy of each edge is present, and when it follows its twin it is skipped as a cycle |
| Stores.BothWaysTriangle | tasks/task3/script.js:41-64 | adding A-B(1), B-C(2), A-C(5) yields the six edges of the Kruskal example |
| Stores.Existing | tasks/task4/script.js:45-48 | `some` is true exactly when an edge joins the pair in either direction |
| Stores.OnceSimple | tasks/task4/script.js:40-63 | an edge is appended exactly when it is accepted and its pair is not yet joined; old edges are untouched; no pair is ever joined twice |
| Stores.SimpleEdges.AddEdge | tasks/task4/script.js:40-63 | the store becomes `Once` of its old contents |
| Stores.FreshCarrying | tasks/task2/script.js:40-56 | an accepted edge is appended with its weight and flow 0; a rejected one adds nothing |
| Stores.FlowEdges.AddEdge | tasks/task2/script.js:40-56 | the store becomes `Fresh` of its old contents |
| Stores.FlowEdges.UpdateFlow | tasks/task2/script.js:149-158 | every edge exactly matching (from, to) gains the flow and the caption flow/weight; all others are unchanged |
| Stores.CreditedTwice | tasks/task2/script.js:149-158 | two updates of the same pair add up |
| Stores.CountNext | tasks/task2/script.js:132-139 | on a duplicate-free path each ordered pair occurs at most once, exactly when it is a step of the path |
| Stores.WalkedEdge | tasks/task2/script.js:132-139 | after one augmentation each edge on a path step gains `pathFlow`; the others are untouched |
| Stores.ReplayedEdge | tasks/task2/script.js:123-145 | after the run each edge's flow has grown by the bottlenecks of the rounds that stepped through it, and its caption shows flow/weight iff some round did |
| Stores.OrderedNet | tasks/task2/script.js:215 | visiting each row's keys in `for ... in` order keeps the residual network well formed |
| Stores.FlowEdges.StartMaxFlow | tasks/task2/script.js:92-104 | runs Edmonds-Karp on the residual of the stored edges, with the stated results; afterwards the edges carry the pushed flows |
| Stores.FlowEdges.Walk | tasks/task2/script.js:132-139 | one augmentation's `updateFlowVisual` calls, pair by pair |
| Stores.FlowEdges.Replay | tasks/task2/script.js:123-145 | every augmentation's flow updates, round by round |

## Left out

- Rendering is left out as third-party display code: the vis.js network, its options and layout, node and edge colours, `highlightNode`/`highlightEdge`/`highlightPath`, the DOM log and `renderAdjacencyMatrix`.
- The `sleep` / `setTimeout` pacing is left out. It only delays, and every algorithm is modelled as synchronous.
- Input and output are left out: `prompt`, the file picker, `FileReader`, `JSON.parse`/`stringify`, the download link and the list-form save and load of task2 (tasks/task2/script.js:67-90). The decoders start from an already-parsed integer matrix. They accept ragged rows, as the code does.
- `parseInt` is not modelled. A weight arrives as `Option<int>`, and `None` stands for `NaN`.
- Random node coordinates, `addNode`, task1's `addEdge` and `removeSelected` are left out. They are plain dataset insertions or depend on the library's selection state.
- `updateNodeDegrees` is left out. It computes degrees and then discards them.
- The copy-on-`get()` behaviour of vis `DataSet` is not modelled. `updateFlowVisual` is modelled as updating the stored edges in place, as the code intends.
- Stores.FlowEdges.StartMaxFlow runs the `updateFlowVisual` calls after the augmenting loop, round by round, instead of between residual updates. The order is the same, and the residual table never reads the edge list, so the outcome is the same.
- MaxFlow.EdmondsKarp and Stores.FlowEdges.StartMaxFlow require source ≠ sink. With equal ends the page never terminates. MaxFlow.SameEnds states why.
- Kruskal.Kruskal does not prove that its tree weighs no more than every spanning forest drawn from the edges. It proves the cycle condition instead: every input edge's endpoints are joined by kept edges no heavier than it. Going from that condition to least total weight needs an exchange argument that counts the edges of arbitrary forests, and that counting is not part of the model.
- MaxFlow.EdmondsKarp does not prove the flow maximal in the max-flow/min-cut sense. It proves that no augmenting path is left and that `maxFlow` equals the capacity drained from the source.
- MaxFlow.EdmondsKarp uses the corrected bfs (MaxFlow.Bfs). With the bfs as written it can loop, as the finding below shows.
- MaxFlow.ScanAsWritten, MaxFlow.ExploreAsWritten, MaxFlow.Residual and Stores.FlowEdges.StartMaxFlow do not model ids that are property names of `Object.prototype` ("constructor", "toString", "__proto__", …). The program's `parent = { [source]: null }` (tasks/task2/script.js:200) and `residualGraph = {}` (181-189) inherit those properties. For such an id `!parent[v]` (216) and `!residualGraph[u]` (188) are false, so bfs never queues the node. For example, on s→constructor (1), constructor→t (1) the program reports a flow of 0, while the model reports 1. "__proto__" breaks kruskal's `parent`/`rank` and dijkstra's `distances` in the same way. The model's dictionaries are maps with no inherited keys, so every statement here holds for ids that are not such property names.
- JavaScript numbers are doubles, and the model uses unbounded integers. Distance, flow and weight sums above 2^53 round in the program and not in the model. `${n}` prints n ≥ 10^21 in exponent form ("1e+21"), while Stores.Text prints every digit. Weights are small integers typed by a user, so this only matters past those bounds.
- Captions are bare decimal strings. Unicode and number formatting beyond non-negative integers are out of scope.

## Findings

| source | as written | input that shows it | evidently intended | confidence | as-written member | corrected member |
|---|---|---|---|---|---|---|
| tasks/task2/script.js:200-216 | `bfs` tests visited with `!parent[v]`, but `parent[source]` is `null`, which is falsy, so the source can be given a parent; reconstruction at 207-211 then walks the cycle source→…→source forever | edges s→a (2), a→t (1), a→b (1), b→t (1), source s, sink t: after the first round pushes 1 along s,a,t, the second bfs sets parent[s] = a, and reconstruction from t goes t, b, a, s, a, s, … | test `v in parent` (key presence), so the source is never re-parented | not executed | MaxFlow.ExploreAsWritten, MaxFlow.AsWrittenEnds, MaxFlow.ReparentedSource | MaxFlow.Bfs |
