# A verified model of the `Graph` class

`Graph` (graph.h, graph.cpp) is a directed graph with integer edge weights and string vertex labels. It stores its adjacency as a `std::map` from label to a head `Vertex`. Each head carries an out-degree counter and owns a singly-linked chain of edge nodes, and the chain is kept in ascending order of target label.

The graph also keeps a counter of all its edges. It refuses self-loops and duplicate edges, and it offers the following operations:

- depth-first and breadth-first visits;
- Dijkstra's single-source distances;
- a Prim-style spanning tree grown along outgoing edges;
- the total of the edge weights;
- loading from an edge file.

The Dafny model keeps the class's data as immutable values. It states, as contracts and lemmas, what each operation promises.

| module | file | models |
|---|---|---|
| `Labels` | labels.dfy | `std::string`'s `<` as `Less`, proved a strict total order; `SortedLabels`, the key order a `std::map` iterates in |
| `Options` | options.dfy | `Option`, the model of a null pointer or an absent key |
| `Text` | text.dfy | `std::to_string(int)` and the reading it inverts |
| `Chains` | chains.dfy | the head `Vertex` and its edge chain, with `connect`, `disconnect`, `getAdjacent` and `getEdges` |
| `Graphs` | graphs.dfy | the graph itself, its invariant and its public editing and counting operations |
| `Paths` | paths.dfy | walks, reachability and walk weights, the reference notions for the algorithms |
| `Loader` | loader.dfy | `ReadFile` and `extractFile` as a fold of `Connect` over the file's records |
| `Traversals` | traversal.dfy | `DFS`/`dfs`/`nextLabel`/`nextVertex` and `BFS`/`bfs`/`addUnvisited` |
| `ShortestPaths` | dijkstra.dfy | `Dijkstra` with `initMaps`, `dijkstra`, `nextSmallest`, `update` and `cleanWeights` |
| `SpanningTrees` | spanning.dfy | `MinSpanningTree` with `nextMinEdge` |

## How the model is built

- **Graph.** A `Graph` holds `adj`, a map from label to `Vertex(chain, degree)`, and `edges`, the graph-wide counter.
  - `Valid` is the class invariant from graph.h:23-28, stated for every chain:
    - the chain ascends strictly by target;
    - every target is a vertex;
    - no target is the vertex itself;
    - each degree counter equals its chain's length;
    - `edges` equals the sum of those lengths.
  - The editing operations are pure functions returning `(graph, bool)`. Their lemmas `…KeepsValid` prove that the operations preserve `Valid`. They also give the exact change to the set of `(source, target, weight)` triples and to the total weight.
- **Visits.** The visitor callback of `DFS` and `BFS` becomes the returned sequence of labels passed to it. The vertices' `visited` flags become an explicit set local to each algorithm. So `unvisitVertices` is needed nowhere, and the graph is visibly left unchanged.
- **Dijkstra.** Its output maps are returned, not filled in.
- **Scans in order.** Scans that walk a `std::map` walk `SortedLabels(keys)`, so ties break exactly as in the source. This covers `nextSmallest`, `nextMinEdge`, the `dijkstra` loop and `SumOfEdges`.
- **Integers.** They are unbounded. `INT_MAX` is the constant `IntMax`, used as the "unreached" distance and as the starting minimum of the edge scan.

## Model

| member | source | states |
|---|---|---|
| Chains.InsertChain | graph.cpp:852-875 | the sorted-insert walk fails only when the target is already in the chain; otherwise the chain gains exactly the edge `(t, w)`: one more element, same multiset plus that edge, targets plus `t`, weight plus `w` |
| Chains.InsertChainSorted | graph.cpp:852-875 | inserting into an ascending chain keeps it ascending |
| Chains.Connect | graph.cpp:852-875 | `Vertex::connect` on a sorted chain succeeds exactly when the target is new; a refusal changes nothing, a success adds exactly that edge, raises the degree counter by one and keeps the chain sorted |
| Chains.Adjacent | graph.cpp:915-925 | `getAdjacent` finds a node exactly when the target is in the chain, and on a sorted chain the weight it finds is that edge's weight |
| Chains.UnlinkChain | graph.cpp:882-907 | the unlink walk succeeds exactly when the target is present and removes exactly that one edge and its weight |
| Chains.Disconnect | graph.cpp:882-907 | `Vertex::disconnect` succeeds exactly when the target is present; on success it removes exactly that edge, lowers the degree counter by one and keeps the chain sorted with the target gone; otherwise nothing changes |
| Chains.ChainTextAppend | graph.cpp:823-842 | the comma-joined rendering of two chains back to back is the two renderings joined by exactly one comma |
| Chains.ChainTextCommas | graph.cpp:823-842 | with comma-free target labels a rendered chain holds one comma fewer than it has edges: one entry per edge |
| Chains.EdgeTextRoundTrip | graph.cpp:948-952 | one rendered `target(weight)` entry, for a target without `,` or `(`, is non-empty, holds no comma and reads back as the same edge |
| Chains.EntriesRoundTrip | graph.cpp:823-842 | the comma-joined entries of a non-empty chain with such targets read back as the chain |
| Chains.ChainTextRoundTrip | graph.cpp:823-842 | `getEdges`' rendering of any chain whose targets hold no `,` or `(` reads back as exactly that chain, in chain order, the empty text as the empty chain |
| Text.IntText | graph.cpp:948-952 | the decimal text of an edge weight is non-empty, starts with `-` exactly for a negative weight, and reads back as the weight |
| Text.IntTextHasNoSeparators | graph.cpp:948-952 | a rendered weight is non-empty and contains none of `,`, `(`, `)`, so the edge-list syntax stays unambiguous |
| Graphs.EmptyValid | graph.cpp:41 | a freshly constructed graph satisfies the class invariant |
| Graphs.EdgesAreChainLengths | graph.h:23-28 | in a valid graph the edge counter equals the total length of all chains |
| Graphs.NumberOfVertices | graph.cpp:80-83 | the vertex count is never negative and is 0 exactly when no label is a vertex |
| Graphs.HasVertex | graph.cpp:135-138 | a graph with a vertex has a positive vertex count; in a valid graph a label is a vertex exactly when `NumberOfEdgesOf` does not return `-1` |
| Graphs.NumberOfEdges | graph.cpp:89-92 | the edge count of a valid graph is the number of edges actually stored |
| Graphs.NumberOfEdgesOf | graph.cpp:99-109 | `-1` for an absent vertex; otherwise, in a valid graph, the length of the vertex's chain, its out-degree |
| Graphs.AddVertex | graph.cpp:116-128 | succeeds exactly when the label was absent; afterwards the vertex exists, the vertex set gains only that label, the count rises by one exactly on success, and nothing else changes |
| Graphs.AddVertexKeepsValid | graph.cpp:116-128 | adding a vertex keeps the invariant and adds no edge and no weight |
| Graphs.GetEdges | graph.cpp:145-155 | the text is empty for an absent vertex and for a vertex without edges |
| Graphs.GetEdgesRoundTrip | graph.cpp:145-155 | the text of a vertex whose targets hold no `,` or `(` reads back as exactly its chain of `(target, weight)` entries in ascending target order; an absent vertex reads back as no edges |
| Graphs.GetEdgesCommas | graph.cpp:145-155 | with comma-free labels the text lists one comma-separated entry per out-edge: its commas plus one equal the vertex's edge count |
| Graphs.Connect | graph.cpp:166-182 | `Connect(a, a, w)` returns false and leaves the graph untouched, without even creating `a`; otherwise both endpoints exist afterwards, the edge counter rises by one exactly on success, and other vertices are unchanged |
| Graphs.ConnectKeepsValid | graph.cpp:166-182 | on a valid graph `Connect` succeeds exactly when `a != b` and the edge is new; it keeps the invariant and adds exactly the triple `(a, b, w)` and the weight `w` |
| Graphs.ConnectHasEdge | graph.cpp:166-182 | after `Connect` the edges present are the old ones plus `a -> b` when `a != b` |
| Graphs.Disconnect | graph.cpp:190-203 | succeeds exactly when `a != b`, both are vertices and `a -> b` exists; a failure changes nothing, a success keeps the vertex set and lowers the edge counter by one |
| Graphs.DisconnectKeepsValid | graph.cpp:190-203 | a successful `Disconnect` keeps the invariant and removes exactly the triple `(a, b, w(a, b))`, lowering the total weight by `w(a, b)` |
| Graphs.AddChainWeights | graph.cpp:344-351 | the inner loop adds the weights of one chain onto the running sum |
| Graphs.MapOrderWeightIsTotal | graph.cpp:338-355 | summing chain weights in the map's key order gives the total weight of all edges |
| Graphs.SumOfEdges | graph.cpp:338-355 | the result is the sum of the weights of all edges of the graph |
| Paths.ValidClosed | graph.h:23-28 | every edge target of a valid graph is a vertex |
| Paths.ShapedSimple | graph.h:23-28 | a graph shaped like the invariant has no self-loop |
| Loader.Load | graph.cpp:390-405 | every loaded vertex is a one-character label, and the edge counter lies between 0 and the number of records |
| Loader.ReadFile | graph.cpp:213-228 | reports success exactly when the file opens, and an unopenable file leaves the graph as it was |
| Loader.ReadFileReplaces | graph.cpp:213-228 | a file that opens replaces the old contents entirely: the result depends only on the records, is valid and holds exactly the edges the records keep |
| Loader.LoadFacts | graph.cpp:390-405 | folding `Connect` over the records gives a valid graph whose edges are exactly those asked for by a record that is not a self-loop, each with the weight of the first record asking for it; the edge counter counts those first records |
| Loader.LoadVertices | graph.cpp:390-405 | the loaded vertices are exactly the ends of records that are not self-loops |
| Traversals.FirstUnvisited | graph.cpp:462-481 | `nextVertex` finds nothing exactly when every target is visited; otherwise it finds an unvisited target with every earlier target in the chain visited |
| Traversals.NextLabel | graph.cpp:436-453 | an unvisited stack top is itself the next label; otherwise it is the first unvisited successor in chain order, and for a visited top nothing new is marked exactly when the top is finished, in which case `""` is returned; whatever else is returned is marked visited |
| Traversals.DfsKeeps | graph.cpp:412-429 | one round of the stack loop either marks a new vertex or pops, and keeps the depth-first invariant: reported labels are distinct, marked and reachable; with no vertex named `""`, the stack above the origin holds the unfinished vertices in discovery order, every other reported vertex has all its successors marked, and each reported vertex follows its depth-first parent |
| Traversals.Dfs | graph.cpp:235-246 | nothing is reported from an absent origin; otherwise every reported vertex is reachable and reported once, and when no vertex is named `""` the report is a depth-first order from the origin covering exactly the reachable vertices |
| Traversals.AddUnvisited | graph.cpp:507-522 | queues exactly the chain's unvisited targets, without repeats, and marks exactly those |
| Traversals.AddUnvisitedInChainOrder | graph.cpp:507-522 | the targets are queued in chain order, that is, ascending label order |
| Traversals.BfsKeeps | graph.cpp:488-500 | one round of the queue loop keeps the breadth-first invariant: marked vertices are reachable, each queued by the earliest dequeued vertex with an edge to it, in chain order |
| Traversals.Bfs | graph.cpp:253-267 | nothing is reported from an absent origin; otherwise the report is a breadth-first order from the origin, and it holds exactly the reachable vertices |
| ShortestPaths.InitMaps | graph.cpp:532-550 | every vertex gets a distance entry; the origin's successors get their edge weight and the origin as predecessor; every other new entry is `INT_MAX` and no other predecessor is set |
| ShortestPaths.NextSmallest | graph.cpp:589-611 | the chosen vertex is unsettled with the least distance below `INT_MAX`, and the first such in key order; nothing is chosen only when every unsettled distance is `INT_MAX` or more |
| ShortestPaths.Update | graph.cpp:622-633 | relaxing `k` through `x` lowers `k`'s distance to `d(x) + w(x, k)` and makes `x` its predecessor exactly when that edge exists and is strictly shorter; otherwise both maps are unchanged |
| ShortestPaths.Relax | graph.cpp:559-579 | one pass over the distance map relaxes every unsettled vertex through the newly settled one and changes nothing else |
| ShortestPaths.CleanWeights | graph.cpp:636-646 | the loop over the vertices in key order, which reads each distance through `operator[]` (inserting 0 when absent) and erases it when it is `INT_MAX` or 0, leaves exactly the entries of non-vertices and of vertices whose distance is neither `INT_MAX` nor 0, with their values unchanged and no vertex added |
| ShortestPaths.DijkstraStart | graph.cpp:532-550 | the initial maps satisfy the loop invariant: each predecessor is an edge and each finite distance is a walk's weight; when no edge is negative, the settled origin's distance 0 is also the least walk weight |
| ShortestPaths.DijkstraKeeps | graph.cpp:559-579 | settling the least unsettled vertex and relaxing through it keeps the invariant; when no edge is negative this includes that every settled distance is the least walk weight |
| ShortestPaths.SettleAll | graph.cpp:559-579 | the selection loop ends with the invariant intact and no unsettled vertex below `INT_MAX` |
| ShortestPaths.DoneComplete | graph.cpp:636-646 | when no edge is negative and the loop has ended, every vertex reached by a walk lighter than `INT_MAX` survives the clean-up unless a walk of weight 0 reaches it |
| ShortestPaths.Dijkstra | graph.cpp:278-293 | no entry for the origin and no reported 0 or `INT_MAX`; every predecessor entry is an edge into a reachable vertex, and each distance is the predecessor's reported distance plus that edge and the weight of a real walk; without negative edges, every vertex reachable by a walk cheaper than `INT_MAX` has a predecessor and a reported distance no greater than that walk's weight, and it keeps its distance entry unless a walk of weight 0 reaches it; so each reported distance is the weight of the lightest walk |
| SpanningTrees.ScanChain | graph.cpp:666-681 | the inner scan of one visited vertex's chain keeps the best candidate so far and replaces it only with a strictly lighter edge of this vertex leading out of the visited set |
| SpanningTrees.NextMinEdge | graph.cpp:655-692 | the edge found leaves the visited set with its true weight below `INT_MAX`; none is found exactly when no such edge exists; and the one found is the lightest, ties going to the first source in key order and then the first target |
| SpanningTrees.TreeDone | graph.cpp:300-332 | once no eligible edge is left, every vertex reachable from the origin is in the tree when all weights are below `INT_MAX` |
| SpanningTrees.PickedUnique | graph.cpp:655-692 | for a given visited set at most one edge is the greedy pick: lightest, then first in key order |
| SpanningTrees.GreedyDetermined | graph.cpp:300-332 | two runs of greedy rounds that each stop only when no edge is eligible are the same run |
| SpanningTrees.GrowEdgeSet | graph.cpp:320-322 | connecting a picked edge onto the tree adds exactly that edge with its weight |
| SpanningTrees.MinSpanningTree | graph.cpp:300-332 | the rounds are greedy: each adds the `nextMinEdge` pick for the vertices visited so far, and none is eligible after the last, so by `GreedyDetermined` the tree is the unique one Prim's scan builds; the tree holds exactly the rounds' targets and edges; the result is a valid graph rooted at the origin whose edges are edges of the source with their weights, with one edge fewer than vertices, no edge into the origin and one parent per vertex; every vertex is reachable along the tree and in the source; no edge lighter than `INT_MAX` leaves it, so with all weights below `INT_MAX` its vertices are exactly those reachable from the origin |

## Left out

- Opening and reading the edge file through `std::ifstream` is not modelled. A file is modelled as its sequence of records, or `None` when it cannot be opened. Short or malformed files read uninitialised `char`s in the source and have no specifiable behaviour.
- The copy constructor, `operator=`, `clone` and the `Vertex` copy operations are left out. They do not work as written: `clone` dereferences the null that `map[label]` inserts, and `Vertex::operator=` copies the head's label and weight into every node.
- Memory management (`new`, `delete`, `clear`, destructors) is left out, because chains are owned values in the model.
- `operator<<` is left out because it is stream output only.
- `unvisitVertices` and the `visited` flags are not modelled separately. The model keeps the visited set local to each algorithm, so the graph is unchanged afterwards by construction.
- 32-bit `int` overflow of `dist + w` in `update` and of the running sum in `SumOfEdges` is not modelled; integers are unbounded.
- Calls of `Dijkstra` with output maps that are not empty are excluded, because the maps are results in the model.
- Calls of `Dijkstra` or `MinSpanningTree` with an absent origin are excluded by a precondition. The source dereferences a null head in that case.
- ShortestPaths.Dijkstra: optimality and completeness (every vertex reached has a predecessor and a distance entry) are stated only for graphs without negative edges, and only for walks lighter than `INT_MAX`. Those are the walks the `INT_MAX` sentinel can tell apart from "unreached". A vertex whose lightest walk weighs 0 has its entry erased by the source, as the contract says.
- SpanningTrees.MinSpanningTree: minimality of the total weight is not claimed, because it is false for directed graphs.
  - Example: edges o→a 3, o→b 2, a→b 1. The greedy scan picks o→b and then o→a, total 5, while o→a, a→b weighs 4.
  - The contract proves instead that the tree is exactly the one built from the greedy rounds: the ghost `steps` are each the `nextMinEdge` pick for the vertices visited so far, the tree holds exactly their edges, and `GreedyDetermined` shows those rounds are unique. It is also a rooted tree spanning the reachable vertices.
  - It claims equality with the reachable set only when every weight is below `INT_MAX`, since heavier edges are never eligible.
- Traversals.Dfs: the depth-first order and completeness are stated for graphs with no vertex named `""`. The source uses `""` as its "nothing left" sentinel, and a vertex with that name would end the visit early.
- Graphs.GetEdges: its own contract states only the two empty cases. The content of the text is stated by `Graphs.GetEdgesRoundTrip`, which reads it back as the chain, for target labels without `,` or `(`. Labels holding those characters make the text ambiguous in the source as well.
- Labels are modelled as Unicode strings ordered by code point. A `std::string` compares bytes as `unsigned char`; for UTF-8 labels the two orders agree. The one-character labels of an edge file are modelled as Dafny characters, which agree with a one-byte `char` for ASCII files.
