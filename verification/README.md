# pygraph algorithms in Dafny

A model of the algorithmic layer of pygraph, a small Python library of
adjacency-list graphs, with proofs of what each algorithm computes.

A graph is `Graph(order, directed, adj)`: `adj[u]` is the list of `u`'s
successors, every entry below `order` (`Graphs.Valid`). An undirected graph
stores a non-loop edge once in each endpoint's list and a self-loop once
(`Graphs.Symmetric`). Python exceptions become a `Result` error:
`IndexOutOfRange` for IndexError, `InvalidSrc`/`InvalidDst` for the range
checks of the container, `MissingReverse` for the ValueError of `list.remove`,
`Cyclic` for "Graph is cyclic", and `NoAttribute` for AttributeError.
Reachability (`Reach`, `ReachPlus`, `ReachIn`) is defined by walks along list
entries and is the reference every search is proved against.

Modules, one per source file or algorithm:

- `graph.dfy` (`Graphs`): the container of `graph/__init__.py`, walks and reachability.
- `union_find.dfy` (`UnionFind`): `find`, `union`, `union_simple`, `union_find`.
- `components.dfy` (`Components`): the component maps built on union-find.
- `closure.dfy` (`Closure`): `to_matrix`, Warshall's closure, components from the matrix.
- `spanning_tree.dfy` (`SpanningTree`): `to_tree`.
- `strong.dfy` (`Strong`): `reverse` and Kosaraju's method.
- `tarjan_state.dfy`, `tarjan.dfy` (`TarjanState`, `Tarjan`): Tarjan's method.
- `order.dfy` (`Order`): Kahn's topological order.
- `traversal.dfy` (`Traversal`): `bfs` and `dfs`.
- `subgraph.dfy` (`Subgraph`): `build_subgraph`.
- `eulerian.dfy` (`Eulerian`): `is_eulerian`.
- `coloring.dfy` (`Coloring`): `is_colored_nicely`.

Several functions cannot run as written (see Findings). Each is modelled
twice: once with the smallest correction that gives the behaviour its
docstring and comments describe, and once exactly as written, with a lemma or
a concrete graph showing where the two part. The rest of the model builds on
the corrected versions.

Mutable Python lists become values: a method takes the list and returns the
updated one, including a list the source updates in place as a side effect
(the caller's matrix in connected_components_from_matrix). Recursion is modelled as recursion, ending because the number
of unmarked nodes falls.

## Model

| member | source | states |
|---|---|---|
| Graphs.NewGraph | graph/__init__.py:46-54 | a new graph has `order` empty lists and the requested flag; it is valid and symmetric |
| Graphs.AddEdge | graph/__init__.py:72-79 | IndexError for src, then dst, outside [0, order); otherwise dst is appended to src's list, and src to dst's list when undirected and not a loop; every other list is unchanged; validity and symmetry are kept |
| Graphs.RemoveEdge | graph/__init__.py:115-124 | the same range errors; no change when dst is not in src's list; in a symmetric graph one occurrence of dst leaves src's list and one of src leaves dst's (undirected, not a loop), every other list is unchanged, and symmetry is kept |
| Graphs.RemoveInPlace | graph/__init__.py:119-124 | the lists remove_edge leaves behind even when its second `remove` raises: the first removal stays applied |
| Graphs.AddThenRemove | graph/__init__.py:58-126 | in a symmetric graph, adding an edge and then removing it gives back every list as the same multiset |
| Graphs.AddNode | graph/__init__.py:97-99 | order grows by `number`, the old lists are kept as a prefix and the new ones are empty |
| Graphs.Sort | graph/__init__.py:132-133 | each list becomes sorted and stays a permutation of itself |
| UnionFind.Find | graph/connectivity.py:16-31 | the result is the root reached by following fathers; every node on that walk is relinked straight to it, all other entries are kept, every node keeps its root, and sizes stay right |
| UnionFind.FindAsWritten | graph/connectivity.py:23-31 | find as written returns the right root; from a non-root the start node keeps its father and every node keeps its root; from a root, the entry that `fathers[node]` counts from the end is overwritten with the node, every other entry kept, and IndexError exactly when that entry lies before the start |
| UnionFind.FindAsWrittenMerges | graph/connectivity.py:28-29 | on three singleton sets, find(0) as written writes 0 into the last entry and so moves node 2 into node 0's set |
| UnionFind.Union | graph/connectivity.py:48-65 | returns True exactly when the roots differ; the new sets are the old ones with node1's and node2's sets joined; the root storing the larger size survives (ties keep node1's root), stores minus the combined size, and every node of the other set takes it as root |
| UnionFind.HangBySize | graph/connectivity.py:59-63 | the root with the smaller stored size hangs under the other, which stores the sum; roots of other sets are unchanged |
| UnionFind.UnionSimple | graph/connectivity.py:34-45 | returns True exactly when the roots differ; node2's set then takes node1's root, other roots unchanged |
| UnionFind.UnionFindAll | graph/connectivity.py:68-77 | IndexError exactly when a pair names a node outside [0, n); otherwise a forest with correct sizes in which two nodes share a root exactly when the pairs connect them |
| Components.ComponentMapIterative | graph/connectivity.py:102-121 | IndexError exactly for a pair outside [0, n); otherwise ids in 1..count, each used, equal exactly for connected nodes, numbered in the order of each component's smallest node |
| Components.ComponentMapRecursive | graph/connectivity.py:124-157 | the same errors and the same component map as the iterative version |
| Components.ParentAux | graph/connectivity.py:129-141 | the number of node's set: the stored one if its root has one, else count + 1, written on node and its root, and on no node of another set |
| Components.ComponentMapUnique | graph/connectivity.py:102-157 | two maps meeting the component-map conditions are equal with equal counts, so both variants return the identical result |
| Closure.ToMatrix | graph/connectivity.py:162-174 | a square matrix whose entry (i, j) is set exactly when j is in i's list |
| Closure.Row | graph/connectivity.py:170-172 | row `node` has entry j set exactly when j is in node's list |
| Closure.MatrixPaths | graph/connectivity.py:162-174 | a path of matrix entries from i to j exists exactly when the graph has a walk of at least one edge from i to j |
| Closure.Round | graph/connectivity.py:182-185 | the in-place round k equals the reference step: entry (i, j) becomes (i, j) or both (i, k) and (k, j) |
| Closure.Warshall | graph/connectivity.py:177-186 | the result is the closure: entry (i, j) is set exactly when a non-empty path of entries leads from i to j, and no set entry is cleared |
| Closure.WarshallUndirected | graph/connectivity.py:189-199 | on a mirrored matrix, the same closure as warshall, and the result is still mirrored |
| Closure.Gather | graph/connectivity.py:254-258 | the list for root x holds x and, ascending, every later node its closure row marks; the counter grows by the list's length and exactly those nodes become visited |
| Closure.Components | graph/connectivity.py:243-261 | on a closed matrix of an equivalence: one list per class in the order of the classes' least nodes, each that least node followed by the rest of its class ascending |
| Closure.ComponentsFromMatrix | graph/connectivity.py:234-262 | the matrix is left holding its Warshall closure Upto(a, n), which Closure.Warshall shows is set exactly where a path of at least one edge joins the ends; one list per class of that closure, in the order of their least nodes, each the class of that least node in ascending order |
| Closure.Partition | graph/connectivity.py:241-262 | every node lies in the list of its class's least node, and that list holds exactly the nodes joined to it by a path |
| SpanningTree.ToTree | graph/connectivity.py:265-305 | ids number every node by its search, the k-th search rooted at its least node, which reaches the search; no walk climbs to a later search; in a symmetric undirected graph equal ids mean connected; each queued edge (u, y) is an edge of g whose end y lies on the open search path to u and is not u's search father; links from node 0 to later roots, then removals in queue order; in a symmetric graph node 0 reaches every node afterwards, and without parallel edges the result is a tree |
| SpanningTree.Prune | graph/connectivity.py:304-305 | the queued edges are removed in order, stopping at the first removal that raises and keeping the lists as that removal left them; in a symmetric graph none raises and every count drops by the hits on it |
| SpanningTree.Make | graph/connectivity.py:269-284 | one call of __make: node takes the search's number and its father; every node it newly numbers is reached from node, and all but node get a father; earlier numbers, fathers and queued edges are kept; every successor of a closed node is its father or child, the other end of a queued edge, or a closed node that does not list it back |
| SpanningTree.Finish | graph/connectivity.py:286-301 | once every node is numbered, the numbering is a search map and every queued edge lies within one search |
| SpanningTree.Connected | graph/connectivity.py:294-305 | after the links and the removals of the queued edges, node 0 reaches every node |
| SpanningTree.TreeShape | graph/connectivity.py:265-305 | in an undirected symmetric graph without parallel edges, the lists left by to_tree hold exactly the edges between each node and its search father or, for a later root, node 0, once in each direction |
| SpanningTree.ToTreeAsWritten | graph/connectivity.py:294-305 | to_tree as written: IndexError on the empty graph, AttributeError as soon as a node is not reached from node 0, no other error; when it does return, the map is a search map with the single root 0, every node numbered 1 and reached from 0 |
| SpanningTree.TwoIslands | graph/connectivity.py:294-301 | two nodes and no edge: a symmetric graph in which node 1 is not reached from node 0, so to_tree as written raises where the corrected one links node 1 to node 0 |
| Strong.Reverse | graph/strong_connectivity.py:5-12 | a directed graph on the same nodes with, for every pair, as many entries y -> i as g has i -> y |
| Strong.ReversalBack | graph/strong_connectivity.py:9-12 | reversing is its own inverse: g is the reversal of its reversal |
| Strong.ReversedReach | graph/strong_connectivity.py:9-12 | a walk a to b in the reversed graph exists exactly when g has one from b to a |
| Strong.DfsSuff | graph/strong_connectivity.py:27-32 | x is appended after everything it newly marks, the earlier finishing order is kept as a prefix, and the finishing-order invariants are kept |
| Strong.SuffixOrder | graph/strong_connectivity.py:34-39 | every node appears exactly once, in an order in which a node finishes after all it reaches unless those were finished before |
| Strong.Assign | graph/strong_connectivity.py:20-24 | the search on the reversed graph numbers x and only nodes reachable from x, and leaves no numbered node with an unnumbered successor |
| Strong.Kosaraju | graph/strong_connectivity.py:15-51 | ids in 1..count, each used, count at most order, two nodes sharing an id exactly when each reaches the other |
| Strong.ReverseAsWritten | graph/strong_connectivity.py:5-12 | reverse as written returns nothing |
| Strong.KosarajuReverseNone | graph/strong_connectivity.py:42-51 | with only the deque test corrected, AttributeError on any graph with a node (the first search reads the lists of None) and ([], 0) on the empty graph |
| Strong.KosarajuAsWritten | graph/strong_connectivity.py:46 | kosaraju as written raises AttributeError on every graph, the empty one included |
| Tarjan.Visit | graph/strong_connectivity.py:59-86 | after the call x is indexed; the returned value is at most x's index; when it equals x's index the stack is as before and x's component is numbered, otherwise x stays stacked above the old stack and reaches a stacked node of that index |
| Tarjan.PopComponent | graph/strong_connectivity.py:78-84 | the nodes from x to the top leave the stack, take the next component number, and have their index set to the order; every other node keeps its number and index |
| Tarjan.RegionScc | graph/strong_connectivity.py:77-84 | when x is a root, the nodes on the stack from x upward are exactly the nodes mutually reachable with x |
| Tarjan.Tarjan | graph/strong_connectivity.py:54-102 | ids in 1..count, each used, count at most order, two nodes sharing an id exactly when each reaches the other |
| Tarjan.PartitionsAgree | graph/strong_connectivity.py:15-102 | any two numberings meeting that condition group the nodes alike and have the same count, so Tarjan and Kosaraju agree |
| Order.InDegrees | graph/order.py:10-12 | the count of node v is its number of occurrences in all lists, parallel edges and loops included |
| Order.Sources | graph/order.py:15-19 | the nodes of in-degree 0, ascending |
| Order.Release | graph/order.py:26-30 | one expansion gives the counts and the list of the reference walk Lowered/Freed over the expanded node's list: each entry lowers its count in turn, and the entries whose count reaches 0 at that entry are appended in list order; the step invariant is kept |
| Order.NoOrder | graph/order.py:24-25 | when every unplaced node still has an unplaced predecessor, no topological order of the graph exists |
| Order.TopologicalOrder | graph/order.py:2-33 | on success a permutation of the nodes in which every edge goes forward, starting with the in-degree-0 nodes ascending; "Graph is cyclic" exactly when no such order exists |
| Traversal.Search | graph/traversal.py:9-24 | the corrected search records a breadth-first tree from src; when it reports dst found, dst is in the tree and differs from src; when not, dst is src or unreachable |
| Traversal.Climb | graph/traversal.py:28-34 | reading fathers back from dst gives a walk of exactly dst's level, ending at dst and starting at a successor of src |
| Traversal.Bfs | graph/traversal.py:5-36 | IndexError exactly when src is not a node; [] exactly when dst is src or unreachable; otherwise a walk from src to dst, src excluded, and no shorter walk exists |
| Traversal.DfsAux | graph/traversal.py:43-54 | a found path is a walk from src to dst listed backwards; an empty result leaves every newly marked node's successors marked and different from dst |
| Traversal.Dfs | graph/traversal.py:39-64 | IndexError exactly when src is not a node; a non-empty result exactly when a walk of at least one edge leads from src to dst, and then it is such a walk, src first |
| Traversal.BfsAsWritten | graph/traversal.py:16 | bfs as written returns [] for every node src, and IndexError otherwise |
| Traversal.SearchFatherOverwritten | graph/traversal.py:16-24 | with only :16 corrected, dst is found exactly when it is in src's list, its father is then src, and src keeps its mark exactly when no loop on src comes before dst in the list |
| Traversal.BfsFatherOverwritten | graph/traversal.py:5-36 | with only :16 corrected: [] exactly when dst is not in src's list, [dst] when it is, and a climb that never ends exactly when a loop on src precedes dst in the list |
| Traversal.DfsAsWritten | graph/traversal.py:43-64 | dfs as written raises AttributeError exactly when a walk of at least one edge leads from src to dst, and returns [] otherwise |
| Traversal.OneEdge | graph/traversal.py:16-24 | the graph 0 -> 1: 1 is reachable from 0, yet bfs as written returns [] (and dfs as written raises) |
| Traversal.TwoHops | graph/traversal.py:19-23 | the graph 0 -> 1 -> 2: 2 is reachable but not in 0's list, so bfs with only :16 corrected returns [] |
| Traversal.LoopFirst | graph/traversal.py:19-31 | a loop on 0 listed before 0 -> 1: bfs with only :16 corrected never returns |
| Subgraph.BuildSubgraph | graph/subgraph.py:5-41 | IndexError when src names no node (negative src counted from the end); otherwise an undirected tree with edges stored away from node 0 that embeds src's breadth-first tree: src is node 0, nodes come in order of distance, each is at most `distance` edges from src, and every node that close is included |
| Subgraph.Within | graph/subgraph.py:23-39 | the nodes of the result are exactly the nodes within `distance` edges of src |
| Subgraph.Size | graph/subgraph.py:31-34 | the order of the result is the number of nodes within `distance` edges of src |
| Subgraph.OneWay | graph/subgraph.py:39 | the result stores each tree edge in the parent's list only, so once it has two nodes it is not symmetric though flagged undirected |
| Subgraph.BuildSubgraphAsWritten | graph/subgraph.py:9-23 | build_subgraph as written returns the one-node graph for every valid src |
| Subgraph.SubgraphAsWrittenMisses | graph/subgraph.py:23 | when src has a neighbour and the radius is at least 1, the corrected result has at least two nodes while the as-written one has one |
| Eulerian.Visit | graph/types.py:8-31 | the search marks only nodes reached from src; it reports -1 once the odd count passes 2, otherwise the number of newly marked nodes and the odd-degree count among them, a self-loop counting twice |
| Eulerian.Follow | graph/types.py:15-28 | one successor of the loop: a loop on src adds one to its degree; an unmarked successor is searched and its counts added; the marked nodes grow and stay reached from src, and the counts stay the weights of the marked nodes unless the odd count has passed 2 |
| Eulerian.IsEulerian | graph/types.py:4-37 | IndexError on the empty graph; otherwise True exactly when node 0 reaches every node and at most two nodes have odd degree |
| Eulerian.IsEulerianAsWritten | graph/types.py:30 | is_eulerian as written: True exactly when node 0 reaches every node and the halved degrees sum to at most 2 |
| Eulerian.TriangleHalved | graph/types.py:30-37 | the triangle is connected with no odd-degree node, but its halved degrees sum to 3, so the as-written check returns False |
| Coloring.Neighbours | graph/colored.py:8-11 | y is in x's set exactly when an edge joins x and y in either direction |
| Coloring.Check | graph/colored.py:14-19 | True exactly when every pair in the sets has two different colors; False only for a same-color pair; IndexError only when a pair has a node without a color |
| Coloring.NeighbourPairs | graph/colored.py:8-19 | read through the neighbour sets, "all pairs differ" is "every endpoint colored and no edge joins two nodes of one color" |
| Coloring.IsColoredNicely | graph/colored.py:2-19 | with every endpoint colored, True exactly when no edge joins two nodes of one color; otherwise IndexError or False for a real clash; a colored self-loop never gives True |
| Coloring.SharedNeighbours | graph/colored.py:7-11 | with the one shared set, every node's set holds every endpoint of every edge |
| Coloring.IsColoredNicelyAsWritten | graph/colored.py:7-19 | is_colored_nicely as written returns True exactly when the graph has no edge |
| Coloring.TwoColors | graph/colored.py:7 | the single edge 0 - 1 colored 0 and 1 is a proper coloring, which the as-written check rejects |

## Left out

- Edge costs and node labels (`costs`, `labels`, `cost=`): opaque payloads the algorithms never read.
- `dot`, `display`, `load`, `load_weightedgraph`, `save`: text export, graphviz calls and file I/O.
- `find_simple`, `connected_componnent_map_from_edges_simple`, `connected_component_map_from_matrix_simple` and `connected_components_from_map`: each fails as written (inverted loop test, undefined `k`, a count per row, a single inner list) and the other variants cover the same behaviour.
- Python's recursion-depth limit: recursion is modelled without a bound.
- Negative node numbers, which Python subscripts from the end, are modelled only for `build_subgraph`'s src and for the write find makes from a root. Elsewhere nodes are naturals, as below.
- Traversal.Bfs: src and dst are naturals, so a negative src, which Python would accept from the end, is not modelled.
- Traversal.Dfs: the same, for a negative src.
- UnionFind.UnionFindAll: pairs of naturals only; a pair with a negative node, which Python would subscript from the end, is not modelled.
- Components.ComponentMapIterative: the same restriction to pairs of naturals.
- Components.ComponentMapRecursive: the same restriction to pairs of naturals.
- UnionFind.Find: takes a forest and an in-range node, as union_find always passes; IndexError for an out-of-range pair is modelled at UnionFindAll.
- UnionFind.Union: the same, in-range nodes of a forest.
- UnionFind.UnionSimple: the same, in-range nodes of a forest.
- UnionFind.FindAsWritten: the same, a forest and an in-range node.
- Closure.Warshall: takes no `order` argument and closes the whole matrix, as every caller passes its length; a smaller `order` would close only the leading block, and a larger one would raise IndexError.
- Closure.WarshallUndirected: the same `order` simplification, and the matrix is taken to be mirrored, the matrix of an undirected graph its docstring assumes.
- Closure.ComponentsFromMatrix: only for a mirrored matrix. On other matrices the counter at connectivity.py:258 counts appended nodes, not components, so lists can overlap and nodes can be missed: for 0 -> 2 and 1 -> 2 on four nodes the result is [[0, 2], [1, 2]], with node 2 twice and node 3 nowhere.
- Coloring.IsColoredNicely: Python visits a set in an order the model leaves open, so when some endpoint has no color the contract allows either IndexError or False for a real clash, whichever pair comes first.
- Coloring.Check: the same open iteration order.
- SpanningTree.ToTree: the tree shape is proved for undirected symmetric graphs without parallel edges; for other graphs the contract gives the exact number of entries left per pair, not a tree.
- SpanningTree.ToTreeAsWritten: it does not say which fully reached graphs queue an edge, only that such a graph raises.
- Traversal.BfsFatherOverwritten: the climb that never ends is reported as the value `Forever` rather than as a loop.

## Findings

| source | as written | input that shows it | evidently intended | confidence | as-written member | corrected member |
|---|---|---|---|---|---|---|
| graph/connectivity.py:29 | `node, fathers[node] = fathers[node], root` rebinds `node` before the subscript, so the entry written is that of node's father and the loop stops after one step; from a root it writes `fathers[fathers[root]]`, counted from the end | fathers [-1, -1, -1], find(0): the last entry becomes 0 and node 2 joins node 0's set | relink every node of the walk to the root | not executed | UnionFind.FindAsWritten, UnionFind.FindAsWrittenMerges | UnionFind.Find |
| graph/connectivity.py:301 | `self.addedge` and `self.removeedge` (:305) do not exist, so AttributeError | two nodes, no edge: node 1 opens a second search and the link raises | `add_edge`, `remove_edge` | not executed | SpanningTree.ToTreeAsWritten, SpanningTree.TwoIslands | SpanningTree.ToTree |
| graph/strong_connectivity.py:9-12 | `reverse` has no return, so it returns None | any graph | `return revG` | not executed | Strong.ReverseAsWritten, Strong.KosarajuReverseNone | Strong.Reverse |
| graph/strong_connectivity.py:46 | `deque` has no `isempty`, so AttributeError | any graph, the empty one included | loop while the deque is not empty | not executed | Strong.KosarajuAsWritten | Strong.Kosaraju |
| graph/traversal.py:16 | `while not q` never runs, since q holds src | directed 0 -> 1, bfs(0, 1): [] though 1 is reachable | `while q` | not executed | Traversal.BfsAsWritten, Traversal.OneEdge | Traversal.Bfs |
| graph/traversal.py:19 | the father is overwritten before the test at :22, so nothing is queued, and a loop on src makes src its own father | 0 -> 1 -> 2, bfs(0, 2) gives []; a loop on 0 listed before 0 -> 1, bfs(0, 1) never returns | record the father on first discovery only | not executed | Traversal.SearchFatherOverwritten, Traversal.BfsFatherOverwritten, Traversal.TwoHops, Traversal.LoopFirst | Traversal.Search, Traversal.Bfs |
| graph/traversal.py:47 | `return True`, and `append` (:52) and `reverse` (:63) return None, so a found path ends in AttributeError | directed 0 -> 1, dfs(0, 1) raises | return the path lists | not executed | Traversal.DfsAsWritten, Traversal.OneEdge | Traversal.Dfs |
| graph/subgraph.py:23 | `while not queue` never runs, so the result is always the one-node graph | edge 0 - 1, distance 1 from 0: node 1 is left out | `while queue` | not executed | Subgraph.BuildSubgraphAsWritten, Subgraph.SubgraphAsWrittenMisses | Subgraph.BuildSubgraph |
| graph/types.py:30 | `degree // 2` adds half of each degree instead of its parity | the triangle: no odd degree, yet the halves sum to 3 and the answer is False | `degree % 2` | not executed | Eulerian.IsEulerianAsWritten, Eulerian.TriangleHalved | Eulerian.IsEulerian |
| graph/colored.py:7 | `[set()] * self.order` shares one set, so every node meets itself as a neighbour | edge 0 - 1 colored 0 and 1: False | one set per node | not executed | Coloring.IsColoredNicelyAsWritten, Coloring.SharedNeighbours, Coloring.TwoColors | Coloring.IsColoredNicely, Coloring.Neighbours |
