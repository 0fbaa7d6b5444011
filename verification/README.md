# Weighted undirected graph and Kruskal's spanning forest

This project models the graph package of JavaTermProject and its Kruskal
minimum-spanning-tree routine, and proves properties of that model.

`WUGraph` is a weighted undirected graph. Self-edges are allowed. It keeps:

- a vertex index from each application key to its `Vertex` record;
- an edge index from each unordered pair of keys to its `Edge` record;
- a list of the vertex records in insertion order.

A `Vertex` holds its key and the list of its incident edges. An `Edge` holds
its two end handles and its weight. `Kruskal.minSpanTree` builds a new graph
with the same vertices. Its work splits logically into the steps below. The
code interleaves them: it creates the disjoint sets first (line 25), then
adds and numbers each vertex inside the same loop that collects its
candidates (lines 30-42), and sorts only after that loop (line 49).

1. It walks every vertex's neighbours and collects each positive-weight edge
   as a candidate (weight, vertex, neighbour), once from each end.
2. It sorts the candidates by weight with a top-down merge sort that is not
   stable: on equal weights the right half's element comes first.
3. It numbers the vertices.
4. It starts a disjoint-set structure with one set per vertex.
5. It keeps each candidate whose ends lie in different sets, merges those two
   sets, and adds the edge to the new graph.

The model has these files:

- `seqs.dfy` (module `Seqs`):
  - sequences standing for the doubly-linked lists;
  - `Without`, which unlinks a node;
  - `Pair`, the unordered key pair that stands for `VertexPair`.
- `graph.dfy` (module `Graph`):
  - the classes `Vertex`, `Edge` and `WUGraph`;
  - the representation invariant `WUGraph.Valid`;
  - one lemma per operation showing that the operation keeps the invariant.

  The invariant says four things:
  - the vertex list and the vertex index agree;
  - each indexed edge sits in the list of each of its ends;
  - no list holds an edge twice;
  - the handshake count holds: the degrees sum to twice the number of edges,
    minus the self-edges, because a self-edge adds one to its vertex's degree.

  Each operation's contract is stated over two abstract views:
  - `Keys()`: the vertex keys in list order;
  - `Weights()`: the map from each unordered pair to its weight.
- `sorting.dfy` (module `Sorting`):
  - `merge` and `mergesort` on arrays;
  - the defining functions `Merged` and `SortedBy`;
  - proofs that both results are sorted and are permutations of their input;
  - the tie rule: on equal weights the right-hand element goes first.
- `forests.dfy` (module `Forests`): walks, connectivity, and forests (link
  lists in which every link joined two vertices not yet connected).
- `unionfind.dfy` (module `UnionFind`): the disjoint sets as a parent array in
  which every entry names its set's root. It covers `find`, `union`, and the
  count of sets.
- `kruskal.dfy` (module `Kruskal`):
  - candidate gathering;
  - vertex numbering;
  - the greedy loop, with its invariant `Spanning`;
  - `MinSpanTree`, which proves four things:
    - the result has the same vertices as the input;
    - its edges are edges of the input, with the same positive weights;
    - those edges form a forest;
    - every positive-weight edge of the input joins two vertices that the
      forest connects. The result therefore spans every component of the
      positive-weight subgraph with fewer edges than vertices.
- `aswritten.dfy` (module `AsWritten`): the edge handles exactly as
  `addEdge` leaves them. It supports the two findings below.

Keys are values of a type parameter `K`. Java compares them with `equals`
and `hashCode`; the model uses equality of `K`. The hash tables
(`HashTableChained`) are modelled by maps. The doubly-linked lists (`DList`)
are modelled by sequences.

## Model

| member | source | states |
|---|---|---|
| Graph.Vertex.constructor | src/graph/Vertex.java:9-12 | a new vertex record holds the key and an empty edge list, so its degree is 0 |
| Graph.Vertex.Degree | src/graph/Vertex.java:14-16 | the degree is the length of the vertex's edge list |
| Graph.Vertex.Key | src/graph/Vertex.java:18-20 | returns the key the record was built with |
| Graph.Edge.constructor | src/graph/Edge.java:10-14 | the new edge has the given two handles and weight |
| Graph.Edge.SetWeight | src/graph/Edge.java:16-18 | the weight becomes `w` and both handles are kept |
| Graph.Edge.GetWeight | src/graph/Edge.java:20-22 | returns the stored weight |
| Graph.Edge.Remove | src/graph/Edge.java:24-33 | the edge is unlinked from the list of each end it names; both handles become null and the weight is kept; with no handles nothing changes |
| Graph.WUGraph.constructor | src/graph/WUGraph.java:24-28 | a new graph satisfies the invariant and has no vertices and no edges |
| Graph.WUGraph.Handshake | src/graph/WUGraph.java:178-191 | in every valid graph the degrees sum to twice the edge count minus the self-edges, since a self-edge adds one to its vertex's degree |
| Graph.WUGraph.VertexCount | src/graph/WUGraph.java:35-37 | the count is the number of keys, which equals the size of the vertex index |
| Graph.WUGraph.EdgeCount | src/graph/WUGraph.java:44-46 | the count is the number of weighted unordered pairs |
| Graph.WUGraph.GetVertices | src/graph/WUGraph.java:60-81 | returns a new array holding exactly the keys, once each, in insertion order |
| Graph.WUGraph.KeysDistinct | src/graph/WUGraph.java:84-104 | the keys of a valid graph are pairwise distinct |
| Graph.WUGraph.AddVertex | src/graph/WUGraph.java:91-104 | a null or existing key leaves the graph unchanged; a new key is appended with an empty edge list; the edges are unchanged and the invariant holds |
| Graph.WUGraph.Attach | src/graph/WUGraph.java:98-102 | appending a new record with a fresh key keeps the invariant, adds the key at the back and gives it an empty list |
| Graph.WUGraph.IndexVertex | src/graph/WUGraph.java:100-102 | the record is appended to the vertex list and indexed under its key |
| Graph.AddVertexKeeps | src/graph/WUGraph.java:91-104 | adding a fresh vertex with an empty list preserves the representation invariant and appends its key |
| Graph.AddVertexCounts | src/graph/WUGraph.java:91-104 | adding a fresh vertex with an empty list preserves the handshake count |
| Graph.WUGraph.IsVertex | src/graph/WUGraph.java:170-176 | true exactly when the key is a vertex |
| Graph.WUGraph.Degree | src/graph/WUGraph.java:185-191 | the length of the vertex's edge list; 0 for a key that is not a vertex |
| Graph.WUGraph.IsEdge | src/graph/WUGraph.java:338-340 | true exactly when the unordered pair is in the edge index, in either argument order; then both are vertices |
| Graph.WUGraph.Weight | src/graph/WUGraph.java:342-350 | the pair's weight, the same in either order; 0 when the pair is not an edge |
| Graph.WUGraph.WeightOf | src/graph/WUGraph.java:342-350 | the weight is the pair's entry in the weight map, or 0 when the pair is absent; an indexed pair joins two vertices |
| Graph.WUGraph.AddEdge | src/graph/WUGraph.java:280-304 | the graph is unchanged unless both keys are vertices. Otherwise the pair's weight becomes `weight` and the vertices are unchanged, so `IsEdge` holds both ways and `Weight` is `weight` both ways. An existing edge keeps its record and lists. A new edge is indexed once and appended to the list of `u` and, unless it is a self-edge, to the list of `v` |
| Graph.WUGraph.Reweigh | src/graph/WUGraph.java:286-288 | re-weighing an indexed edge changes only that pair's weight |
| Graph.WUGraph.Link | src/graph/WUGraph.java:289-301 | a new edge record is created with the weight, indexed under its pair, and appended to the ends' lists; the invariant holds |
| Graph.WUGraph.Insert | src/graph/WUGraph.java:293-301 | indexing and listing a new record keeps the invariant |
| Graph.WUGraph.Append | src/graph/WUGraph.java:295-300 | the edge is appended to the list of `a`, and to the list of `b` when it is a different vertex |
| Graph.WUGraph.IndexEdge | src/graph/WUGraph.java:293-300 | the record is indexed under the pair and appended to both adjacency views |
| Graph.AddEdgeKeeps | src/graph/WUGraph.java:289-301 | adding a new edge between two vertices preserves the representation invariant |
| Graph.AddEdgeCounts | src/graph/WUGraph.java:289-301 | adding a new edge raises the degree sum by two, or by one for a self-edge, keeping the handshake count |
| Graph.AdjAddDegree | src/graph/WUGraph.java:295-300 | after a new edge, the degree of each end, counted once for a self-edge, goes up by one and every other degree is unchanged |
| Graph.WUGraph.RemoveEdge | src/graph/WUGraph.java:318-328 | when the pair is not an edge nothing changes. Otherwise only that pair is dropped from the weights and the index, and the record leaves its ends' lists. Afterwards `IsEdge(u, v)` is false |
| Graph.WUGraph.Unlink | src/graph/WUGraph.java:319-326 | the indexed edge leaves the index and the lists of its ends; the invariant holds |
| Graph.WUGraph.UnindexEdge | src/graph/WUGraph.java:320-322 | the pair leaves the index and the record leaves both adjacency views |
| Graph.WUGraph.Detach | src/graph/WUGraph.java:323-326 | the edge is unlinked from the list of `a`, and of `b` when that is another vertex |
| Graph.RemoveEdgeKeeps | src/graph/WUGraph.java:318-328 | removing an indexed edge from the index and from its ends' lists preserves the representation invariant |
| Graph.RemoveEdgeCounts | src/graph/WUGraph.java:318-328 | removing an edge lowers the degree sum by two, or by one for a self-edge, keeping the handshake count |
| Graph.RemoveEdgeDegree | src/graph/WUGraph.java:323-326 | removing an edge lowers the degree of each of its ends by one and leaves the other degrees unchanged |
| Graph.WUGraph.RemoveVertex | src/graph/WUGraph.java:113-155 | an absent key changes nothing. Otherwise the key leaves the vertex list, keeping the order of the others, and exactly the edges incident on it are removed |
| Graph.WUGraph.RemoveIncidentEdges | src/graph/WUGraph.java:116-137 | the vertex's list becomes empty and the weights lose exactly the pairs that contain it |
| Graph.WUGraph.RemoveIncident | src/graph/WUGraph.java:135-137 | removing the front edge of the list drops exactly its pair and the front of the list |
| Graph.IncidentIff | src/graph/WUGraph.java:122-130 | an indexed pair contains the vertex exactly when its edge is in the vertex's list |
| Graph.RestrictStep | src/graph/WUGraph.java:135-137 | removing one more listed record drops exactly its own pair from the index |
| Graph.RestrictIncident | src/graph/WUGraph.java:116-137 | removing every record in the vertex's list leaves exactly the pairs without the vertex |
| Graph.WUGraph.Unlist | src/graph/WUGraph.java:139-149 | a vertex with no edges leaves the index and the list, with the other keys in order; the edges are unchanged |
| Graph.WUGraph.UnindexVertex | src/graph/WUGraph.java:140-146 | the key leaves the index and the record at position `j` leaves the list |
| Graph.WUGraph.Find | src/graph/WUGraph.java:142-149 | returns the first position of the record in the vertex list |
| Graph.RemoveVertexKeeps | src/graph/WUGraph.java:139-149 | dropping a vertex with an empty list preserves the invariant and removes just its key |
| Graph.RemoveVertexCounts | src/graph/WUGraph.java:139-149 | dropping a vertex with an empty list keeps the handshake count |
| Graph.WUGraph.GetNeighbors | src/graph/WUGraph.java:212-267 | none for a non-vertex or a vertex of degree 0; otherwise two new arrays holding what the walk of the vertex's list collects |
| Graph.WUGraph.Collect | src/graph/WUGraph.java:224-260 | the filled prefixes of the two new arrays are exactly what the walk of the list collects |
| Graph.WUGraph.Seen | src/graph/WUGraph.java:243-249 | true exactly when the key is already among the first `n` collected |
| Graph.WUGraph.Put | src/graph/WUGraph.java:251-254 | appends the key and weight at position `n`, keeping the prefix |
| Graph.CopyOf | src/graph/WUGraph.java:263-264 | a new array holding the first `n` entries |
| Graph.Collected | src/graph/WUGraph.java:227-260 | the walk collects equally many keys and weights, no more than the list length |
| Graph.CollectedStep | src/graph/WUGraph.java:230-259 | each step adds the other handle's key and the edge weight unless that key was collected already |
| Graph.CollectedDistinct | src/graph/WUGraph.java:243-255 | the walk never collects a key twice |
| Graph.CollectedAll | src/graph/WUGraph.java:227-260 | over a valid list the walk skips nothing: entry `i` is the other end and weight of the `i`-th incident edge |
| Graph.NeighborsDistinct | src/graph/WUGraph.java:236-255 | two different edges in one list lead to different other ends |
| Graph.NeighborEdge | src/graph/WUGraph.java:236-240 | an edge in a vertex's list is indexed under the pair of the vertex and its other end |
| Graph.WUGraph.NeighborsOf | src/graph/WUGraph.java:194-201 | lists one distinct neighbour per incident edge, degree many, each with that edge's weight, and every edge at the vertex is listed |
| Sorting.Merged | src/Kruskal.java:91-108 | the merge of two lists is as long as both together |
| Sorting.MergedPermutes | src/Kruskal.java:91-108 | the merge is a permutation of the two inputs together |
| Sorting.MergedSorted | src/Kruskal.java:91-108 | merging two sorted lists gives a sorted list |
| Sorting.MergedBound | src/Kruskal.java:91-108 | a lower bound on both inputs' weights bounds the merge |
| Sorting.MergedFront | src/Kruskal.java:94-100 | the merge starts with the smaller front, and with the right front on a tie or when the left is empty |
| Sorting.MergedTie | src/Kruskal.java:95-98 | on equal front weights the right front goes first |
| Sorting.MergedStep | src/Kruskal.java:94-106 | each step of the three loops takes the element the merge puts next |
| Sorting.TakeLeft | src/Kruskal.java:95-96 | a strictly smaller left front is the next merged element |
| Sorting.TakeRight | src/Kruskal.java:97-98 | otherwise the right front is the next merged element |
| Sorting.MergedRest | src/Kruskal.java:101-106 | once one side is used up, the rest of the merge is the rest of the left then of the right |
| Sorting.Merge | src/Kruskal.java:91-108 | returns a new array holding the merge of the two arrays |
| Sorting.MergeFronts | src/Kruskal.java:94-100 | the first loop fills the output with the merge's prefix until one side is used up |
| Sorting.Drain | src/Kruskal.java:101-106 | a draining loop copies the rest of one side, completing the merge |
| Sorting.CopyRange | src/Kruskal.java:78-85 | a new array holding the given slice |
| Sorting.SortedBy | src/Kruskal.java:72-89 | the merge sort of a list is as long as the list |
| Sorting.SortedBySorted | src/Kruskal.java:72-89 | the merge sort's result is sorted by weight |
| Sorting.SortedByPermutes | src/Kruskal.java:72-89 | the merge sort's result is a permutation of its input |
| Sorting.Mergesort | src/Kruskal.java:72-89 | the result holds the merge sort of the input; an input shorter than two is returned itself |
| UnionFind.Identity | src/Kruskal.java:25 | every element starts as its own root |
| UnionFind.IdentityRoots | src/Kruskal.java:25 | the starting structure names roots only and has `n` sets |
| UnionFind.Find | src/Kruskal.java:59-60 | the result is one of the roots in use, its own parent, and shared by exactly the elements of the same set as `x` |
| UnionFind.Union | src/Kruskal.java:63 | merging two different roots: the entries still name roots; two elements share a root exactly when they did or lay in the two merged sets; there is one set fewer |
| UnionFind.RelabelRooted | src/Kruskal.java:63 | relabelling one root's set to another root keeps every entry naming a root |
| UnionFind.RelabelSame | src/Kruskal.java:63 | after relabelling, two elements share a label exactly when they did or lay in the two merged sets |
| UnionFind.RelabelRoots | src/Kruskal.java:63 | relabelling drops exactly the merged root from the set of roots |
| Forests.AcyclicGrow | src/Kruskal.java:62-64 | a link between two vertices not yet connected keeps the links a forest |
| Forests.AcyclicSimple | src/Kruskal.java:62-64 | forest links join distinct vertices, and no pair twice |
| Kruskal.Positive | src/Kruskal.java:35 | true exactly when the pair is an edge of positive weight |
| Kruskal.Picked | src/Kruskal.java:34-41 | the candidates taken from the first `i` neighbours are at most `i` |
| Kruskal.PickedFromGraph | src/Kruskal.java:34-41 | over a neighbour list of the graph every candidate is an edge of the graph with its positive weight |
| Kruskal.PickedHas | src/Kruskal.java:35-39 | every neighbour joined by a positive-weight edge yields its candidate |
| Kruskal.Scan | src/Kruskal.java:34-41 | the loop over one vertex's neighbours yields exactly the picked candidates |
| Kruskal.Store | src/Kruskal.java:36-39 | the candidates are written after the first `at` entries, which are kept |
| Kruskal.NeighboursListed | src/graph/WUGraph.java:212-267 | the arrays the neighbour walk returns list every edge at the vertex with its weight, one per list entry |
| Kruskal.IsolatedListed | src/graph/WUGraph.java:220-222 | a vertex of degree 0 has no edges, so an empty neighbour list is complete |
| Kruskal.CoverStep | src/Kruskal.java:30-42 | the candidates of one more vertex cover every positive edge at it and keep earlier coverage |
| Kruskal.GatherStep | src/Kruskal.java:30-42 | after one more vertex the candidates are still from the graph, bounded by the degree sum, and cover each vertex seen |
| Kruskal.Visit | src/Kruskal.java:33-41 | one vertex's candidates are written after position `edgeIndex`, the entries before it are kept, and the gathering invariant holds for one more vertex |
| Kruskal.Gather | src/Kruskal.java:30-42 | after all vertices, the candidates fit the `2·edgeCount` array, come from the graph, and cover every positive-weight edge |
| Kruskal.SortedCandidates | src/Kruskal.java:23-49 | the sorted array is the merge sort of candidates that cover every positive-weight edge and come from the graph |
| Kruskal.DenseSnoc | src/Kruskal.java:32 | numbering one more key with the next number keeps the numbering dense |
| Kruskal.DenseAt | src/Kruskal.java:53-58 | a numbered key's number is its position in the vertex list |
| Kruskal.AddNumbered | src/Kruskal.java:31-32 | the next key is added to the tree graph after the keys before it and numbered by its position; the tree stays edgeless and valid |
| Kruskal.AddVertices | src/Kruskal.java:30-32 | a new tree graph holding exactly the vertex list, with no edges and each key numbered by its position |
| Kruskal.LabelOfKey | src/Kruskal.java:59-60 | a key at two positions carries one set |
| Kruskal.JoinedLabel | src/Kruskal.java:62-64 | after the merge the ends of every link, old or new, are in one set |
| Kruskal.WalkLabel | src/Kruskal.java:59-64 | every vertex on a walk of the kept links is in the set of the walk's start |
| Kruskal.MergedToX0 | src/Kruskal.java:62-64 | every vertex of the two merged sets is connected to the first end through the grown links |
| Kruskal.UnionTracks | src/Kruskal.java:62-64 | after the merge, two vertices share a set exactly when the grown links connect them |
| Kruskal.PairsSnoc | src/Kruskal.java:64 | adding an edge to the tree adds its pair |
| Kruskal.PairsOfAcyclic | src/Kruskal.java:62-64 | the links of a forest join pairwise different pairs, one per link |
| Kruskal.SpanningStart | src/Kruskal.java:22-25 | with one set per distinct vertex and no edges, the greedy-loop invariant holds |
| Kruskal.SpanningSame | src/Kruskal.java:62 | skipping a candidate whose ends share a set keeps the invariant and the candidate is connected |
| Kruskal.UnionForest | src/Kruskal.java:62-64 | linking two vertices in different sets keeps the links a forest tracked by the sets, with one set fewer |
| Kruskal.UnionDone | src/Kruskal.java:52-65 | the candidates considered stay connected, and the new one is now connected |
| Kruskal.UnionTree | src/Kruskal.java:64 | the tree's edges stay the links' pairs, each with its positive weight from the input |
| Kruskal.SpanningUnion | src/Kruskal.java:62-64 | taking a candidate whose ends are in different sets keeps the greedy-loop invariant |
| Kruskal.Consider | src/Kruskal.java:53-65 | one candidate keeps the invariant: the sets track connectivity, the links form a forest matching the tree's edges, and every candidate considered so far is connected |
| Kruskal.Greedy | src/Kruskal.java:52-67 | after the sorted candidates the invariant holds with every candidate connected |
| Kruskal.Tree | src/Kruskal.java:25-67 | the new graph has the vertex list as its vertices and satisfies the invariant over all candidates |
| Kruskal.CoveredConnected | src/Kruskal.java:30-67 | an edge of positive weight has its ends connected by the kept links |
| Kruskal.MinSpanTree | src/Kruskal.java:21-70 | the result has the input's vertices and only input edges, with equal positive weights. Its edges form a forest that connects the ends of every positive-weight input edge, with fewer edges than vertices |
| AsWritten.AddEdgeNodes | src/graph/WUGraph.java:290-301 | as the code leaves them, the handles of a new edge name nodes holding the edge record, except a self-edge's `nodeB`; the weight is kept |
| AsWritten.CascadePair | src/graph/WUGraph.java:136 | the cascade names a pair only when both handles hold vertex records |
| AsWritten.CascadeRemovesNothing | src/graph/WUGraph.java:123-137 | for an edge index built by `addEdge`, the cascade of `removeVertex` removes no pair |
| AsWritten.CascadeMissesEdge | src/graph/WUGraph.java:123-137 | one edge between `u` and `v`: removing `u` neither marks the edge nor removes its pair |
| AsWritten.NeighborIsRecord | src/graph/WUGraph.java:231-254 | the neighbour walk reports the edge record for an edge between distinct vertices, and the vertex record for a self-edge, instead of a key |

## Left out

- The hash tables (`HashTableChained`, `Entry`), `DList`, `DListNode` and
  `VertexPair` are not part of this model. They are modelled by maps,
  sequences and unordered pairs (sets of one or two keys). Resizing, hashing
  and node objects are not modelled.
- `set/DisjointSets` is not part of this model. The model uses its contract
  as a value: a parent array in which every entry names its set's root.
  Path compression and union by rank are not modelled. `Union` merges the set
  of `root2` into the set of `root1`.
- Output and exceptions are not modelled:
  - the mismatch warning of `getVertices` cannot arise under the invariant;
  - the exception handler and error print of `removeVertex` are left out.
- Kruskal.MinSpanTree: the model does not prove that the tree has minimum
  weight. It proves a spanning forest built from input edges, with every
  positive-weight edge's ends connected.
- Kruskal.Gather and Kruskal.AddVertices split the single vertex loop of
  `minSpanTree` (lines 30-42). First the candidates of every vertex are
  gathered, then the vertices are added to the tree and numbered. Inside a
  vertex's step, the candidates are first collected and then stored. The
  two halves touch disjoint state, so the result is the same.
- Kruskal.Visit: `getNeighbors` returns null for a vertex of degree 0, and
  `minSpanTree` (line 34) then reads `neighborList` from it. The model
  treats that case as an empty neighbour list, which is what an isolated
  vertex contributes.
- Kruskal.Gather: its contract does not fix the exact candidate list in
  vertex order. It states that the candidates are at most the degree sum,
  come from the graph with their positive weights, and cover every
  positive-weight edge; every property of the tree is proved from these.
- Sorting.Merge: the null checks on the weights (line 95) always hold, because
  every candidate has an integer weight. The model compares the weights only.
- Graph.WUGraph.AddVertex: the key is `Option<K>`, with `None` standing for
  the null key. Keys are compared by value, not by object identity.
- Graph.Edge: an edge handle names the `Vertex` record whose list holds the
  edge, as the design intends. A self-edge's `nodeB` is then the same handle
  as `nodeA`. The handles as the code actually leaves them are modelled
  separately in `AsWritten`; see Findings.
- Integer weights are unbounded; Java's `int` overflow cannot arise, because
  no weight is computed.

## Findings

| source | as written | input that shows it | evidently intended | confidence | as-written member | corrected member |
|---|---|---|---|---|---|---|
| src/graph/WUGraph.java:127-136 | `addEdge` redirects `nodeA`, and `nodeB` unless it is a self-edge, to list nodes whose item is the `Edge` itself. The cascade of `removeVertex` compares those items with the vertex record, then calls `removeEdge` on them, which is not a key pair | vertices `a`, `b` and edge (`a`, `b`); `removeVertex(a)` | every edge incident on the removed vertex is removed too | not executed | AsWritten.CascadeMissesEdge | Graph.WUGraph.RemoveVertex |
| src/graph/WUGraph.java:236-253 | the neighbour reported is the item of the other handle's node. That is the `Edge` record for an edge between distinct vertices, and the `Vertex` record for a self-edge. `minSpanTree` then asks `weight(vertex, record)`, which is 0, so no candidate is kept | vertices `a`, `b` and edge (`a`, `b`) of weight 1; `getNeighbors(a)` | `neighborList` holds the key `b`, with weight 1 | not executed | AsWritten.NeighborIsRecord | Graph.WUGraph.NeighborsOf |
