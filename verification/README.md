# Graph core: vertices, edges and three derived views

This project models the graph core of a small Rust graph library.

- A `Graph` keeps:
  - a map from string keys to vertices;
  - a `directed` flag fixed when the graph is created;
  - an `edge_count` counter.
- A `Vertex` has a string value and an append-only list of edges.
- An `Edge` holds snapshots of its two endpoint vertices and an `f32` weight.
- The graph has two mutators:
  - `add_vertex` inserts the vertex under its value, or replaces the vertex already stored there.
  - `add_edge` appends the edge to the first endpoint's list and, in an undirected graph, to the second endpoint's list too.
- It has three derived views:
  - a dense n×n adjacency matrix of optional weights;
  - an n×m incidence matrix, with one column per distinct unordered endpoint pair;
  - a Compressed Sparse Row (CSR) encoding: a flat neighbour list ended by `None`, plus an array of prefix-sum offsets.

## Modules

Each module is one component of the model.

- `Wrappers` (wrappers.dfy) holds `Option`.
- `Elements` (elements.dfy) holds `Vertex`, `Edge`, `Vertex::new`, `Vertex::add_edge` and `Edge::new`.
  - `Vertex` and `Edge` refer to each other, because an edge holds full vertex snapshots.
  - `Source(e)` and `Target(e)` are the endpoint keys, which is all a graph ever reads of a snapshot.
- `Graphs` (graph.dfy) holds the graph, `new`, `add_vertex` and `add_edge`.
  - `add_edge` returns the graph after the call together with an `Outcome`. The source changes the graph even on some error paths, so both are needed.
  - `EdgeTotal` is the number of stored edges.
  - `Replay` runs a sequence of client calls.
  - `AddEdgeChecked` is the corrected `add_edge`, and `ReplayChecked` runs calls with it; see Findings.
- `KeyOrder` (keyorder.dfy) covers what the views share:
  - the iteration order of the vertex map, passed in as a parameter `order` that lists every key exactly once;
  - the key-to-index map;
  - `Scan`, the sequence of all stored edges in that order.
- `Adjacency` (adjacency.dfy) models `adjacency_matrix` as the source writes it: a left-to-right fold of cell writes. `LastJoin` is an independent reference definition of each cell.
- `Incidence` (incidence.dfy) models `incidence_matrix`:
  - the seen-set deduplication as written (`Dedup`) and its reference `FirstColumns`;
  - the column writes as written and the reference entry `Entry`.
- `Csr` (csr.dfy) models `csr_representation` as two loops, the neighbour pass and the in-place prefix-sum pass, checked against the reference `NeighbourRows`.
- `Demo` (demo.dfy) models the demonstration in `src/main.rs`: an undirected ring A–C–E–B–D–A. As in the program, all five edges are built from the fresh vertices before the first `add_edge`.

## Where the code and its documentation disagree

The model follows the code in each case.

- **`add_edge` in a directed graph.** The doc comment of `add_edge` (src/graph/graph.rs:49-50) says the call fails when either vertex is missing. In a directed graph the code never looks up `vertex2`, so an edge to a missing vertex is accepted (see Findings).
- **Directed self-loops in the incidence matrix.** The doc comment of `incidence_matrix` (src/graph/graph.rs:143-144) says start vertices get `weight` and end vertices get `-weight`. For a self-loop the start and the end are one row, which cannot hold both. The code writes the end row last, so the row keeps `-weight`. `Incidence.IncidenceCells` states this case.

Two further consequences of the code are stated as results of the model rather than as disagreements:

- `Incidence.IncidenceCells`: a column with a zero weight has no nonzero entry.
- `Adjacency.AdjacencyCells`: when several stored edges join the same two keys, the cell holds the weight of the one scanned last.

## Model

| member | source | states |
|---|---|---|
| Elements.NewVertex | src/graph/vertex.rs:24-29 | a new vertex has the given value and an empty edge list |
| Elements.AppendEdge | src/graph/vertex.rs:36-38 | appending keeps the value, grows the list by exactly one, keeps every earlier edge in place and puts the new edge last |
| Elements.AppendEdgeKeepsDuplicates | src/graph/vertex.rs:36-38 | appending is not deduplicated: the same edge appended twice occurs twice more |
| Elements.NewEdge | src/graph/edge.rs:35-41 | both snapshots and the weight are stored as given, with no precondition (a self-loop is accepted); the endpoint keys are the snapshots' values |
| Graphs.New | src/graph/graph.rs:26-32 | a new graph has no vertices, the requested direction and a zero counter |
| Graphs.AddVertex | src/graph/graph.rs:39-41 | the vertex is stored under its own value, replacing any earlier one; every other key, the direction and the counter are unchanged |
| Graphs.AddEdge | src/graph/graph.rs:58-75 | see the row notes below the table |
| Graphs.AddVertexEdgeTotal | src/graph/graph.rs:39-41 | `add_vertex` changes the number of stored edges by the new list minus the replaced list |
| Graphs.AddEdgeEdgeTotal | src/graph/graph.rs:64-74 | a successful call stores one copy (directed) or two (undirected); a failed call stores one copy (undirected, second vertex missing) or none |
| Graphs.ReplayBalanced | src/graph/graph.rs:58-75 | along a run of fresh-vertex and successful edge calls, the counter grows once per edge call and the stored edges keep matching it |
| Graphs.BuiltGraphBalanced | src/graph/graph.rs:66-74 | a graph built from `new` with fresh vertices and successful edge calls stores `edge_count` edges (directed) or `2·edge_count` (undirected) |
| Graphs.DirectedAcceptsDanglingEdge | src/graph/graph.rs:68-73 | as written, a directed graph holding only A accepts A→Z; the stored edge then names a missing key |
| Graphs.UndirectedFailureMutates | src/graph/graph.rs:64-71 | as written, an undirected graph holding only A rejects A–Z naming Z, yet A's list has changed and now holds an edge to a missing key |
| Graphs.AddEdgeChecked | src/graph/graph.rs:58-75 | see the row notes below the table |
| Graphs.ReplayCheckedResolves | src/graph/graph.rs:58-75 | with the corrected call, a graph built from vertices without edges never stores an edge to a missing key, whatever the calls' outcomes, so the matrix views are always defined on it |
| Graphs.AddEdgeKeepsResolved | src/graph/graph.rs:64-71 | when both endpoints are keys, a successful call keeps every stored endpoint a key |
| KeyOrder.KeyOrderLength | src/graph/graph.rs:97-104 | a key order is as long as the vertex map, which fixes the row count of every view |
| KeyOrder.IndexMap | src/graph/graph.rs:97-102 | enumerating the keys gives each key the position where it was met, and every index maps back to its key |
| KeyOrder.ScanIsStored | src/graph/graph.rs:107-108 | iterating the values in key order visits exactly the stored edges |
| KeyOrder.ScanResolves | src/graph/graph.rs:107-110 | if every stored endpoint is a key, every index lookup of the views succeeds |
| KeyOrder.Scan | src/graph/graph.rs:107-108 | visiting the vertices in key order and each list in its own order yields as many edges as the visited lists hold together |
| KeyOrder.ScanCountsEdges | src/graph/graph.rs:107-108 | a scan over a key order has exactly as many entries as there are stored edges |
| KeyOrder.SumLengthsIsEdgeTotal | src/graph/graph.rs:212-229 | summing list lengths over any key order counts every stored edge once, whatever the order |
| Adjacency.WriteEdge | src/graph/graph.rs:109-115 | one edge's writes set its own cell (row of the first endpoint, column of the second) and, when undirected, the mirrored cell to its weight; every other cell is kept |
| Adjacency.WriteAll | src/graph/graph.rs:107-117 | writing the scanned edges in order keeps the table n×n, and a cell that changed holds the weight of some scanned edge that writes it |
| Adjacency.AdjacencyMatrix | src/graph/graph.rs:96-120 | the matrix is n×n; it requires every stored endpoint to be a key, because the source unwraps the lookup |
| Adjacency.WriteEdgeCell | src/graph/graph.rs:109-115 | one edge's writes set exactly the cell from its first to its second endpoint, plus the mirrored cell when undirected |
| Adjacency.WriteAllCell | src/graph/graph.rs:107-117 | after writing a scan, a cell holds the last joining edge's weight, or its starting value when no edge joins it |
| Adjacency.AdjacencyCells | src/graph/graph.rs:96-120 | every cell equals the reference `LastJoin`: the weight of the last scanned edge joining its keys, else `None` |
| Adjacency.LastJoinSome | src/graph/graph.rs:107-117 | a reference cell is present exactly when some scanned edge joins the keys, and then it carries such an edge's weight |
| Adjacency.AdjacencyPresence | src/graph/graph.rs:104-119 | cell (i, j) is `Some` exactly when some stored edge joins key i to key j (either orientation when undirected), and it carries that edge's weight; a zero weight counts as present |
| Adjacency.AdjacencySymmetric | src/graph/graph.rs:113-115 | the undirected matrix is symmetric |
| Incidence.Dedup | src/graph/graph.rs:154-165 | every collected column is the column of some scanned edge |
| Incidence.DedupSeen | src/graph/graph.rs:157-165 | the seen set holds one orientation of exactly the pairs scanned so far |
| Incidence.DedupIsFirstColumns | src/graph/graph.rs:154-165 | the seen-set scan as written collects exactly the reference columns: the first edge of every unordered pair, in scan order |
| Incidence.FirstColumnsOrigin | src/graph/graph.rs:157-163 | every column is the first scanned edge of its pair, with that edge's orientation and weight |
| Incidence.FirstColumnsDistinct | src/graph/graph.rs:160-162 | no two columns share an unordered pair, so A→B and B→A share one column even when directed |
| Incidence.FirstColumnsCover | src/graph/graph.rs:157-165 | every scanned edge's unordered pair has a column |
| Incidence.IncidenceColumnsArePairs | src/graph/graph.rs:154-165 | the matrix's columns are one per distinct unordered pair of stored edges, each in the orientation and with the weight of the pair's first scanned edge |
| Incidence.IncidenceColumns | src/graph/graph.rs:154-165 | the columns the deduplicating scan collects are exactly the reference columns: the first edge of each unordered pair, in scan order |
| Incidence.WriteColumn | src/graph/graph.rs:170-181 | one column's writes put the weight in the source row and then the weight (undirected) or its negation (directed) in the target row, so a self-loop keeps the second write; every other entry is kept |
| Incidence.WriteColumns | src/graph/graph.rs:168-181 | the column writes change no entry outside the written columns and no entry outside a column's two endpoint rows |
| Incidence.IncidenceMatrix | src/graph/graph.rs:145-184 | the matrix has a row per vertex and a column per deduplicated pair; it requires every stored endpoint to be a key |
| Incidence.WriteColumnCell | src/graph/graph.rs:170-181 | one column's writes change only that column, in its endpoint rows, to the reference entry |
| Incidence.WriteColumnsCell | src/graph/graph.rs:168-181 | after all column writes, an entry in an endpoint row of a written column is the reference entry, and every other entry keeps its starting value |
| Incidence.IncidenceCells | src/graph/graph.rs:168-181 | see the row notes below the table |
| Incidence.IncidenceColumnSum | src/graph/graph.rs:168-181 | a column sums to twice its weight (undirected), to zero (directed), or to its single entry (self-loop) |
| Csr.Neighbour | src/graph/graph.rs:216-220 | for an edge stored at a key, the key and the neighbour are the edge's two endpoints, and the neighbour is the key itself exactly for a self-loop |
| Csr.CollectNeighbours | src/graph/graph.rs:212-225 | the first pass lists, vertex by vertex in key order, the other endpoint of each stored edge, and counts each vertex's edges in the slot after its index |
| Csr.PrefixSums | src/graph/graph.rs:227-229 | the in-place pass turns the counts into offsets: slot j is the total list length of the first j vertices |
| Csr.CsrOffsets | src/graph/graph.rs:203-229 | the offsets start at 0, grow by one vertex's list length per step, never decrease, and end at the number of stored edges |
| Csr.CsrNeighbours | src/graph/graph.rs:212-231 | the neighbour list has one present entry per stored edge, vertex i's neighbours in list order from offset i, and a single final `None` |
| Csr.CsrRepresentation | src/graph/graph.rs:200-234 | see the row notes below the table |
| Demo.AddAll | src/main.rs:17-21 | adding fresh vertices for a list of keys stores exactly those keys, each with an empty list, and leaves the other keys alone |
| Demo.RingVertices | src/main.rs:7-21 | the five fresh ring vertices form an undirected graph whose keys are the five names, each stored as `Vertex::new` of its key, with a zero counter |
| Demo.FreshEdges | src/main.rs:24-52 | edges built from the fresh ring vertices before any edge is added join the requested names with weight 1 and hold two edge-less snapshots |
| Demo.Connect | src/main.rs:55-59 | one `add_edge` call with a prepared edge between two different ring vertices is accepted and counted, adds one stored edge to each endpoint, and stores nothing but that edge |
| Demo.ConnectAll | src/main.rs:55-59 | the prepared edges added in turn are all accepted; the counter grows by the number of calls, each vertex gains one edge per call naming it, and only prepared edges are stored, so stored snapshots stay edge-less |
| Demo.RingEdges | src/main.rs:7-59 | the demonstration's five edges, all built before the first `add_edge`, are all accepted; the counter reaches 5, every vertex stores two edges, and every stored edge holds edge-less snapshots |
| Demo.Ring | src/main.rs:7-59 | for any five different names: every list has length 2, every stored edge holds edge-less snapshots, the stored edges number `2·edge_count`, and with the names as key order the CSR offsets are 0, 2, 4, 6, 8, 10 and the neighbour list has 11 entries ending in `None` |
| Demo.Demonstration | src/main.rs:7-59 | the same facts for the program's own keys A..E |

Row notes, for the rows that say so:

- **Graphs.AddEdge.** The call succeeds exactly when the first vertex is a key and, in an undirected graph, the second vertex is a key too.
  - A missing first vertex gives an error naming it and leaves the graph unchanged.
  - In an undirected graph a missing second vertex gives an error naming it, after the first vertex has already stored the edge.
  - The counter grows by one only on success.
  - Each vertex has the edge appended zero, one or two times, and everything else is kept. A self-loop in an undirected graph lands twice in one list.
- **Graphs.AddEdgeChecked.** This is the corrected call. It succeeds exactly when both vertices are keys.
  - On failure the graph is unchanged and the error names the missing key.
  - On success it behaves like `add_edge`.
  - It keeps every stored endpoint a key.
- **Incidence.IncidenceCells.** This gives the value of each entry in terms of the column's pair (v1, v2, w):
  - directed: row v1 holds w and row v2 holds −w;
  - undirected: both rows hold w;
  - a self-loop has a single entry: −w when directed, w when undirected;
  - every other entry is 0.
- **Csr.CsrRepresentation.** The result satisfies the following:
  - `indices` has n+1 entries, starts at 0, never decreases, and `indices[i+1] − indices[i]` is the length of vertex i's list.
  - `indices[n]` is the number of stored edges.
  - `adjacents` has `indices[n] + 1` entries. All are present except the last, which is `None`.
  - Entry `indices[i] + t` is the other endpoint of vertex i's edge t. For a self-loop it is the vertex's own key.

## Left out

- The `display`, `display_adjacency_matrix`, `display_incidence_matrix` and `display_csr_representation` functions only print to the console, so they are not modelled.
- `f32` weights are modelled as reals. NaN, −0.0 and rounding are not modelled, and the graph only copies and negates weights.
- The iteration order of `HashMap` and `HashSet` is not modelled.
  - Every view takes the key order as a parameter that lists every key once.
  - `keys()`, `values()` and both CSR loops use that same order.
  - The seen set is a mathematical set.
- The text of the error messages is not modelled. The error carries the missing key instead.
- `Vec::with_capacity` is a capacity hint with no observable effect, so it is not modelled.
- `Graphs.AddEdge` does not model overflow of the `usize` counter. The counter is an unbounded natural.
- `src/graph/mod.rs` only re-exports the modules, so it is not modelled.
- The `println!` error reporting in `src/main.rs` is not modelled. `Demo.Demonstration` instead proves that no error occurs.
- The snapshots inside an edge are kept in full. The graph never reads their edge lists; the only property about them is that the demonstration's stored snapshots are edge-less, because its edges are all built before the first `add_edge`.

## Findings

| source | as written | input that shows it | evidently intended | confidence | as-written member | corrected member |
|---|---|---|---|---|---|---|
| src/graph/graph.rs:68-73 | in a directed graph `vertex2` is never looked up, so an edge to a missing vertex is stored and counted; `adjacency_matrix` and `incidence_matrix` later unwrap its missing index | directed graph with only A, `add_edge(A→Z)` returns `Ok` | reject an edge whose second vertex is missing, as the doc comment says ("returns an error if either vertex is missing") | not executed | Graphs.DirectedAcceptsDanglingEdge | Graphs.AddEdgeChecked |
| src/graph/graph.rs:64-71 | in an undirected graph the edge is pushed onto `vertex1` before `vertex2` is looked up, so the error path leaves a half-added edge that is not counted | undirected graph with only A, `add_edge(A–Z)` returns an error naming Z, but A's list now holds the edge | look up both vertices before changing anything, so an error leaves the graph unchanged | not executed | Graphs.UndirectedFailureMutates | Graphs.AddEdgeChecked |
