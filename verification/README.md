# Adjacency-matrix graphs

A model of a small C++ graph library (`lab2.cpp`). A graph has a vertex
count `n` and an `n × n` integer adjacency matrix in which 0 means "no edge"
and any other value is an edge of that weight. The library offers three
graph classes that share the vertex operations and differ in how they write
edges:

- a directed graph writes the single cell `[u][v]`;
- an undirected graph writes `[u][v]` and `[v][u]`;
- a weighted graph writes edges exactly as the directed one does.

Vertex operations signal bad input with exceptions: `invalid_argument` for a
negative vertex count, `out_of_range` for a bad removal index. Edge
operations silently ignore an endpoint out of range. The model keeps this
asymmetry.

The model is in five modules:

- `Matrices` (`matrices.dfy`) gives the value-level meaning of the matrix
  operations. `Zeros` is construction, `Grow` appends a vertex, `Drop`
  removes one and renumbers the later vertices, and `Put` writes one cell.
  The append-then-remove-last round trip is proved here.
- `AdjacencyLists` (`adjacency.dfy`) gives the adjacency-list projection
  `AdjListOf`. It is characterized exactly: list `i` holds the pairs
  `(j, m[i][j])` for the nonzero cells of row `i`, in increasing `j`. A proof
  shows the projection loses nothing: the matrix can be rebuilt from it.
- `Graphs` (`graphs.dfy`) holds the `Graph` class. It has the fields `n` and
  `adj` that the methods update in place, and a `kind` tag that replaces the
  C++ subclasses and their virtual `add_edge`/`remove_edge`. Each method is
  proved against the functions above. The class invariant `Valid()` says the
  matrix is `n × n` and that an undirected graph's matrix is symmetric. Every
  operation preserves it. `EdgeWrite` is the edge policy of each kind.
- `Demos` (`demos.dfy`) replays the call sequences of the demonstration
  driver as verified methods on the class and proves the state each one
  ends in. The directed demonstration ends with three edges, (1,2), (1,3) and (2,4). After vertex 1
  is removed, the call `remove_edge(2, 3)` hits a cell that is already empty,
  so it removes nothing.
- `RandomGraphs` (`random_graphs.dfy`) holds the Erdős–Rényi generators. The
  random source is abstracted into parameters (see "Left out").

Every `Graph` method requires `Valid()` and keeps it true.
`Graphs.Graph.Create` and `RemoveVertex` return the C++ exceptions as error
values (`Result`, `Outcome`). On failure the state is unchanged.

## Model

| member | source | states |
|---|---|---|
| `Matrices.Zeros` | lab2.cpp:13-16 | the initial matrix is `n × n`, all zero (and so symmetric) |
| `Matrices.Grow` | lab2.cpp:18-24 | adding a vertex gives an `(n+1) × (n+1)` matrix: every old cell is unchanged, the new last row and last column are zero, and symmetry is preserved |
| `Matrices.Drop` | lab2.cpp:30-34 | removing vertex `v` gives an `(n-1) × (n-1)` matrix whose cell `(i, j)` is old cell `(i + (i>=v ? 1 : 0), j + (j>=v ? 1 : 0))`; symmetry is preserved |
| `Matrices.Put` | lab2.cpp:71 | a single cell assignment changes that cell and no other |
| `Matrices.GrowThenDropLast` | lab2.cpp:18-35 | appending a vertex and then removing vertex `n` restores the matrix exactly |
| `Matrices.GrowThenDropKeepsNewVertex` | lab2.cpp:18-35 | removing an earlier vertex after an append is no round trip: the result is the old matrix with that vertex removed, plus the new empty vertex at the end |
| `AdjacencyLists.Neighbours` | lab2.cpp:43-47 | the scan of one row lists exactly the pairs `(j, row[j])` with `row[j] != 0` among the scanned cells |
| `AdjacencyLists.NeighboursAscending` | lab2.cpp:43-47 | the scan lists neighbours in strictly increasing order |
| `AdjacencyLists.AdjListOf` | lab2.cpp:40-50 | there is one list per vertex; list `i` holds exactly the pairs `(j, m[i][j])` for nonzero `m[i][j]`, in increasing `j` |
| `AdjacencyLists.WeightOfNeighbours` | lab2.cpp:43-47 | looking up neighbour `j` in the scan's list gives back `row[j]` (0 when absent) |
| `AdjacencyLists.AdjListIsLossless` | lab2.cpp:40-50 | the matrix can be rebuilt from its adjacency lists |
| `Graphs.EdgeWrite` | lab2.cpp:69-115 | with both endpoints in range, the edge write sets `[u][v]`, and also `[v][u]` for an undirected graph; every other cell is unchanged; with an endpoint out of range nothing changes; an undirected write keeps the matrix symmetric |
| `Graphs.RemoveUndoesAdd` | lab2.cpp:69-115 | removing an edge that was added to empty cells restores the matrix |
| `Graphs.OneWayEdgesAreIndependent` | lab2.cpp:105-109 | in a directed or weighted graph, writing `(i, j)` and then `(j, i)` leaves each direction with its own weight |
| `Graphs.Graph.constructor` | lab2.cpp:13-16 | a graph of `v >= 0` vertices has `n == v` and an all-zero `v × v` matrix |
| `Graphs.Graph.Create` | lab2.cpp:13-16 | a negative vertex count fails with `InvalidArgument`; otherwise the result is the fresh empty graph of that size |
| `Graphs.Graph.AddVertex` | lab2.cpp:18-24 | the method increments `n` and sets the matrix to `Grow` of the old one |
| `Graphs.Graph.RemoveVertex` | lab2.cpp:26-35 | an index outside `[0, n)` fails with `OutOfRange` and changes nothing; otherwise `n` drops by one and the matrix becomes `Drop` of the old one |
| `Graphs.Graph.AddEdge` | lab2.cpp:69-109 | the method leaves `n` unchanged and applies `EdgeWrite` of the graph's kind with weight `w` (default 1) |
| `Graphs.Graph.RemoveEdge` | lab2.cpp:75-114 | the method leaves `n` unchanged and applies `EdgeWrite` of the graph's kind with weight 0 |
| `Graphs.Graph.ConvToAdjList` | lab2.cpp:40-50 | the row-major nested loop builds exactly `AdjListOf` of the matrix, and the graph is not changed |
| `Demos.DirectedDemo` | lab2.cpp:196-205 | the directed demonstration ends with an `8 × 8` matrix whose only nonzero cells are (1,2), (1,3) and (2,4), each of weight 1 |
| `Demos.RemovingVertexOne` | lab2.cpp:204 | in that demonstration, removing vertex 1 drops edge (0,1) and moves (2,3), (2,4), (3,5) to (1,2), (1,3), (2,4) |
| `Demos.UndirectedDemo` | lab2.cpp:209-213 | the undirected path 0-1-2-3 plus one vertex is a `5 × 5` matrix holding both directions of each path edge and nothing else |
| `Demos.WeightedDemo` | lab2.cpp:217-222 | the weighted demonstration's adjacency lists are 0 → [(1,5)], 1 → [], 2 → [(3,7)], 3 → [] |
| `Demos.WeightedDemoLists` | lab2.cpp:222 | a 4-vertex matrix with only (0,1) = 5 and (2,3) = 7 has exactly those adjacency lists |
| `RandomGraphs.GenerateDirected` | lab2.cpp:144-158 | for each ordered pair `i != j`, the cell is 1 exactly when that pair's test succeeds; the diagonal stays 0 |
| `RandomGraphs.GenerateUndirected` | lab2.cpp:160-172 | for each pair `i < j`, both cells are 1 exactly when that pair's single test succeeds; the diagonal stays 0 |
| `RandomGraphs.GenerateWeighted` | lab2.cpp:174-189 | for each ordered pair `i != j` whose test succeeds, the cell holds `minW + roll % (maxW - minW + 1)`; that weight lies in `[minW, maxW]` when `minW <= maxW`; every other cell is 0 |

## Left out

- `display_matrix` (lab2.cpp:52-60) and the weighted override (lab2.cpp:117-139) write to the console and are not modelled. The base version prints all n × n cells, zeros included. The weighted override also lists the nonzero cells in row-major order, which is `AdjListOf` flattened, or prints a "graph is empty" line when there are none.
- `main` (lab2.cpp:192-244): the seeding `srand(time(nullptr))` and all printing are left out. Its call sequences are modelled in `Demos`, except the random graphs built at lab2.cpp:234-241, whose outcome depends on the random source.
- C++ `virtual` dispatch, inheritance and destructors (lab2.cpp:37-38, 62) are replaced by the `kind` tag. `Erdos_Renyi_Model` derives from `Graph` without using it, so the generators are free methods here.
- Integers are unbounded. `n++` and weights do not wrap at 32 bits, and neither does `max_w - min_w + 1`.
- RandomGraphs.GenerateDirected: the C++ random source `rand()` and the floating-point test `(double)rand() / RAND_MAX < p` are abstracted into a parameter `coin(i, j)`, the test's outcome at pair `(i, j)`. The probability `p` itself is not modelled. Note that with `p = 1` a draw equal to `RAND_MAX` still fails the test.
- RandomGraphs.GenerateUndirected: the random test is the same `coin(i, j)` parameter, and `p` is not modelled.
- RandomGraphs.GenerateWeighted: the random test is `coin(i, j)` and the weight draw `rand()` is `roll(i, j)`. The method requires a nonzero divisor `max_w - min_w + 1`, because the C++ code divides by it.
