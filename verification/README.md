# netomaton graph and trajectory helpers, in Dafny

netomaton runs network automata: cellular automata whose neighbour relation is
an arbitrary directed graph. This project models the pure helpers in two of
its library files. They convert a topology into a graph, count degrees,
reshape a trajectory for animation, and write a graph out as vis.js array
literals. It also proves what those helpers promise.

- **Sparse topology** (`Topology`). A connectivity map sends each node to a
  dict from each of its from-nodes to the list of connection states on that
  link. Every state is one connection, so parallel connections are counted.
  The module covers:
  - `get_node_degrees` (`NodeDegrees`, with `RowDegrees` for one row), which
    fills the in-degree and out-degree tables;
  - `connectivity_map_to_nx` (`ConnectivityMapToGraph`, with `RowToGraph` for
    one row and `AddParallel` for one state list), which adds one edge per
    connection state.

  The lemmas tie the degree tables to independent reference counts over the
  map and to the graph's edge counts.
- **Dense topology** (`Adjacency`). This is the adjacency-matrix loop shared by
  `plot_network` and `animate_network`: `AdjacencyToGraph`, built from
  `AddRange` for the node loop and `MatrixEdges` and `RowEdges` for the edge
  loop. Every row index becomes a node. There
  is one edge row -> column per non-zero entry, in row-major order.
- **Animation frames** (`Animation`). This is `_reshape_for_animation`
  (`ReshapeForAnimation`, with `Reshape2D` for the two-entry shape):
  - with a one-entry shape, frame i is the trajectory so far, padded with zero
    vectors;
  - with a two-entry shape, every vector is cut into rows;
  - its error cases are kept as values of a `Result`.
- **Path configurations** (`Configuration`). This is `configuration_to_nx`
  (`ConfigurationToGraph`; `ConfigurationToGraphFrom` is its outer loop and
  `RelationSteps` its inner loop):
  each relation becomes the path of its consecutive pairs, and every listed
  node becomes a graph node.
- **vis.js literals** (`VisLiteral`, `Decimal`). These are the `nodes` and
  `edges` strings that `get_html` builds (`NodesLiteral` and `EdgesLiteral`),
  including the numbering of repeated self-loops (`EdgeLoop`, the loop over
  the edges with its `self_references` dict). A reader for that exact format lets the contracts say what the
  literal contains: parsing the literal gives back the records it was written
  from.

Supporting modules:
- `Graphs` models the part of networkx's `MultiDiGraph` that the helpers use:
  - nodes in insertion order, where adding a present node does nothing;
  - edges in insertion order, with parallel edges kept.
- `Dicts` models Python dicts as insertion-ordered association lists.
- `Wrappers` holds `Option` and `Result`.

`get_node_degrees` and `connectivity_map_to_nx` disagree about from-nodes
that are not themselves keys of the map, in two cases:
- If such a from-node has only empty state lists, `get_node_degrees` lists it
  with out-degree 0, but `connectivity_map_to_nx` never adds it as a node
  (`Topology.SilentSourceHasNoNode`).
- If it has at least one state, it is a node of the graph, but it has no
  in-degree entry, so looking it up in the in-degree table fails
  (`Topology.UnlistedSourceHasNoInDegree`).

In the dense form, a non-square matrix can make a column index beyond the
last row a node, through an edge (`Adjacency.AdjacencyToGraph`).

## Model

| member | source | states |
|---|---|---|
| Dicts.Bump | netomaton/utils.py:208-211 | An entry that is created at 0 when missing and then increased by n holds its old value plus n. Every other entry is unchanged. The key set gains at most that key. The table's sum grows by n. Keys stay distinct. |
| Topology.RowDegrees | netomaton/utils.py:207-212 | For one row of key k, k's in-degree grows by the row's total number of states. Every other in-degree entry is unchanged. Each from-node gets an out-degree entry, grown by its own number of states. Both table sums grow by the row's total. |
| Topology.NodeDegrees | netomaton/utils.py:201-213 | Every key of the map has an in-degree entry, 0 when nothing flows in. Out-degree entries exist exactly for the from-nodes. Each entry equals an independent count over the map, with duplicate connections counted. Both tables sum to the number of connections. Keys are distinct. |
| Topology.AddParallelNodes | netomaton/utils.py:196-197 | Once the target is a node, the loop over a state list adds the source as a node exactly when the list is not empty. |
| Topology.AddParallelEdges | netomaton/utils.py:196-197 | The loop over a state list adds one edge source -> target per state and no other edge. |
| Topology.AddParallelCounts | netomaton/utils.py:196-197 | That loop raises the target's in-count and the source's out-count by the number of states. |
| Topology.RowToGraphNodes | netomaton/utils.py:195-197 | Once a key is a node, its row adds exactly the from-nodes that have at least one state. |
| Topology.RowToGraphEdges | netomaton/utils.py:195-197 | A row adds, for every pair (from-node, key), as many edges as that link has states. |
| Topology.RowToGraphCounts | netomaton/utils.py:195-197 | A row raises the key's in-count by its total and each from-node's out-count by that from-node's states. |
| Topology.MapGraphValid | netomaton/utils.py:191-198 | The graph lists each node once, and every edge joins two listed nodes. |
| Topology.MapGraphNodes | netomaton/utils.py:191-198 | The nodes are the keys of the map plus the from-nodes with at least one connection state. |
| Topology.MapGraphEdges | netomaton/utils.py:191-198 | There is one edge per connection state. The multiplicity of u -> v is the number of states from u in v's row, parallel edges kept. |
| Topology.MapGraphDegrees | netomaton/utils.py:191-198 | The edges into and out of every node number its connections in the map. |
| Topology.GraphDegreesMatchTables | netomaton/utils.py:191-213 | For every x, the graph's in-count and out-count of x equal `.get(x, 0)` of the tables of `get_node_degrees`. A node may have no entry, and then the count is 0. |
| Topology.SilentSourceHasNoNode | netomaton/utils.py:191-213 | A from-node with only empty state lists, and not a key, has out-degree entry 0 but is not a node of the graph. |
| Topology.UnlistedSourceHasNoInDegree | netomaton/utils.py:191-213 | A from-node with at least one state, and not a key, is a node of the graph and has a positive out-degree entry, but it has no in-degree entry. |
| Graphs.AddNode | netomaton/utils.py:118 | `add_node` leaves the edges alone and appends the node only if it is new. |
| Graphs.AddEdge | netomaton/utils.py:122 | `add_edge` appends one edge, parallel ones kept, and adds both endpoints as nodes. |
| Adjacency.AddRange | netomaton/utils.py:117-118 | The first loop lists the nodes 0 to n - 1, in order, with no edge. |
| Adjacency.RowEdges | netomaton/utils.py:120-122 | The loop over one row keeps every earlier node and edge. It adds only the columns with a non-zero entry as nodes. Every edge it adds starts at that row and ends inside it. |
| Adjacency.RowEdgesCount | netomaton/utils.py:120-122 | One row adds exactly one edge r -> b per non-zero entry b, and none for a zero entry. |
| Adjacency.RowEdgesSorted | netomaton/utils.py:119-122 | The row's edges follow all edges of earlier rows, by increasing column. |
| Adjacency.MatrixEdgesNodes | netomaton/utils.py:119-122 | A column becomes a node when some row has a non-zero entry in it. |
| Adjacency.MatrixEdgesCount | netomaton/utils.py:119-122 | Every non-zero entry gives exactly one edge, and a zero entry gives none. |
| Adjacency.MatrixEdgesSorted | netomaton/utils.py:119-122 | The edges come in row-major order. |
| Adjacency.AdjacencyToGraph | netomaton/utils.py:116-122 | Every row index is a node, listed first and in order. The nodes are exactly the row indices and the columns holding a non-zero entry. The multiplicity of u -> v is 1 if entry [u][v] is non-zero and 0 otherwise. The edges are in row-major order, and the graph is valid. |
| Adjacency.SquareMatrixNodes | netomaton/utils.py:142-148 | For a square matrix the nodes are exactly 0, 1, ..., n - 1, in order. |
| Animation.Chunk | netomaton/utils.py:110 | Cutting a vector into `rows` rows of `cols` values gives rows of that width that laid end to end are the vector again. |
| Animation.Reshape2D | netomaton/utils.py:109-110 | Reshaping succeeds exactly when every vector holds rows * cols values. Then each frame has `rows` rows of width `cols`, and flattening it gives back its vector. Otherwise the result is a size error. |
| Animation.ReshapeForAnimation | netomaton/utils.py:98-112 | Shape length 1, empty trajectory: the reading of activities[0] fails. Wrong width: the assertion fails. Otherwise there is one frame per timestep, frame i is the first i + 1 vectors followed by zero vectors, and the last frame is the whole trajectory. Shape length 2 is the reshape. Any other length raises. |
| Configuration.PairsOfRelation | netomaton/vis/vis_utils.py:11-16 | A relation of m nodes has m - 1 pairs for m >= 1 and none for m = 0. Pair i is relation[i] -> relation[i + 1]. |
| Configuration.RelationStepsNodes | netomaton/vis/vis_utils.py:11-16 | The loop over one relation adds its nodes in order, each only if new, including a lone node. |
| Configuration.RelationStepsEdges | netomaton/vis/vis_utils.py:11-16 | The loop over one relation appends exactly its consecutive pairs, in order. |
| Configuration.ConfigurationNodes | netomaton/vis/vis_utils.py:10-16 | Over the whole configuration, the nodes are those of all relations laid end to end, each once, in order of first occurrence. |
| Configuration.ConfigurationEdges | netomaton/vis/vis_utils.py:10-16 | Over the whole configuration, the edges are the pairs of each relation, relation after relation. |
| Configuration.ConfigurationToGraph | netomaton/vis/vis_utils.py:8-17 | The graph is valid. Its edges are every relation's consecutive pairs, in order. Its nodes are every listed node in order of first occurrence, so a node is in the graph exactly when some relation lists it. |
| Configuration.PairPosition | netomaton/vis/vis_utils.py:10-16 | The pair at position i of relation r is the edge at a fixed position of the graph's edge list: after the pairs of the earlier relations. |
| Configuration.RepeatedPairGivesParallelEdges | netomaton/vis/vis_utils.py:9-16 | A consecutive pair that occurs twice, in one relation or in two, gives at least two parallel edges. |
| Decimal.ParseIntToString | netomaton/vis/vis_utils.py:32 | Reading back `str(i)` gives `i` and leaves the rest, provided the rest does not start with a digit. |
| VisLiteral.EdgeLoopCounts | netomaton/vis/vis_utils.py:35-41 | After the loop, the `self_references` dict has a key exactly for each self-loop that occurs, and its value is that self-loop's number of occurrences. Other edges have no key. |
| VisLiteral.EdgeLoopRecords | netomaton/vis/vis_utils.py:36-43 | Record i has edge i's endpoints. It has a `selfReferenceSize` exactly when edge i is a self-loop, and then the size is 15 + 5k, where k is that self-loop's occurrence number so far. |
| VisLiteral.EntryRoundTrip | netomaton/vis/vis_utils.py:32-43 | Reading back one written `{...}` entry gives the record it was written from and leaves the rest of the text. |
| VisLiteral.ArrayRoundTrip | netomaton/vis/vis_utils.py:32-44 | Reading back `"[" + ",".join(...) + "]"` gives exactly the entries it was written from. |
| VisLiteral.NodesLiteralContents | netomaton/vis/vis_utils.py:32 | The `nodes` literal holds one entry per graph node, in node order, whose id and label are that node. An empty graph gives `[]`. |
| VisLiteral.EdgesLiteralContents | netomaton/vis/vis_utils.py:34-44 | The `edges` literal holds one entry per edge, in edge order. From and to are the edge's endpoints. Only self-loops carry a size, and the k-th occurrence of a self-loop carries 15 + 5k. An edgeless graph gives `[]`. |
| VisLiteral.SelfLoopSizesGrow | netomaton/vis/vis_utils.py:37-42 | Later occurrences of the same self-loop get strictly larger sizes. |

## Left out

- Rendering and animation are not modelled. This covers the matplotlib and networkx drawing calls, the layout choice and its exception in `plot_network`, `animate_network` and `animate_connectivity_map`, and `plot_grid`, `animate` and `animate_plot1D`. They are UI side effects with no result to check.
- `show_network` is not modelled, because it writes a file and opens a browser.
- The constant HTML, CSS and JavaScript template around the two literals in `get_html` is not modelled. It is fixed text with no logic.
- `G.edges` of a networkx `MultiDiGraph` lists edges grouped by source node in node order, with edge keys. The model lists them in insertion order and without keys. The self-loop numbering is per (node, node) key, so which sizes a node's self-loops get does not change.
- Node labels are integers, and matrix entries are reals compared with `!= 0.0`. numpy dtypes are not modelled.
- Animation.Reshape2D: numpy's `-1` dimension inference and ragged trajectories are not modelled. A negative dimension, or a vector of the wrong length, is a size error.
- Animation.ReshapeForAnimation: the result is a sequence of frames rather than a numpy array. In the one-entry branch only the first vector's width is checked, as in the code. A later vector of another width gives frames of mixed widths. numpy either stores these as an object array or rejects them, depending on its version.
- The evolution engine, the rules, the reversible adapter and the model classes are not part of this model. Their sources are not among the files modelled.
- Tests and demos are not modelled, because they exercise the evolution engine.
