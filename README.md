# PRM path planner core in Dafny

This project models the algorithmic core of a probabilistic-roadmap (PRM) path
planner written in Rust. The planner has these parts:

- an occupancy map read from an RGB image, where black pixels are obstacles;
- a roadmap sampler that connects close, collision-free pairs of points;
- a minimum-spanning-tree reducer (Kruskal over a disjoint-set union, DSU);
- a depth-first path search;
- a nearest-vertex lookup for query coordinates;
- a reader that rebuilds a graph from already-parsed edge records.

Each core source file is one module:

- `Structs` (`structs.dfy`) models `src/structs.rs`.
- `ReadMap` (`readmap.dfy`) models `src/readmap.rs`.
- `NearestVertex` (`nearest_vertex.dfy`) models `src/vertice_mais_proximo.rs`.
- `Dfs` (`dfs.dfy`) models `src/dfs.rs`.
- `PrmGenerator` (`prm_generator.dfy`) models `src/prm_generator.rs`.
- `ReadGraph` (`read_graph.dfy`) models `src/read_graph.rs`.
- `Kruskal` (`kruskal.dfy`) models `src/kruskal.rs`.

Three more modules hold definitions that the Kruskal model needs:

- `EdgeSort` (`edge_sort.dfy`) models the stable `sort_by` on weights.
- `Connectivity` (`connectivity.dfy`) defines undirected walks, components and component labellings.
- `Wrappers` (`wrappers.dfy`) holds `Option` and `Result`.
- `RoundTrip` (`round_trip.dfy`) composes `save_graph_to_csv` with `read_graph`, and says what a graph looks like after it is written out and read back.

How the model represents the source:

- **The graph.** `Structs.Graph` is a class. Its fields `vertices: seq<Point>` and `adj: seq<seq<Edge>>` grow in place. `Valid()` says that there is one list per vertex and that every `to_idx` names a vertex.
- **`add_edge` is directed.** It appends one entry to the source vertex's list and nothing else. The comments at `src/prm_generator.rs:55-57` and `src/read_graph.rs:40` say edges are added in both directions. The code does not do that, and the model follows the code. `Dfs.OneWayEdge` proves the consequence on the lists `[[Edge(1, w)], []]`: vertex 1 is reachable from 0, but 0 is not reachable from 1. `Dfs.OneEdgeGraph` builds those lists with `Graph::new`, two `add_vertex` calls and `add_edge(0, 1, w)`.
- **The missing `get_undirected_edges`.** `kruskal` calls it (`src/kruskal.rs:56`), but `src/structs.rs` defines neither it nor an edge type with `from`/`to`. The model defines `Structs.CanonicalEdges` as the same filter that `save_graph_to_csv` applies. It takes each vertex `u` in index order, then each entry of `adj[u]` in list order, and keeps the entry when `u < to_idx`. `Structs.UndirectedEdge(from, to, weight)` is the edge type this produces.
- **The DSU.** `Kruskal.DSU` is a class whose `parent` field is rewritten by `Find` and `Union`.
  - It also carries a ghost `rank`, with no counterpart in the source. The rank rises strictly along every parent link. This proves that the links form a forest and that `find` terminates.
  - The partition is `Labels()`, the root of each element.
- **Kruskal's result.** `Kruskal.Kruskal` is proved against `Kruskal.Greedy`. `Greedy` is a reference rule: take an edge exactly when its ends are not yet connected by the edges taken so far. Separate lemmas prove that `Greedy` is acyclic and spans the same components as its input, and that over weight-ordered edges no spanning forest weighs less than it. The minimality proof counts light edges: at every weight w, no acyclic set of edges has more edges of weight at most w than the greedy choice, because the greedy edges of weight at most w are the greedy choice over the input's edges of weight at most w, and an acyclic set whose edges another acyclic set connects has no more edges than that set (`Connectivity.ForestRank`); applied both ways to two spanning forests of the same input, it gives them the same size.
- **Geometry.** `Point::dist` is a function parameter `dist: (Point, Point) -> real`.
  - The image is a concrete grid of `u8` triples.
  - `f64::round` rounds halves away from zero, and `as u32` saturates. Both are written out exactly, over `real`.
  - Weights are `real`.
- **Sampling a segment.** `ReadMap.SamplePoint` is the interpolation `start + t * (end - start)` with `t = i / num_steps` of `src/readmap.rs:118-122`. `ReadMap.SampleObstructed` tests sample i and covers the NaN case of zero steps. `PathColliding` is defined over `SampleObstructed`, and `PathCollidingSampled` restates it over `SamplePoint` for one or more steps.
- **Writing a graph out and reading it back does not preserve its canonical edges.** `save_graph_to_csv` writes one row per canonical edge. `read_graph` renumbers the points in order of first appearance and stores each row as one directed edge from its first point. When a row's first point gets the higher new index, the edge read back points to a lower index and is no longer canonical. Vertices with no canonical edge are not written and do not come back. `RoundTrip.RoundTripLoses` gives a three-vertex tree that loses one of its two edges. `RoundTrip.ReadBackVertices` and `RoundTrip.ReadBackEdges` state exactly what does come back.
- **Randomness.** Random draws become a parameter: a finite sequence of candidate points, or the already sampled vertices.

## Model

| member | source | states |
|---|---|---|
| Structs.Graph.constructor | src/structs.rs:36-38 | a new graph has no vertices and no adjacency lists, and is valid |
| Structs.Graph.AddVertex | src/structs.rs:42-47 | returns the old vertex count as the index; appends the point and one empty list; keeps every earlier entry; keeps one list per vertex |
| Structs.Graph.AddEdge | src/structs.rs:51-55 | with both indices in range, appends exactly `Edge(to, w)` to `adj[from]` and changes no other list (so no reverse edge); with either index out of range, changes nothing; the vertices never change and validity is kept |
| Structs.Graph.GetVertex | src/structs.rs:58-60 | `None` exactly when the index is at or past the vertex count; otherwise the stored point |
| Structs.Graph.GetNeighbors | src/structs.rs:63-65 | `None` exactly when the index is at or past the list count; otherwise the stored list |
| Structs.WithVertices | src/kruskal.rs:63-68 | `add_vertex` of every point in order gives a valid graph with exactly these vertices, each with an empty list |
| Structs.CanonicalEdges | src/prm_generator.rs:79-89 | the canonical edge list: for each vertex u in index order, each entry of `adj[u]` with `u < to_idx`, in list order (its properties are the rows below) |
| Structs.ForwardMembers | src/prm_generator.rs:84-89 | an undirected edge is kept from `adj[u]` exactly when it starts at u, points to a higher index, and its entry is in the list |
| Structs.ForwardFrom | src/prm_generator.rs:79-89 | every edge kept from `adj[u]` has source u |
| Structs.CanonicalMembers | src/prm_generator.rs:79-89 | the canonical list holds an edge exactly when its source is a vertex below its destination and has the matching entry |
| Structs.CanonicalOrdered | src/prm_generator.rs:79-89 | every canonical edge has source < destination, and sources never decrease along the list |
| Structs.CanonicalInRange | src/kruskal.rs:56 | in a valid graph both ends of every canonical edge are vertices |
| ReadMap.IsBlack | src/readmap.rs:12-15 | a pixel is black when each of its three channels is below 50 |
| ReadMap.ScanRow | src/readmap.rs:27-33 | the row loop reports true exactly when the row has a non-black pixel |
| ReadMap.ScanColumn | src/readmap.rs:51-57 | the column loop reports true exactly when the column has a non-black pixel in rows y_min..=y_max |
| ReadMap.FindBounds | src/readmap.rs:17-74 | results are below width and height; with no non-black pixel, the defaults (0, 0, width-1, height-1); otherwise y_min and y_max are the first and last non-black rows, x_min and x_max are the first and last non-black columns within those rows, and every non-black pixel lies inside the box |
| ReadMap.IsObstructedPixel | src/readmap.rs:103-110 | a pixel outside the image is an obstacle; a pixel inside is an obstacle exactly when it is black |
| ReadMap.Round | src/readmap.rs:100-101 | the result is within one half of the input, with halves rounded away from zero |
| ReadMap.AsU32 | src/readmap.rs:100-101 | a value in u32 range is kept; a negative value becomes 0; a value above the range becomes the u32 maximum |
| ReadMap.IsObstructed | src/readmap.rs:96-111 | a point is an obstacle when its rounded, saturated pixel lies outside the image or is black |
| ReadMap.ObstructedOnPixel | src/readmap.rs:96-111 | a point standing on a pixel inside the image is an obstacle exactly when that pixel is black |
| ReadMap.SampleEnds | src/readmap.rs:118-123 | the first sample is the start and the last sample is the end |
| ReadMap.PathCollidingSampled | src/readmap.rs:118-127 | with at least one step, a collision means some of the steps + 1 evenly spaced samples is obstructed |
| ReadMap.IsPathColliding | src/readmap.rs:114-130 | true exactly when some sample 0..=steps is obstructed; a negative count checks nothing and gives false; zero steps checks pixel (0, 0), where NaN lands |
| NearestVertex.NearestVertex | src/vertice_mais_proximo.rs:8-39 | out of bounds (upper bounds exclusive) exactly when the bounds test fails; obstructed exactly when in bounds and obstructed; on success with vertices, the index of a closest vertex, strictly closer than every earlier vertex (first minimiser); on success with no vertices, 0 |
| Dfs.CountFalseMark | src/dfs.rs:23 | marking an unvisited vertex lowers the unvisited count by one, which is why the recursion terminates |
| Dfs.CountFalseMonotone | src/dfs.rs:35-36 | marking more vertices never raises the unvisited count |
| Dfs.PathStaysMarked | src/dfs.rs:33-44 | a path that starts in a successor-closed visited set stays in it |
| Dfs.ClosedSetBlocks | src/dfs.rs:33-44 | a successor-closed visited set holding start and not end proves end unreachable |
| Dfs.ClosedAfterCall | src/dfs.rs:35-40 | after a failed recursive call, the vertices marked since the start are still successor-closed, and end is still unmarked |
| Dfs.PrependHead | src/dfs.rs:33-38 | a path found from a successor, placed behind head, is a path from head with no repeated vertex |
| Dfs.Search | src/dfs.rs:20-45 | marks head and never unmarks a vertex; at end, succeeds with path + [head]; on failure, returns path unchanged (push then pop), leaves every newly marked vertex with all its successors marked, and never marks end; on success, appends a repeat-free path from head to end along stored edges, using only vertices that were unmarked before the call |
| Dfs.FoundFromStart | src/dfs.rs:48-49 | a success from an empty accumulator is a path from start to end, so end is reachable |
| Dfs.NothingMarkedBefore | src/dfs.rs:48-52 | a failure from an all-unmarked array shows end is unreachable |
| Dfs.DfsPath | src/dfs.rs:12-53 | `Some(p)` is a repeat-free path along stored directed edges from start to end; `None` exactly when end is unreachable; for start == end the result is `Some([start])` |
| Dfs.PathLeaves | src/dfs.rs:33-36 | a path of two or more vertices leaves its first vertex along a stored edge |
| Dfs.OneWayEdge | src/structs.rs:51-55 | on the lists `[[Edge(1, w)], []]`, 1 is reachable from 0 but 0 is not reachable from 1 |
| Dfs.OneEdgeGraph | src/structs.rs:36-55 | the graph built by `new`, two `add_vertex` calls and `add_edge(0, 1, w)` has the two points, reaches 1 from 0 and never 0 from 1 |
| PrmGenerator.Ceil | src/prm_generator.rs:40 | the least integer at or above its input |
| PrmGenerator.CollisionSteps | src/prm_generator.rs:40 | the step count is between 1 and the i32 maximum; below the maximum it is at least radius/2; above 1 it is the least such integer |
| PrmGenerator.SampleValidPoint | src/prm_generator.rs:13-26 | a returned point is unobstructed and is the first unobstructed draw; `None` exactly when every draw is obstructed |
| PrmGenerator.LinksSound | src/prm_generator.rs:44-60 | every edge of vertex i goes to some j with i < j, has weight dist(v_i, v_j) within the radius, and has a collision-free segment |
| PrmGenerator.LinksComplete | src/prm_generator.rs:44-60 | every j > i within the radius and collision-free gets the edge i → j with weight dist(v_i, v_j) |
| PrmGenerator.LinksIncreasing | src/prm_generator.rs:45 | destinations in a vertex's list strictly increase |
| PrmGenerator.GenerateRandomGraph | src/prm_generator.rs:29-63 | the vertices are the samples in order; each vertex's list is exactly its connection list (sound, complete, increasing by the lemmas above), and no reverse edge is added |
| PrmGenerator.RowsOfAt | src/prm_generator.rs:89-98 | there is one row per canonical edge, and row i holds both end points and the weight of edge i |
| PrmGenerator.RowsOfSnoc | src/prm_generator.rs:89-98 | one more canonical edge appends exactly one row |
| PrmGenerator.RowStep | src/prm_generator.rs:84-99 | one adjacency entry adds a row exactly when u < to_idx |
| PrmGenerator.GraphRows | src/prm_generator.rs:79-101 | the rows written are those of the canonical edge list, in its order: source index first, then list position |
| ReadGraph.IndexOf | src/read_graph.rs:37-38 | the index of a point is the position of its first occurrence |
| ReadGraph.InternedSpec | src/read_graph.rs:37-38 | the interned vertex list has no repeats, contains exactly the points seen, and lists them in order of first occurrence |
| ReadGraph.IndexOfDistinct | src/read_graph.rs:37-38 | in a repeat-free list, the index of the point at position i is i |
| ReadGraph.EndpointsCover | src/read_graph.rs:33-38 | both points of every record are interned |
| ReadGraph.Intern | src/read_graph.rs:37-38 | a known point keeps its stored index and the graph; a new point becomes a new vertex with an empty list; the map keeps sending each point to its own vertex |
| ReadGraph.RecordStep | src/read_graph.rs:41 | one more record adds exactly one edge, from its first point's vertex to its second point's vertex with its weight; it changes no other list |
| ReadGraph.AdjStep | src/read_graph.rs:37-41 | after interning both points and adding the edge, every list equals the record-order edge list of its vertex |
| ReadGraph.AddRecord | src/read_graph.rs:23-41 | one record keeps the whole loop invariant: interned vertices, map consistency, and per-vertex edge lists |
| ReadGraph.EndpointsMembers | src/read_graph.rs:33-38 | a point is interned exactly when some record starts or ends at it |
| ReadGraph.OutEdgesMembers | src/read_graph.rs:37-41 | a vertex's list holds an edge exactly when some record starts at its point; the edge goes to the index of that record's second point, with its weight |
| ReadGraph.ReadGraph | src/read_graph.rs:12-46 | the vertices are the distinct points in order of first occurrence (x1/y1 before x2/y2); vertex u's list holds one directed edge per record starting at its point, in record order; one list per vertex |
| Kruskal.RootOf | src/kruskal.rs:27-34 | the root reached from x is a fixed point of `parent` |
| Kruskal.CompressPreserves | src/kruskal.rs:30-33 | pointing x straight at its root keeps the forest and every element's root |
| Kruskal.LinkRelabels | src/kruskal.rs:47 | linking root b under root a keeps a forest and relabels exactly the members of b's set |
| Kruskal.DSU.constructor | src/kruskal.rs:19-24 | `parent[i] == i` for all i < n, so every set is a singleton |
| Kruskal.DSU.Find | src/kruskal.rs:27-34 | returns x's root; afterwards `parent[x]` is that root and the root is its own parent; no element changes set |
| Kruskal.DSU.Union | src/kruskal.rs:37-50 | false exactly when a and b already share a root, and then the partition is unchanged; true links root b under root a, merging exactly those two sets |
| Kruskal.GreedyEdges | src/kruskal.rs:71-76 | the tree takes only input edges, and keeps the weight order of a weight-sorted input |
| Kruskal.GreedyAcyclic | src/kruskal.rs:71-76 | no taken edge closes a cycle with the edges taken before it |
| Kruskal.GreedySpans | src/kruskal.rs:71-76 | the taken edges connect exactly the vertex pairs the input edges connect |
| Kruskal.TakeStep | src/kruskal.rs:73-75 | an edge's ends carry different roots exactly when the tree does not yet connect them; taking it keeps the roots naming the tree's components and keeps tree size plus component count |
| Kruskal.TakeEdge | src/kruskal.rs:71-76 | one iteration adds the edge exactly when its ends were not connected, and keeps the DSU, tree and output graph in step |
| Kruskal.TakeEdges | src/kruskal.rs:70-76 | the edge loop takes exactly the greedy selection; the DSU labels name its components; tree size plus component count is the vertex count |
| Connectivity.LabelSetSnoc | src/kruskal.rs:81-83 | one more `find(i)` adds exactly i's root to the root set |
| Kruskal.CountRoots | src/kruskal.rs:79-83 | the root set is exactly the set of classes, and the partition is unchanged |
| Kruskal.SortedComponents | src/kruskal.rs:56-87 | components of the greedy tree over the sorted edges are components of the input graph |
| Kruskal.Kruskal | src/kruskal.rs:54-90 | the tree is the greedy selection over the stably sorted canonical edges; it is a spanning forest of the graph and no spanning forest of the graph weighs less; the final roots label the input's components; tree size plus component count is the vertex count; `Err(Disconnected(k))` exactly when k > 1 components remain; on `Ok` with vertices the tree has one edge fewer than the vertex count, the output has exactly the input's vertices, and each taken edge is stored at its `from` end only |
| Kruskal.GreedySpanningForest | src/kruskal.rs:71-76 | the greedy choice uses only input edges, has no cycle and connects the ends of every input edge |
| Kruskal.LightAcyclic | src/kruskal.rs:71-76 | dropping the edges heavier than w from an acyclic list leaves it acyclic |
| Kruskal.GreedyLight | src/kruskal.rs:58-76 | on weight-ordered edges, the taken edges of weight at most w are the greedy choice over the input edges of weight at most w |
| Kruskal.LightRank | src/kruskal.rs:58-76 | at every weight w, a spanning forest has no more edges of weight at most w than the greedy choice over weight-ordered edges |
| Kruskal.GreedyMinimal | src/kruskal.rs:53-76 | over weight-ordered edges, the greedy choice weighs no more than any spanning forest of those edges |
| Kruskal.KruskalMinimal | src/kruskal.rs:53-90 | the greedy choice over the stably sorted canonical edges is a spanning forest of the graph, and no spanning forest of the graph weighs less: the minimum spanning tree the doc comment promises |
| EdgeSort.SortByWeight | src/kruskal.rs:58 | the sort has as many edges as its input (its order, permutation and stability are `SortByWeightSpec`) |
| EdgeSort.InsertMultiset | src/kruskal.rs:58 | inserting an edge adds exactly that edge |
| EdgeSort.InsertWithWeight | src/kruskal.rs:58 | inserting an edge keeps the order of the other edges of its weight and puts it before them |
| EdgeSort.InsertOrdered | src/kruskal.rs:58 | inserting into a weight-ordered list keeps it weight-ordered |
| EdgeSort.SortByWeightSpec | src/kruskal.rs:58 | the sort is weight-ordered, is a permutation of its input, and is stable: the edges of each weight keep their input order |
| EdgeSort.SortedMembers | src/kruskal.rs:58 | sorting keeps exactly the input's edges |
| EdgeSort.SortWeight | src/kruskal.rs:58 | sorting keeps the total weight and the number of edges of weight at most any w |
| EdgeSort.SortedPointwise | src/kruskal.rs:58 | of two weight-ordered lists of one length, the one with at least as many light edges at every weight is lighter position by position |
| EdgeSort.PointwiseWeight | src/kruskal.rs:58 | a list lighter position by position weighs no more in total |
| Connectivity.IdentityComponents | src/kruskal.rs:19-24 | singleton labels name the components of the empty edge set, and there are n of them |
| Connectivity.RelabelCount | src/kruskal.rs:47-48 | merging two different classes removes exactly one label |
| Connectivity.ForestLabels | src/kruskal.rs:71-76 | an acyclic edge list over n vertices has a labelling naming its components, and its edge count plus its component count is n |
| Connectivity.Coarser | src/kruskal.rs:79-85 | a labelling that only merges classes of another has no more labels |
| Connectivity.ForestRank | src/kruskal.rs:71-76 | an acyclic list whose every edge is connected by another acyclic list has no more edges than it |
| Connectivity.MergeStep | src/kruskal.rs:71-76 | an edge between differently labelled vertices was not yet connected, and merging their labels names the components after adding it |
| RoundTrip.Exported | src/prm_generator.rs:79-101 | the records read back from a valid graph's rows: one per canonical edge, in order, holding the points of its two ends and its weight |
| RoundTrip.ExportAndRead | src/prm_generator.rs:70-106 | writing a graph's rows and reading them back with `read_graph` gives the interned endpoints of the exported records as vertices, and their directed edges as lists |
| RoundTrip.ReadBackVertices | src/read_graph.rs:37-38 | the vertices read back are exactly the points at the ends of the canonical edges |
| RoundTrip.ReadBackEdges | src/read_graph.rs:37-41 | read back, vertex u has an edge exactly when a canonical edge runs from u's point; it goes to the new index of that edge's other point, with its weight, and nothing else comes back |
| RoundTrip.RoundTripLoses | src/read_graph.rs:37-41 | for vertices a, b, c with edges 0 → 2 and 1 → 2, the points come back as a, c, b with lists `[[Edge(1, w)], [], [Edge(1, w2)]]`, whose only canonical edge is 0 → 1: the edge between b and c is lost |

## Left out

- File and console I/O are outside the model: image loading (`OccupancyMap::new`), CSV reading and writing, `path_export`, number formatting, `main`, the case files, `read_coord` and the plotting scripts.
- `read_graph`'s CSV parsing and its `?` error returns are left out. The model starts from already-parsed records.
- `Point` derives only `PartialEq` and cannot be a `HashMap` key as written. The model compares points by exact equality.
- Floating point is modelled as exact `real` arithmetic.
  - `Point::dist` is the parameter `dist`.
  - NaN and infinities are not modelled, except for the zero-step case of `is_path_colliding`.
  - The panic of `partial_cmp().unwrap()` on NaN weights is left out.
- NearestVertex.NearestVertex: does not model the initial `f64::MAX` as a number. It models it as "no candidate yet", which differs only for infinite or NaN distances.
- Randomness is replaced by parameters.
  - `sample_valid_point` draws until it succeeds. PrmGenerator.SampleValidPoint scans a finite sequence of draws and returns `None` when they run out.
  - The bounds of the random ranges are not modelled.
  - PrmGenerator.GenerateRandomGraph takes the sampled points as a parameter instead of calling the sampler.
- Dfs.Search: the `&mut Vec` path accumulator is passed in and handed back as a value, not shared by reference.
- Kruskal.Kruskal: on `Err`, the model returns only the component count. The source's message formatting is left out.
- Kruskal.KruskalMinimal: total weights are sums of exact reals. The rounding of an `f64` sum is not modelled; the source never adds weights up.
- `find_bounds` on an empty image underflows `height - 1`. ReadMap.FindBounds requires a non-empty image instead of modelling the panic.
- RoundTrip.ExportAndRead: rows are read back exactly as written. The `{:.2}` and `{:.4}` rounding of the written numbers is not modelled.
- `is_obstructed` ignores `pixel_bounds`, and so does the model.
