# Road-network flagging, modelled in Dafny

`automation_flag.py` is a QGIS script that gives every feature of a line layer
an integer `error` attribute and then runs a series of detectors that write
codes into that attribute:

- `error_field` writes 0 everywhere.
- `no_length` writes 1 where the stored `length` is 0.
- `invalid_geom` is meant to flag invalid geometries.
- `duplicates` writes 1 on every feature whose geometry is GEOS-equal to
  another feature's. It finds candidates through a bounding-box spatial index.
- `islands` builds an undirected graph whose nodes are vertices and whose
  edges are consecutive vertex pairs tagged with their feature id. It labels
  each fid with its connected component (`fid_comp`), counts fids per
  component (`countMap`), and writes 1 on every fid that is alone in its
  component.
- `dangles` is the same classification writing 5. It is commented out of the
  run.

This project models that core:

- The layer is a sequence of features with unique ids (`Layer.Layer`).
- The `error` attribute is a map from fid to code (`Layer.ErrorTable`).
- A Python exception is a `Result` that carries a `PyError`
  (`Outcomes.Result`).
- Lists, and the dict `geoms`, are walked in their order. `geoms` keeps the
  order in which features were inserted (`Duplicates.GeomDict.order`), as a
  Python dict does. This applies to `Duplicates.Scan`, `Duplicates.EqualHits`,
  `Layer.WriteAll` and the first loop of `Pipeline.InvalidGeom`.
- The loops over the edges of each component (`Islands.FidComponents`) and
  over the values of `fid_comp` (`Islands.CountComponents`) pick their next
  element through `Layer.PickOne`, so every enumeration order networkx could
  use is covered. The writes of the isolated fids go through
  `Layer.WriteEach`, also in any order, since writes to distinct fids commute.
- `Pipeline.InvalidGeom`'s loop over `geoms.items()` (line 84) and its write
  loop over `invalid_ft` (line 93) walk insertion-ordered dicts. The model
  takes them in any order. `invalid_ft` is always empty, so neither body ever
  acts, and the order cannot show.
- `Graph.VerticesOf` is `asPolyline()` (line 147): no vertices for a feature
  without geometry, and the chain of its geometry otherwise. The edge
  contracts (`Graph.LayerEdges`, `Graph.ChainHas`) are stated in its terms.

Modules:

| module | file | models |
|---|---|---|
| `Outcomes` | outcomes.dfy | `Option`, `Result` and the Python exceptions that can occur |
| `Geometry` | geometry.dfy | polylines, GEOS equality, bounding boxes |
| `Layer` | layer.dfy | features, the `error` table, `error_field`, `no_length` |
| `SpatialIndex` | spatial_index.dfy | `QgsSpatialIndex.addFeature` and `intersects` |
| `Duplicates` | duplicates.dfy | `duplicates` |
| `Graph` | graph.dfy | the `nx.Graph` built from the chains, reachability and components |
| `Islands` | islands.dfy | `fid_comp`, `countMap`, `islands`, `dangles` |
| `Pipeline` | pipeline.dfy | `invalid_geom` and the detector run |

Behaviour of the code as written that the model keeps:

- **`invalid_geom` never flags anything.**
  - Its first loop adds to `null_features`, a name that function never
    defines. So the first feature without geometry raises `NameError`, and
    that exception ends the run.
  - `invalid_ft` is copied from `geoms` while `geoms` is still empty. Every
    feature is therefore skipped, and nothing is written.
  - `Pipeline.InvalidGeom` states both facts.
- **A geometry with no vertices makes `duplicates` raise.**
  - Such a feature "has geometry", but the model gives a chain without
    vertices no bounding box (`Geometry.BoundingBox`). So it is not entered
    into the index (`SpatialIndex.Build`).
  - The index query then does not return the feature's own id, and
    `candidates.remove(feature_id)` raises `ValueError` at line 125.
  - This rests on how QGIS indexes an empty geometry, which differs between
    QGIS versions (see "Left out").
- **`unique_features` is never shrunk.** The `continue` at line 122 never
  fires, so every feature with a geometry is examined.
- **`nx.Graph` is a simple graph.**
  - When a later chain adds an edge on a vertex pair that is already present,
    it overwrites the edge's `fid` tag rather than adding a second edge.
  - As a result, of two identical single-segment features only the later one
    carries an edge. The later one is flagged as an island and the earlier
    one is not flagged at all (`Islands.LaterTwinOwnsTheEdges`).
  - An edge keeps only the tag of the last chain that added it
    (`Graph.LastFeatureOwnsEdge`).
- **Detector order.** The script runs `no_length` before `duplicates`
  (lines 214-217). Both write code 1, so the order shows only when
  `duplicates` raises: the table it leaves then carries `no_length`'s 1s
  (`Pipeline.RunDetectors`).
- **Chains of fewer than two vertices.** The code accepts them: they add no
  edge and are never islands (`Islands.ShortChainNeverIsolated`).

## Model

| member | source | states |
|---|---|---|
| Layer.ErrorField | automation_flag.py:38-51 | the table has exactly the layer's fids as keys and holds 0 for each |
| Layer.SetError | automation_flag.py:134 | `changeAttributeValue` on one fid sets that fid's code when it is in the table, keeps every other code, and never adds a key |
| Layer.WriteAll | automation_flag.py:131-134 | writing a code for a list of fids sets exactly the listed fids that exist in the table, keeps every other entry, and never adds a key |
| Layer.WriteAllIdempotent | automation_flag.py:131-134 | writing the same list twice gives the same table as writing it once |
| Layer.NoLengthSelection | automation_flag.py:59-60 | the `length = 0` request returns exactly the fids whose stored length is 0; a NULL length is not selected |
| Layer.NoLength | automation_flag.py:56-64 | code 1 on exactly the features with zero length; every other code is kept and the key set is unchanged |
| Layer.SameFidSameFeature | automation_flag.py:110-116 | in a layer two features with the same id are the same feature, so keying dicts by `f.id()` loses nothing |
| Layer.WriteEach | automation_flag.py:164-166 | one `changeAttributeValue` per fid of a set, in any order, sets exactly those fids that exist and keeps the rest |
| Geometry.GeosEqual | automation_flag.py:128 | equal chains are GEOS-equal; GEOS-equal chains have the same number of vertices and the same vertex set |
| Geometry.GeosEqualIsEquivalence | automation_flag.py:128 | the equality test used for duplicates is reflexive, symmetric and transitive |
| Geometry.BoundingBox | automation_flag.py:124 | a chain without vertices has no box; otherwise the box holds every vertex and each side is attained by a vertex |
| Geometry.GeosEqualSameBox | automation_flag.py:124-128 | equal geometries have the same bounding box |
| Geometry.Overlaps | automation_flag.py:124 | two boxes intersect when they share a point, and two well-formed boxes that intersect share a point |
| Geometry.BoundingBoxSelfOverlaps | automation_flag.py:124 | the box of a chain with vertices intersects itself, so a feature can find itself in the index |
| SpatialIndex.Build | automation_flag.py:116 | the index holds one entry per added id that has a box, carrying that box; ids stay distinct |
| SpatialIndex.Intersects | automation_flag.py:124 | the query returns exactly the indexed ids whose boxes meet the query box, without repeats |
| SpatialIndex.Candidates | automation_flag.py:124 | `intersects(geometry.boundingBox())` returns no id for a chain without vertices, and otherwise exactly the indexed ids whose boxes meet the chain's box |
| SpatialIndex.CandidatesFindEqual | automation_flag.py:124 | the candidates of a chain with vertices include every indexed feature whose geometry equals it, the feature itself among them |
| Duplicates.CollectGeoms | automation_flag.py:110-116 | `geoms` holds exactly the features that have a geometry, each mapped to its own geometry; features without geometry are skipped |
| Duplicates.IndexOf | automation_flag.py:125 | the position found holds the value, and no earlier position does |
| Duplicates.RemoveFirst | automation_flag.py:125 | `list.remove` fails exactly when the value is absent; otherwise it deletes the first occurrence and keeps the other elements in their order, and on a list without repeats leaves no copy of the value |
| Duplicates.EqualHits | automation_flag.py:127-129 | the inner loop appends only the examined id, and appends something exactly when some remaining candidate is equal |
| Duplicates.ExamineOne | automation_flag.py:124-129 | the own id is among the candidates exactly when the chain has vertices; after its removal the id is no longer among them, so a feature is never compared with itself, and an equal candidate remains exactly when another feature has an equal geometry |
| Duplicates.OwnIdFound | automation_flag.py:124-125 | a feature's own id is among its candidates exactly when its chain has vertices; the candidates are indexed ids, each listed once |
| Duplicates.TwinFound | automation_flag.py:125-129 | for a chain with vertices, `candidates.remove` of the own id succeeds; every remaining candidate is a key of `geoms`, and an equal one remains exactly when another feature has an equal geometry |
| Duplicates.Examine | automation_flag.py:124-129 | examining a feature raises the `ValueError` exactly when its chain has no vertices, and otherwise yields its id exactly when it has a twin |
| Duplicates.Scan | automation_flag.py:120-129 | the outer loop raises exactly when a feature it reaches has an empty chain, and otherwise `dup_features` holds exactly the examined ids that have a twin |
| Duplicates.Duplicates | automation_flag.py:100-136 | raises `ValueError` exactly when some geometry has no vertices; otherwise code 1 on exactly the features with a twin, and every other code and the key set unchanged |
| Duplicates.DuplicateSymmetric | automation_flag.py:120-129 | two features with equal geometries are both flagged |
| Duplicates.NullGeometryNeverDuplicate | automation_flag.py:111-113 | a feature without geometry is never a duplicate |
| Duplicates.DuplicatesSkipNullGeometry | automation_flag.py:111-113 | the code of a feature without geometry is left as it was |
| Duplicates.DuplicatesIdempotent | automation_flag.py:100-136 | a second run of the detector leaves the table as the first run left it |
| Graph.Key | automation_flag.py:142 | an undirected edge is identified by its unordered pair of endpoints |
| Graph.ChainEdges | automation_flag.py:148-150 | a chain of k vertices contributes k-1 edges, the i-th joining vertices i and i+1 and tagged with the feature's fid; a chain of fewer than 2 vertices contributes none |
| Graph.LayerEdges | automation_flag.py:144-150 | the edges added are exactly the consecutive vertex pairs of every feature's chain, tagged with that feature's fid |
| Graph.AddEdges | automation_flag.py:148-150 | the graph has an edge for every pair added; each edge's tag was written by some added edge; the last edge added on a pair decides its tag |
| Graph.LayerGraphEdges | automation_flag.py:142-150 | the graph holds exactly the vertex pairs some feature's chain joins, and each carries the fid of a feature whose chain joins it |
| Graph.LastFeatureOwnsEdge | automation_flag.py:144-150 | a pair is tagged with the fid of the last feature whose chain joins it |
| Graph.ReachableTrans | automation_flag.py:152 | connection through edges is transitive |
| Graph.ReachableSym | automation_flag.py:152 | connection through edges is symmetric |
| Graph.ClosureReachable | automation_flag.py:152 | a vertex is in the closure of a vertex set exactly when it is reachable from some vertex of the set |
| Graph.ComponentIsReachable | automation_flag.py:152 | the component of a vertex holds exactly the vertices reachable from it |
| Graph.ComponentOf | automation_flag.py:152 | computes the vertex set of the connected component of a vertex |
| Graph.ComponentsPartition | automation_flag.py:152 | two components are equal exactly when their vertices are connected, and otherwise disjoint |
| Graph.ChainIsPath | automation_flag.py:144-150 | every feature's chain is a path of the graph, whichever fid its edges ended up carrying |
| Graph.EdgeOwner | automation_flag.py:148-150 | the fid an edge carries is that of a feature whose chain contains the edge |
| Graph.LayerOwnersConnected | automation_flag.py:144-157 | all edges carrying one fid lie in one component |
| Graph.SameOwnerReach | automation_flag.py:144-152 | two edges carrying the same fid have connected endpoints |
| Graph.OwnedEdgeReachesChain | automation_flag.py:144-152 | an edge carrying a feature's fid reaches every vertex of that feature's chain |
| Islands.FidComponents | automation_flag.py:154-157 | `fid_comp` has exactly the fids carried by some edge as keys, and maps each to the component of its edges |
| Islands.FidComponentsOrderFree | automation_flag.py:154-157 | any two maps meeting that description are equal, so the enumeration order of components and edges does not matter |
| Islands.CountComponents | automation_flag.py:159-161 | every label of `fid_comp` is counted, only such labels are counted, and each count is the number of fids with that label |
| Islands.CountMapSum | automation_flag.py:159-161 | the values of `countMap`, summed over its labels, equal the number of fids in `fid_comp` |
| Islands.ComponentLabels | automation_flag.py:154-157 | two fids share a label exactly when their edges are connected |
| Islands.CountOneIffIsolated | automation_flag.py:162 | a fid's count is 1 exactly when no edge it carries reaches an edge carrying another fid |
| Islands.IsolatedFids | automation_flag.py:142-162 | `isolated` holds exactly the fids alone in their component |
| Islands.FlagIsolated | automation_flag.py:164-166 | the given code on exactly the isolated fids; every other code and the key set unchanged |
| Islands.FlagIslands | automation_flag.py:139-168 | code 1 on exactly the isolated fids; every other code and the key set unchanged |
| Islands.FlagDangles | automation_flag.py:170-199 | code 5 on exactly the isolated fids; every other code and the key set unchanged |
| Islands.ShortChainNeverIsolated | automation_flag.py:147-150 | a feature with fewer than two vertices, or no geometry, adds no edge and is never flagged |
| Islands.TouchingNeverIsolated | automation_flag.py:144-162 | two features that each carry an edge and share a vertex are never flagged |
| Islands.LaterTwinOwnsTheEdges | automation_flag.py:148-150 | of two identical single-segment features, the later one is flagged and the earlier one is not |
| Islands.TwinGraph | automation_flag.py:142-150 | two identical one-segment chains leave a graph of one edge, tagged with the later fid |
| Islands.OneEdgeIsolated | automation_flag.py:159-162 | in a graph of one edge, the fid it carries is isolated and no other fid is |
| Pipeline.InvalidGeom | automation_flag.py:68-97 | raises `NameError` exactly when some feature has no geometry, and otherwise leaves the table unchanged |
| Pipeline.RunDetectors | automation_flag.py:207-218 | the run raises exactly when a geometry is missing or has no vertices, and names the error. The table is returned with it, as the exception leaves it: all 0 after the `NameError`, and 1 on exactly the zero-length fids after the `ValueError`. Without an error every fid gets 1 when it has zero length, has a twin or is isolated, and 0 otherwise |

## Left out

- Loading the layer, `iface`, editing sessions, `addAttribute` and field lookup (lines 27-34 and the set-up lines of each detector): host I/O. The `error` attribute is modelled as a table that holds every fid.
- The selection, count, percentage and printed report after the run (lines 220-233), and the timing around it: reporting, not classification.
- Every `print` call: output only.
- Floating-point coordinates and lengths: coordinates are integers. A length is compared with 0 only.
- Geometry.GeosEqual: takes two geometries to be equal when they have the same vertex sequence, forward or reversed. GEOS's topological equality (`isGeosEqual`) is coarser, and these cases are not modelled: chains that differ by collinear vertices, by repeated consecutive vertices, closed rings that start at different vertices, and chains that double back over themselves. A one-vertex line is invalid for GEOS, yet the model calls two equal one-vertex lines duplicates.
- `QgsGeometry.convertToSingleType` (line 146): it converts `geom` in place, turning a multipart geometry into a single-part one. Every geometry in the model is already one polyline, so the call changes nothing here. Multipart geometries are not modelled.
- `QgsSpatialIndex` internals: the index is a list of (fid, box) entries. Only the ids a query returns are modelled, not their order.
- The networkx component algorithm: a component is computed as a reachability fixpoint and labelled by its vertex set. networkx labels components by position in its own enumeration. Either labelling tells components apart, and only equality of labels is used.
- `edge[2].get('fid', None)`: every edge carries a fid, so the `None` default never occurs and is not modelled.
- Islands.IsolatedFids: returns a set, while the source builds a list in `fid_comp` order. Every fid occurs in it once, so only order is lost.
- Duplicates.Duplicates: assumes that QGIS gives a geometry without vertices no bounding box, so `addFeature` does not index it and `candidates.remove` raises. QGIS's handling of an empty geometry differs between versions. In versions before 3.34 its bounding box is the null rectangle (0,0,0,0) rather than nothing. Where the index accepts that rectangle, the query finds the feature and the `remove` succeeds. The model promises the `ValueError` only under the assumption.
- Pipeline.RunDetectors: the `ValueError` ending the run rests on the same assumption about empty geometries as `Duplicates.Duplicates`.
- Pipeline.RunDetectors: assumes a networkx that still provides `nx.connected_component_subgraphs` (line 152). That function was removed in networkx 2.4. With a later networkx, `islands` raises `AttributeError`, and the run ends with the table `duplicates` left; the model does not promise that outcome.
- Duplicates.Duplicates: `dup_features` can list a fid more than once. Writing the same code twice is the same as writing it once (`Layer.WriteAllIdempotent`).
- The `dangles` call is commented out of the run (line 218), so `Islands.FlagDangles` is modelled but not part of `Pipeline.RunDetectors`.
