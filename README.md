# Footprint polygon expansion, modelled in Dafny

This project models the polygon-geometry core of a LiDAR building-reconstruction
pipeline. Its main subject is the neighbour-aware footprint dilation of
`Scripts/02_polygon_expansion.py`, which works in these steps:

- It simplifies every footprint polygon by merging nodes that lie close to their predecessor.
- It finds, for each polygon, the other polygons whose nodes come within 2.0 units of its edges, or the other way round.
- It pushes every corner out along the normals of its two edges, giving two offset nodes per corner.
- It pulls an offset node back to half the gap when the move would cross a neighbour edge.
- It inserts midway nodes wherever the outline between two offset nodes would cross a neighbour.
- It removes duplicate nodes and self-intersection loops from the result.

Two smaller pieces sit beside it:

- the simple dilation of `Scripts/01_create_footprint_polygons.py`, which ignores neighbours, and the point-cloud name that script writes;
- the bounding-box file selection and output naming of `Scripts/04_split_dataset_points_to_buildings_with_realignment.py`.

Modules, one per component:

| file | module | models |
|---|---|---|
| `outcomes.dfy` | `Outcomes` | the exceptions and the unbounded loop, as `Result` failures |
| `sequences.dfy` | `Sequences` | `Option` and ascending index lists, shared by several modules |
| `geometry.dfy` | `Geometry` | points, squared distances, point-to-segment distance, projection, edge-normal rule, abstract intersection and normalisation |
| `simplify.dfy` | `Simplify` | `simplify_polygons` |
| `neighbours.dfy` | `Neighbours` | the neighbour loop of `main` in the expansion script |
| `clearance.dfy` | `Clearance` | `check_intersection_with_neighbor`, `add_midway_nodes_2` |
| `repair.dfy` | `Repair` | `remove_duplicate_nodes`, `remove_self_intersections` |
| `dilation.dfy` | `NeighbourDilation` | `dilate_polygon_with_neighbors` and the polygon loop of `main` |
| `footprint.dfy` | `Footprint` | `dilate_polygon` and the output line of the footprint script |
| `split.dfy` | `DatasetSplit` | `search_las_dataset` and the building loop of the split script |

Each loop of the source is a `method` with loop invariants. Each method is
proved equal to a specification function, and the lemmas state the properties
of those functions.

Conventions:

- Coordinates are `real`.
- A source distance `d` compared against a threshold appears squared. So 0.001 becomes `0.000001`, and the neighbour threshold 2.0 becomes `4.0`. The simplification threshold 0.5 is already a squared distance in the source.
- Normalisation `v / |v|` is a function parameter `unit` constrained by `IsUnit`. For `v != 0`, `unit(v)` has squared length 1 and points the same way as `v`.
- Shapely's `intersects` and `intersection` are an `Intersector`: a pair of function values passed in. Every result holds for every such pair, and argument order follows the source.
- Python exceptions (`IndexError` on an empty list, `ZeroDivisionError` on a zero-length edge) become `Failure` results where the code path can be reached with ordinary data. Some crashes become a `requires` instead: a first node within distance² 0.5 of the origin in `simplify_polygons` (before any work is done), and a zero-length edge in the neighbour test or in the point-to-segment distance. A zero-length edge is not only malformed input: simplification can create one (`Simplify.SimplifiedCanCreateZeroLengthEdge`), and the source then fails part-way through its polygon loop. See `NeighbourDilation.ExpandFootprints` under "## Left out".
- The `while` loop of `add_midway_nodes_2` has no bound in the source. The model gives it a `fuel` step budget and returns `Failure(IterationCap)` when the budget runs out.

Behaviour of the code worth knowing, each stated as a property of the model:

- Simplification compares each node with the previous *input* node (line 186 stores the position read, not the merged one). So it is not idempotent: `Simplify.NotIdempotent` shows a polygon that simplifies further on a second pass.
- The start-node window in `remove_self_intersections` runs 15 crossing tests: the non-adjacent pairs among 7 consecutive edges (`Repair.WindowClearIffUntangled`).
- The closing step of `remove_self_intersections` compares only the x coordinates of the first and last nodes.
- Every edge normal is the right-hand normal `(dy, -dx)`, because the cross-product test equals `dx² + dy²`. It is not an outward/inward choice, and the "180-degree" branch runs only for a zero-length edge.

## Model

| member | source | states |
|---|---|---|
| `Geometry.Clamp01` | Scripts/02_polygon_expansion.py:203-206 | the projection parameter is clamped into [0, 1], unchanged inside it, 0 below and 1 above |
| `Geometry.SegDist2` | Scripts/02_polygon_expansion.py:195-213 | the squared point-to-segment distance is the shortest: no more than the squared distance from the point to any point `a + t (b - a)`, `0 <= t <= 1`, of the segment, so at most the distance to either end and 0 at an end; needs a segment of non-zero length (the division by `norm`) |
| `Geometry.SegDist2Attained` | Scripts/02_polygon_expansion.py:197-213 | the shortest distance is reached: some point of the segment is exactly that far from the point |
| `Geometry.ClampedBeats` | Scripts/02_polygon_expansion.py:199-211 | the clamped foot of the perpendicular is no farther from the point than the segment point at any parameter `t` in [0, 1] |
| `Geometry.ClampedIsNearer` | Scripts/02_polygon_expansion.py:199-211 | the clamped foot of the perpendicular is no farther from the point than every point of the segment, the two ends included |
| `Geometry.Project` | Scripts/02_polygon_expansion.py:216-226 | the projection lies on the line through the segment, the point-to-projection vector is perpendicular to it, and a point at the first end projects to itself |
| `Geometry.NormalTestIsSquaredLength` | Scripts/02_polygon_expansion.py:663-674 | the cross product of the normal test equals `dx² + dy²` |
| `Geometry.NormalFallbackOnlyForZeroLengthEdge` | Scripts/02_polygon_expansion.py:674-682 | the `cross_product < 0` branch never runs, and the "180-degree" branch runs exactly for a zero-length edge |
| `Geometry.EdgeNormalIsRightHand` | Scripts/02_polygon_expansion.py:666-682 | an edge of non-zero length always gets the normal `(dy, -dx)` |
| `Geometry.EdgeNormalShape` | Scripts/02_polygon_expansion.py:666-671 | the chosen normal is perpendicular to its edge, as long as it, and zero only for an edge with equal ends |
| `Geometry.DisplacedDistance` | Scripts/02_polygon_expansion.py:694-697 | a corner moved by `amount` along a normalised non-zero normal is exactly `amount` away, parallel to the normal and on its side |
| `Geometry.MidIsHalfway` | Scripts/02_polygon_expansion.py:706-709 | the `a + (b - a) / 2` point is equally far from both ends, at half their distance, on the line through them |
| `Geometry.WithoutLastFour` | Scripts/01_create_footprint_polygons.py:45 | `s[:-4]` drops exactly the last four characters, or gives the empty string for shorter strings |
| `Simplify.SimplifyNodes` | Scripts/02_polygon_expansion.py:172-186 | the node loop produces exactly `Simplified(nodes)`; requires the first node not to merge with the origin (the empty-list crash) |
| `Simplify.SimplifyPolygons` | Scripts/02_polygon_expansion.py:164-192 | one output record per input, with both file names kept and the nodes simplified |
| `Simplify.SimplifiedBounds` | Scripts/02_polygon_expansion.py:173-185 | the output is never longer than the input, and non-empty for a non-empty input |
| `Simplify.SimplifiedLength` | Scripts/02_polygon_expansion.py:176-185 | the output has exactly one node per node whose squared distance to the previous input node is at least 0.5 |
| `Simplify.MergedRunCascades` | Scripts/02_polygon_expansion.py:176-183 | a kept node followed by merged nodes becomes one node, pulled halfway to each merged node in turn |
| `Simplify.NothingMergedIsIdentity` | Scripts/02_polygon_expansion.py:173-186 | with no node close to its predecessor the polygon is unchanged |
| `Simplify.ComparedWithInputPredecessor` | Scripts/02_polygon_expansion.py:186 | a node is merged by its distance to the previous input node, even when the merged node has moved out of range |
| `Simplify.NotIdempotent` | Scripts/02_polygon_expansion.py:163-191 | simplifying an already simplified polygon can change it again |
| `Simplify.CascadeOfThree` | Scripts/02_polygon_expansion.py:176-183 | three merged nodes after a kept node pull it halfway to each of them in turn |
| `Simplify.RunBackOntoFirst` | Scripts/02_polygon_expansion.py:176-186 | when the second node is kept, every later node merges, and the cascade of midpoints lands on the first node, the simplified polygon is the first node twice |
| `Simplify.SimplifiedCanCreateZeroLengthEdge` | Scripts/02_polygon_expansion.py:163-191 | a polygon with no repeated consecutive node, accepted by `simplify_polygons`, simplifies to two equal nodes: (10,0),(11,0),(10.5,0),(10,0),(9.625,0) becomes (10,0),(10,0), a zero-length edge |
| `Neighbours.SomeNodeNearEdge` | Scripts/02_polygon_expansion.py:65-80 | the loop with its early `break`s answers exactly whether some node of one polygon is strictly within 2.0 of an edge (k, k+1) of the other |
| `Neighbours.NeighboursBelow` | Scripts/02_polygon_expansion.py:54-100 | the listed indices are exactly the other polygons that pass the two-way test, ascending, without duplicates |
| `Neighbours.NeighbourIndicesSymmetric` | Scripts/02_polygon_expansion.py:64-98 | the neighbour relation is symmetric and no polygon is its own neighbour |
| `Neighbours.FindNeighbours` | Scripts/02_polygon_expansion.py:54-100 | the neighbour loop of `main` returns `NeighbourIndices`, testing the second direction only when the first fails |
| `Clearance.RingEdge` | Scripts/02_polygon_expansion.py:242-245 | neighbour edge k runs from node k-1 to node k, and edge 0 wraps to the last node |
| `Clearance.CheckIntersection` | Scripts/02_polygon_expansion.py:229-252 | returns every crossing of the line with every neighbour edge, in neighbour and edge order, and the flag is set exactly when that list is non-empty |
| `Clearance.CrossingsExactly` | Scripts/02_polygon_expansion.py:237-250 | a crossing is reported exactly when some edge of some neighbour meets the line; nothing is reported exactly when no edge does |
| `Clearance.NearestIndexIsFirstNearest` | Scripts/02_polygon_expansion.py:374-382 | the chosen crossing is a nearest one, and no earlier crossing is as near (ties keep the first) |
| `Clearance.NearestCrossing` | Scripts/02_polygon_expansion.py:368-382 | the smallest-distance loop returns `NearestIndex` |
| `Clearance.NearerEndIsNearer` | Scripts/02_polygon_expansion.py:385-397 | the chosen neighbour end is no farther from the undilated edge than the other; on a tie it is the second end |
| `Clearance.MidwayNodeHalvesGap` | Scripts/02_polygon_expansion.py:399-407 | a midway node is equally far from the neighbour node and its projection, at half their distance, on the perpendicular to the undilated edge |
| `Clearance.NewMidwayNode` | Scripts/02_polygon_expansion.py:366-407 | one search step's node is `StepNode`: nearest crossing, nearer edge end, midpoint with its projection |
| `Clearance.AddMidwayNodes` | Scripts/02_polygon_expansion.py:336-480 | the flag-driven loop returns exactly `MidwayNodes`, i.e. `forward[1:] + backward[:-1]`, or a failure when the edge has zero length or the step budget runs out |
| `Clearance.MidwayNodesCount` | Scripts/02_polygon_expansion.py:345-480 | no node is added exactly when the start-to-goal line crosses no neighbour edge; never more nodes than steps |
| `Clearance.SearchLength` | Scripts/02_polygon_expansion.py:361-477 | each search step adds exactly one node: a successful search returns the starting chain plus `SearchSteps` new nodes (the source's `points_added`), never more than `fuel`, and at least one exactly when a crossing started the search |
| `Clearance.MidwayNodesShape` | Scripts/02_polygon_expansion.py:355-477 | every added node is the midway node of a neighbour node for undilated edge (k-1, k), and the chain start, nodes, goal has a link that crosses no neighbour edge |
| `Repair.RemoveDuplicateNodes` | Scripts/02_polygon_expansion.py:485-499 | the loop returns `Deduplicated(xs)` |
| `Repair.DeduplicatedIsKeptSubsequence` | Scripts/02_polygon_expansion.py:489-496 | the output is an in-order subsequence of the input, keeping node k exactly when it is farther than 0.001 from its cyclic predecessor (node 0 compared with the last) |
| `Repair.DeduplicatedUnchangedIff` | Scripts/02_polygon_expansion.py:489-496 | the list comes back unchanged if and only if every node keeps its distance from its cyclic predecessor |
| `Repair.ClosedRingDropsLeadingCopy` | Scripts/02_polygon_expansion.py:489-496 | for a closed ring `[p0..p(n-1), p0]` the leading `p0` is dropped and the trailing one kept |
| `Repair.LoneNodeDropped` | Scripts/02_polygon_expansion.py:489-496 | a single node is its own predecessor and is always dropped |
| `Repair.ScanFrom` | Scripts/02_polygon_expansion.py:574-583 | the scan reports a compared, crossing pair, and no crossing pair comes before it in scan order |
| `Repair.FirstCrossingNoneIff` | Scripts/02_polygon_expansion.py:571-583 | the scan finds nothing if and only if no two non-adjacent scanned edges cross |
| `Repair.ScanForCrossing` | Scripts/02_polygon_expansion.py:574-583 | the nested loops with their `break`s return `FirstCrossing` |
| `Repair.RepairStep` | Scripts/02_polygon_expansion.py:588-622 | every repair step makes the list strictly shorter and leaves at least three nodes |
| `Repair.RepairStepKeepsLargerPart` | Scripts/02_polygon_expansion.py:588-622 | between branch gives `xs[..a+1] + [crossing] + xs[b+1..]`, removing fewer than half the nodes; wrap branch gives `xs[a..b+1]`, keeping more than half |
| `Repair.Splice` | Scripts/02_polygon_expansion.py:588-622 | the insert-then-slice and slice-then-slice code produce `RepairStep` |
| `Repair.RepairLoops` | Scripts/02_polygon_expansion.py:567-624 | the repair loop terminates (the list shrinks every step), its result is loop-free, and a loop-free list is left unchanged |
| `Repair.RemoveLoops` | Scripts/02_polygon_expansion.py:567-624 | the `while found_intersection` loop returns `RepairLoops` |
| `Repair.WindowClearIffUntangled` | Scripts/02_polygon_expansion.py:515-556 | the fifteen tests are exactly the non-adjacent pairs of the seven window edges |
| `Repair.ClearFrom` | Scripts/02_polygon_expansion.py:515-564 | the start is the first k in [4, len-4) whose window is clear |
| `Repair.StartRotated` | Scripts/02_polygon_expansion.py:512-564 | rotation keeps the length and the multiset of nodes, and lists of at most 8 nodes are not rotated |
| `Repair.StartRotatedIsRotation` | Scripts/02_polygon_expansion.py:560-564 | the result is `xs[k:] + xs[:k]` for the chosen k, and the list is kept when no window is clear |
| `Repair.RotateToClearWindow` | Scripts/02_polygon_expansion.py:512-564 | the window loop returns `StartRotated` |
| `Repair.Close` | Scripts/02_polygon_expansion.py:625-628 | the first node is appended if and only if the first and last x differ |
| `Repair.CloseComparesOnlyX` | Scripts/02_polygon_expansion.py:625 | a list whose ends share x but not y is left open |
| `Repair.SelfIntersectionsRemovedShape` | Scripts/02_polygon_expansion.py:502-630 | it fails only when nothing survives de-duplication; otherwise the repaired list is loop-free, ends with equal x, and is at most one node longer than the de-duplicated input |
| `Repair.RemoveSelfIntersections` | Scripts/02_polygon_expansion.py:502-630 | the procedure returns `SelfIntersectionsRemoved` |
| `NeighbourDilation.NextIndex` | Scripts/02_polygon_expansion.py:656-661 | edge i runs to node i+1, and the last edge wraps to node 0 |
| `NeighbourDilation.PreviousIndex` | Scripts/02_polygon_expansion.py:688-689 | corner i uses normal i-1, and corner 0 wraps to the last normal |
| `NeighbourDilation.RingNormalShape` | Scripts/02_polygon_expansion.py:653-683 | ring edge normals are `(dy, -dx)`, perpendicular, as long as the edge, and non-zero |
| `NeighbourDilation.ComputeNormals` | Scripts/02_polygon_expansion.py:653-683 | the normals loop returns one normal per node, edge i to the next node round the ring |
| `NeighbourDilation.OffsetNodeShape` | Scripts/02_polygon_expansion.py:693-709 | an unclamped offset node lies exactly 2.0 from its corner along the normal; a clamped one is the midpoint of the corner and the first reported crossing |
| `NeighbourDilation.PlaceOffsetNode` | Scripts/02_polygon_expansion.py:693-711 | the offset-node code returns `OffsetNode` |
| `NeighbourDilation.CornerStep` | Scripts/02_polygon_expansion.py:686-755 | a corner appends at least its two offset nodes and keeps the list before it, with the second offset node last; corner 0 puts its first node right after the list, with no midway search before it |
| `NeighbourDilation.CornerStepParts` | Scripts/02_polygon_expansion.py:686-755 | on success, corner k appends exactly: the midway nodes toward its first offset node (none at corner 0), the first offset node along the previous edge's normal, the midway nodes from there toward the second offset node, and the second offset node along edge k's normal |
| `NeighbourDilation.ProcessCorner` | Scripts/02_polygon_expansion.py:686-755 | the corner-loop body returns `CornerStep` |
| `NeighbourDilation.CornersFrom` | Scripts/02_polygon_expansion.py:686-755 | the corners from k on add at least two nodes each and keep the list before them |
| `NeighbourDilation.ProcessCorners` | Scripts/02_polygon_expansion.py:686-755 | the corner loop returns `CornersFrom` from corner 0, stopping at the first failure |
| `NeighbourDilation.CornersFromFirst` | Scripts/02_polygon_expansion.py:713-727 | the first node of the list is corner 0's first offset node, taken along the last edge's normal |
| `NeighbourDilation.OutlineShape` | Scripts/02_polygon_expansion.py:758-769 | the pre-repair list ends with a copy of its first node and has at least 2n+1 nodes; an empty outline fails |
| `NeighbourDilation.DilatedWithNeighboursOfNothing` | Scripts/02_polygon_expansion.py:760-764 | a polygon with nothing left after de-duplication fails (`dilated_list_x[-1]` of an empty list) |
| `NeighbourDilation.DilatedWithNeighboursShape` | Scripts/02_polygon_expansion.py:634-774 | a successful result is non-empty, its ends share x, and it is at most one node longer than the outline |
| `NeighbourDilation.DilatePolygonWithNeighbours` | Scripts/02_polygon_expansion.py:634-774 | the procedure returns `DilatedWithNeighbours` |
| `NeighbourDilation.ExpandedKeepsNames` | Scripts/02_polygon_expansion.py:117-119 | every output line keeps the polygon's OBJ and point-cloud names |
| `NeighbourDilation.Collect` | Scripts/02_polygon_expansion.py:38-123 | output lines come in input order, one per polygon; a failure is the first failing polygon's |
| `NeighbourDilation.ExpandFootprints` | Scripts/02_polygon_expansion.py:35-123 | `main` simplifies every polygon and then runs the polygon loop on the simplified records: one line per polygon, both names kept, carrying the simplified polygon dilated against its simplified neighbours; the first failure stops it |
| `NeighbourDilation.ExpandPolygons` | Scripts/02_polygon_expansion.py:38-123 | the polygon loop of `main` returns one line per polygon, in input order, keeping both names and carrying the polygon dilated against the neighbours `FindNeighbours` lists; the first failing polygon stops it |
| `Footprint.EdgeNormals` | Scripts/01_create_footprint_polygons.py:110-137 | a closed list of n nodes gets exactly n-1 edge normals |
| `Footprint.EdgeNormalsAreRightHand` | Scripts/01_create_footprint_polygons.py:120-136 | every non-zero edge gets the normal `(dy, -dx)`, perpendicular to it and as long as it |
| `Footprint.DilatedShape` | Scripts/01_create_footprint_polygons.py:104-156 | the output has as many nodes as the input, its last node is its first, and node i moves `amount` along the sum of normals i-1 and i (node 0 wraps to the last edge) |
| `Footprint.DilatePolygon` | Scripts/01_create_footprint_polygons.py:96-156 | the two loops and the closing copy return `Dilated` |
| `Footprint.NoDilationKeepsNodes` | Scripts/01_create_footprint_polygons.py:39-43 | with `dilation_amount` at most 0 the nodes are written unchanged; otherwise the count is kept |
| `Footprint.PointCloudNameOfObj` | Scripts/01_create_footprint_polygons.py:45-46 | the point-cloud name is the OBJ name without its last four characters, plus `_points.ply` |
| `Footprint.FootprintRecordShape` | Scripts/01_create_footprint_polygons.py:39-46 | the output line names the OBJ file and its point cloud and carries the outline unchanged when not dilating |
| `DatasetSplit.SelectedLines` | Scripts/04_split_dataset_points_to_buildings_with_realignment.py:118-132 | a bounds line is selected exactly when some node lies strictly inside its x and y ranges; ascending, at most one entry per line |
| `DatasetSplit.SelectedFiles` | Scripts/04_split_dataset_points_to_buildings_with_realignment.py:114-136 | never more files than bounds lines |
| `DatasetSplit.SelectedFilesNameSelectedLines` | Scripts/04_split_dataset_points_to_buildings_with_realignment.py:118-132 | the returned names are those of the selected lines, in bounds-file order |
| `DatasetSplit.SelectionIgnoresZ` | Scripts/04_split_dataset_points_to_buildings_with_realignment.py:120-124 | only fields 1, 2, 4 and 5 are read; changing the z fields does not change the choice |
| `DatasetSplit.WrittenLineReadBack` | Scripts/create_dataset_bounding_box_list.py:60-63 | the box read back from a written bounds line is the box written |
| `DatasetSplit.AnyNodeInside` | Scripts/04_split_dataset_points_to_buildings_with_realignment.py:125-132 | the node loop with its `break` answers `Selects` |
| `DatasetSplit.SearchLasDataset` | Scripts/04_split_dataset_points_to_buildings_with_realignment.py:96-136 | the line loop returns `SelectedFiles` |
| `DatasetSplit.OutputNameOfFootprintCloud` | Scripts/04_split_dataset_points_to_buildings_with_realignment.py:64-66 | with LAS output forced, the name loses its last four characters and gains `.las` |
| `DatasetSplit.Jobs` | Scripts/04_split_dataset_points_to_buildings_with_realignment.py:53-60 | only buildings on the work list get a job |
| `DatasetSplit.JobsExactly` | Scripts/04_split_dataset_points_to_buildings_with_realignment.py:53-80 | a job is made exactly for each listed building's line, with that line's output name and LAS files |
| `DatasetSplit.PlanBuildings` | Scripts/04_split_dataset_points_to_buildings_with_realignment.py:53-80 | the building loop of `main` returns `Jobs` |

## Left out

- File I/O and text handling: reading and writing polygon lines, `split`, `float`/`str` conversion, and the existing-output check of the split script (lines 68-72). Node lists and records are modelled directly.
- Mesh slicing with trimesh in the footprint script, all matplotlib plotting, and all printing.
- Shapely's exact semantics: touching, collinear and overlapping segments, and an `intersection` that is not a point. `Intersector` keeps `intersects`/`intersection` abstract.
- Point-cloud work in the split script: laspy and open3d reading and writing, `Path.contains_points`, voxel down-sampling and ICP alignment (lines 139-346).
- Floating point: rounding, `sqrt`, `np.linalg.norm` and `**.5` are replaced by exact real arithmetic, squared comparisons and the abstract `unit`.
- `add_midway_nodes` (lines 255-330 of the expansion script) is never called and is not modelled.
- The `process_all_buildings`/`target_building` filter of the expansion script (lines 42-43) is not modelled, because the script sets `process_all_buildings = True`. The model always processes every polygon.
- `Clearance.AddMidwayNodes`: the source loop has no bound and can run forever. The model stops after `fuel` steps with `Failure(IterationCap)`, so a search longer than `fuel` steps is not followed.
- `NeighbourDilation.ExpandFootprints`: it requires every edge of every simplified polygon to have non-zero length. Simplification can create a zero-length edge (`Simplify.SimplifiedCanCreateZeroLengthEdge`). The source then raises `ZeroDivisionError` only when its neighbour loop reaches that edge, after the lines of earlier polygons have been written. The model does not describe that partial output.
- `NeighbourDilation.ExpandPolygons`: it requires the same non-zero edge lengths of the polygons it is given, for the same reason, and does not describe the partial output either.
- `Neighbours.FindNeighbours`: it requires every edge of every polygon to have non-zero length. The source raises `ZeroDivisionError` only when its loops actually reach such an edge before a `break`.
- `Footprint.FootprintRecordShape`: the footprint script appends the node coordinates to its output line only when `visualize_results` is true (line 47). The script sets it to `True` at line 17, and the model always appends them.
- The script's global constants `dilation_amount` and `neighbor_distance_threshold` (both 2.0) are constants of the model, not parameters.
- `NeighbourDilation.DilatedWithNeighboursShape`: it does not state that the final polygon crosses no neighbour edge. The source does not guarantee this: the midway search only ends on a clear check of one link (`Clearance.MidwayNodesShape`), and loop removal may add crossing points.
- `Scripts/03_get_building_list_in_polygon.py`, `Scripts/06_run_iPSR.py`, `Scripts/epsg_converter.py` and the directory walk of `Scripts/create_dataset_bounding_box_list.py` are not part of this model. Only the field order of the bounds line is used.
- The indentation error at line 32 of the split script and the unassigned `unaligned_point_clouds` at its line 212 lie outside the modelled code.
