# GeneGIS: verified model of the spatial, protocol and archive cores

GeneGIS is a geospatial analysis system. This project models the parts of it whose answers
depend on an invariant rather than on a formula, and proves what they promise, for every input.

* **Point in polygon** (`RayCast`): the even-odd ray cast, in both of its forms. It contains what lies
  left of all edges of a counter-clockwise triangle and nothing right of any, is unchanged by rotating,
  reversing or closing a ring, and false outside the ring's box, to the left of it because a closed ring
  crosses a horizontal line an even number of times.
* **Flood-zone index** (`FloodZones`): the uniform-grid index against a scan of every polygon.
* **Walk network and evacuation** (`WalkNetwork`, `Evacuation`): the graph against its list of segments,
  Dijkstra against least walk cost, edge scaling by the flood depth in the middle of each street with a
  memo table, nearest shelters, delays and the triangle probe.
* **Population mesh** (`MeshScan`, `Apportionment`, `PopulationMesh`): the pruned grid scan against the
  full scan, largest-remainder rounding with its conservation, quota, monotonicity and optimality,
  and the whole build, cell by cell.
* **JIS X 0410 grid squares** (`MeshCode`): decoding at every depth against the code read off a point.
* **Ward rings** (`WardRings`): shoelace area laws and lossless splitting of malformed shells.
* **Change detection** (`ChangeDetection`): bucketing, ranks, what raising an epoch does, classification
  and class means over two point clouds.
* **Live feed** (`LiveFeed`): the cursor and watermark protocol over whole runs of accepted pages, and
  the AMeDAS page that feeds it.
* **District packing** (`BlockPacking`): the random placement loops, for every random generator: which
  plots are built on, and that nothing overlaps.
* **PMTiles** (`HilbertTileId`, `PmTilesDirectory`, `PmTilesArchive`, `PmTilesLimits`): Hilbert tile
  identities, variable-length integers, directories, writing and reading back whole archives, leaf
  directories, and archives that cannot be read whatever compresses them.
* **Dashboard export** (`DashboardTiles`, `TileFormulas`, `TileDrawing`, `DashboardExport`): bucketing
  features into tiles, which vertices keep the tiles inside the grid, clipping, and the sampled
  round-trip check.
* **Agent runs** (`AgentOrchestrator`): the bounded execute, verify, retry loop and its trace.
* **Adapter admission** (`AdapterAdmission`): the fail-closed decision behind the failure list.
* **XML escaping** (`XmlEscape`): four replacements against one pass, and the way back.

Loops and objects of the original appear as methods and classes with the same steps; each is tied by
its `ensures` to a specification, and the laws are lemmas about that specification. Floating-point
numbers are exact reals. 64-bit wrap-around and truncation are written out where the code relies on
them (`LiveFeed`, `BlockPacking`, `PmTilesDirectory`).

The mesh script's comment says that the rounding remainder goes to the largest cell. The code gives one
person each to the cells with the largest fractional share, and the code is modelled; `CommentHoldsIff`
says when the two agree and `SmallerCellPreferred` shows a ward where they do not.

## What turned out not to hold

* A flood zone without exterior vertices is skipped before its box is stored, so boxes and zones fall
  out of step. The index is exact at every point if and only if no such zone precedes one with
  vertices (`IndexIsExactIffAligned`). Otherwise some lookup runs past the boxes
  (`MisalignedLayerFails`), and the evacuation run stops exactly when an edge's midpoint is such a
  point (`EvacuationAccess`). A lookup can also answer wrongly without any overrun: a point five metres
  deep is called dry (`SilentlyDry`), and a run that meets it at a midpoint ends normally
  (`SilentlyDryRun`). Point by point the index is exact when every candidate has a box and some deepest
  zone at the point, unless it is dry, passes the box stored under its number
  (`IndexedDepthIsScanIff`); a run uses the depths of the scan exactly when that holds at every midpoint
  (`ScannedIff`), and then it routes over the graph the scan would give (`RoutesAreScannedIff`).
* A street network may declare a negative walking time. In an undirected network that the origin can
  reach it, no least travel times exist (`NegativeStreetHasNoTimes`); the search is proved correct
  without it (`TravelTimesFrom`).
* `mesh_bounds` checks neither the second-level digits nor the length of a code. Digits 8 and 9 name
  squares of a neighbouring code (`UncheckedDigitsOverlap`), and codes of three, five or seven digits
  are read as if a digit were missing or to be ignored (`UncheckedLengthsAccepted`). Among all codes
  that decode, a code is the own code of the points in its square exactly when its length is not one of
  those and both second-level digits, if any, are below eight (`AcceptedCodeIsOwnIff`). The lengths are
  inputs of the function only: the script hands it codes of 8, 9 or 10 characters.
* The tile formulas clamp at the western and northern edge only. A vertex on longitude 180 gets the
  column past the last one (`AntimeridianOffGrid`), and the writer refuses the whole archive as soon as
  anything is drawn there (`AntimeridianRefused`), as a triangle on the antimeridian is
  (`AntimeridianTriangleRefused`). All bucketed tiles are ones the writer knows exactly when the deepest
  zoom is at most 31 and every vertex is on the map of the shallowest zoom, which up to zoom 15 means
  west of longitude 180 and north of the southern edge of the Mercator square (`BucketsInGridIff`).
  Beyond zoom 15 the formulas repeat zoom 15 (`DeepZoomsRepeat`).
* The feature-coverage check of the export counts features with a ring, not features in a tile. It
  passes on a map where one feature is in no tile (`CoverageMissesFeature`); a pass means that every
  feature is in a tile exactly when every feature has a vertex or the tile of the origin lies inside
  the map (`CoverageMeansTilesIff`).
* The archive writer enforces none of the reader's limits, among them 16 KiB for the root directory. A
  written tile is readable exactly under those limits (`WrittenTileReadsBack`). A tile of more than
  16 MiB is written and cannot be read, whatever the codec (`LargePayloadUnreadable`). No compressor
  saves the directory either: for every lossless codec some archive is written of which no tile can be
  read (`UnreadableArchive`), since there are more choices of tiles than root directories of 16 KiB.
* The AMeDAS sequence is the cursor plus one without an overflow check. Modelled as wrapping, a page at
  the last 64-bit cursor is refused (`AmedasAcceptedIff`).
* The live-feed protocol lets a page move the cursor past sequences it never delivered
  (`CursorMaySkip`); a run is complete exactly when no page does (`CompleteIffDense`). Sequences are
  delivered once, observations are not: an accepted AMeDAS page is accepted again, under the same
  identifier and the next sequence (`AmedasDeliveredAgain`).
* The documentation of `_point_in_ring` calls it boundary inclusive. It is so for no ring: a ring never
  contains its topmost vertex, so only the empty one holds all of its vertices
  (`HoldsItsVerticesIffEmpty`). A rectangle holds its western and southern sides and neither of the
  others (`RectangleIsHalfOpen`).
* The planner's allowlist is consulted for the plans of a language model only. Every step of a run is
  recorded under an allowed tool exactly when the planner's own calls were (`EveryStepAllowedIff`).
* The volume-sign check never adds anything to the presence check (`SignCheckIsPresenceCheck`).

## Model

| member | source | states |
|---|---|---|
| `RayCast.PointInRing` | crates/genegis-geometry/src/predicate.rs:9-28 | The toggle loop with a carried previous vertex answers containment, which `TriangleContains` and `ContainsByParity` state without the crossing formula; an empty ring contains nothing. |
| `RayCast.PointInRingIndexed` | scripts/build-nagoya-shelters.py:68-79 | The Python loop with wrapped indices and the other interpolation formula gives the same answer as the Rust loop. |
| `RayCast.TriangleContains` | crates/genegis-geometry/src/predicate.rs:9-28 | Every counter-clockwise triangle, slanted or not, contains each point strictly left of all three edges and no point strictly right of any edge, by the sign of the products. |
| `RayCast.ContainsByParity` | crates/genegis-geometry/src/predicate.rs:16-27 | For every ring and without a division: contained exactly when an odd number of edges rise with the point strictly to their left or fall with it strictly to their right, lower ends included and upper ends not. |
| `RayCast.TogglesBySide` | crates/genegis-geometry/src/predicate.rs:19-23 | An edge toggles the answer exactly when it rises past the point on its left or falls past it on its right. |
| `RayCast.CrossingInProportion` | crates/genegis-geometry/src/predicate.rs:20 | A point has the crossing's longitude exactly when it divides the edge in the proportion of the heights, tying the quotient formula to similar triangles. |
| `RayCast.InterpolationOrder` | scripts/build-nagoya-shelters.py:76-77 | The two crossing formulas of the repository agree on every straddling edge. |
| `RayCast.CrossingBetweenEnds` | crates/genegis-geometry/src/predicate.rs:20 | The crossing of a straddling edge lies between the edge's end longitudes. |
| `RayCast.CrossingSymmetric` | crates/genegis-geometry/src/predicate.rs:17-21 | Traversing an edge backwards gives the same crossing. |
| `RayCast.RotationInvariant` | crates/genegis-geometry/src/predicate.rs:5-9 | Containment does not depend on the start vertex. |
| `RayCast.ReversalInvariant` | crates/genegis-geometry/src/predicate.rs:9-28 | Containment does not depend on the ring's orientation. |
| `RayCast.ClosingVertexInvariant` | crates/genegis-geometry/src/predicate.rs:7-8 | Repeating the first vertex at the end changes nothing, as the documentation promises. |
| `RayCast.OutsideBoundsNotContained` | crates/genegis-geometry/src/predicate.rs:16-27 | No ring of any length contains a point outside a box that covers its vertices; on the left by parity of crossings. |
| `RayCast.RectangleIsHalfOpen` | crates/genegis-geometry/src/predicate.rs:19-21 | For an axis-parallel rectangle the ray cast holds exactly the half-open box, so abutting rectangles share no point. |
| `RayCast.TopmostVertexOutside` | scripts/build-nagoya-wards.py:44-57 | Every ring with vertices has a topmost one, and does not contain it. |
| `RayCast.HoldsItsVerticesIffEmpty` | scripts/build-nagoya-wards.py:44-57 | A ring contains all of its vertices exactly when it is empty, so it is never boundary inclusive as documented. |
| `RayCast.PointInPolygonParts` | crates/genegis-geometry/src/predicate.rs:35-42 | Contained exactly when some part's exterior contains the point and no hole of that part does. |
| `RayCast.BoxIsTight` | crates/genegis-analysis/src/zone_index.rs:24-38 | The grown box covers every vertex and each of its four sides is touched by a vertex. |
| `FloodZones.RingBounds` | crates/genegis-analysis/src/zone_index.rs:23-39 | The minimum and maximum loop over all exteriors yields the box of their vertices, None without any. |
| `FloodZones.CoveringIsExact` | crates/genegis-analysis/src/zone_index.rs:61-68 | A bucket holds the index of every zone whose box covers the cell, each once, in ascending order, and no others. |
| `FloodZones.CellIff` | crates/genegis-analysis/src/zone_index.rs:41-43 | A coordinate is in the cell of a hundredth of a degree that starts at or below it and ends above it. |
| `FloodZones.CoversCellIff` | crates/genegis-analysis/src/zone_index.rs:55-68 | A zone is put into a cell exactly when the cell's column and row lie between those of the zone's exterior vertices. |
| `FloodZones.Build` | crates/genegis-analysis/src/zone_index.rs:47-76 | Fails exactly on an empty layer; otherwise every bucket holds exactly its covering zones and the boxes are those of the zones that have vertices. |
| `FloodZones.PushCells` | crates/genegis-analysis/src/zone_index.rs:61-68 | The two cell loops append the index once to every bucket of the rectangle and touch no other bucket. |
| `FloodZones.DepthAt` | crates/genegis-analysis/src/zone_index.rs:88-109 | The lookup loop with box filter and depth guard equals its specification, None where the box access would be out of range. |
| `FloodZones.LookupIsScan` | crates/genegis-analysis/src/zone_index.rs:88-109 | On an aligned layer the lookup is the deepest zone containing the point, or zero, as a scan of all polygons finds it. |
| `FloodZones.NotInBoxNotInZone` | crates/genegis-analysis/src/zone_index.rs:96-102 | The box filter never discards a zone that contains the point. |
| `FloodZones.ScanDepth` | crates/genegis-analysis/src/zone_index.rs:1-4 | The documented meaning: at least zero, at least the depth of every containing zone, and attained. |
| `FloodZones.MisalignedLayerFails` | crates/genegis-analysis/src/zone_index.rs:54-69 | If a vertex-less zone precedes one with vertices, some point's lookup runs past the stored boxes. |
| `FloodZones.IndexIsExactIffAligned` | crates/genegis-analysis/src/zone_index.rs:47-109 | The index agrees with the scan at every point if and only if no vertex-less zone precedes one with vertices. |
| `FloodZones.DeepestIsMaximum` | crates/genegis-analysis/src/zone_index.rs:93-108 | On any layer the candidate scan answers exactly when every candidate has a box, with zero or the largest depth among the candidates that pass their stored box and hold the point. |
| `FloodZones.IndexedDepthIsScanIff` | crates/genegis-analysis/src/zone_index.rs:88-109 | On any layer and at any point the index gives the depth of the scan exactly when every candidate has a box and, unless the point is dry, some deepest zone there passes the box stored under its number. |
| `FloodZones.SilentlyDry` | crates/genegis-analysis/src/zone_index.rs:54-69 | A concrete layer and point: five metres deep by the scan, answered as dry, without an overrun. |
| `WalkNetwork.TravelTimesFrom` | crates/genegis-network/src/lib.rs:224-272 | When no street within reach costs less than zero, Dijkstra with lazy deletion returns for every node the least cost over all walks from the origin, None exactly when there is none. |
| `WalkNetwork.NegativeStreetHasNoTimes` | crates/genegis-network/src/lib.rs:130-132 | With a negative street within reach of the origin of an undirected network no least travel times exist at all. |
| `WalkNetwork.RelaxSlots` | crates/genegis-network/src/lib.rs:259-269 | Offering all slots of a popped node keeps every search invariant and leaves none of its slots able to improve a time. |
| `WalkNetwork.AfterPop` | crates/genegis-network/src/lib.rs:253-258 | A popped entry is either stale and droppable or carries the final time of a node that was not settled. |
| `WalkNetwork.NoWalkBeats` | crates/genegis-network/src/lib.rs:253-271 | Once the queue is empty no walk beats a recorded time and no walk reaches an unrecorded node. |
| `WalkNetwork.TravelTimeUnique` | crates/genegis-network/src/lib.rs:224-272 | The least walk cost determines the answer. |
| `WalkNetwork.TimeAtOrigin` | crates/genegis-network/src/lib.rs:246-252 | The origin is reached in no time when no street within reach costs less than zero. |
| `WalkNetwork.StreetBoundsTime` | crates/genegis-network/src/lib.rs:259-269 | Over every street out of a reached node its other end is reached, no later than the street's own minutes allow. |
| `WalkNetwork.LastStreet` | crates/genegis-network/src/lib.rs:259-269 | Every other known time is that of some neighbour plus the minutes of a street from it. |
| `WalkNetwork.TravelTimesTriangle` | crates/genegis-analysis/src/evacuation.rs:256 | Going through an intermediate node never beats the direct travel time. |
| `WalkNetwork.ScaledByOne` | crates/genegis-network/src/lib.rs:303-331 | A factor of one everywhere gives back the same graph. |
| `WalkNetwork.ScaledTimesOrdered` | crates/genegis-network/src/lib.rs:303-308 | A pointwise larger factor keeps reachability and never shortens a travel time. |
| `WalkNetwork.ScaledTimeStretched` | crates/genegis-network/src/lib.rs:303-308 | Factors bounded by c stretch a travel time by at most c. |
| `WalkNetwork.BuildAdjacency` | crates/genegis-network/src/lib.rs:146-150 | The stored row of u holds a slot to v at a cost exactly as often as segments of that cost join u and v, a loop counting twice. |
| `WalkNetwork.SegmentsStored` | crates/genegis-network/src/lib.rs:146-150 | For every pair of nodes and every cost the stored slots are as many as the segments, so no cost is changed, dropped or invented. |
| `WalkNetwork.EdgeListSymmetric` | crates/genegis-network/src/lib.rs:146-150 | The stored graph is undirected: as many slots of each cost lead from u to v as back. |
| `WalkNetwork.ScaledSymmetric` | crates/genegis-network/src/lib.rs:303-331 | A symmetric positive factor keeps an undirected graph undirected. |
| `WalkNetwork.EachEdgeOnce` | crates/genegis-network/src/lib.rs:324-326 | Summing over slots that lead to a higher index takes every segment that joins two nodes exactly once. |
| `Evacuation.FloodFactor.constructor` | crates/genegis-analysis/src/evacuation.rs:120-125 | The closure's state starts with an empty memo and no flooded length. |
| `Evacuation.FloodFactor.MemoisedDepth` | crates/genegis-analysis/src/evacuation.rs:128-135 | The memo answers what the zone index answers at any point as far from one end of the edge as from the other on each axis, in either direction and at any call, and fails where the index does. |
| `Evacuation.FloodFactor.Apply` | crates/genegis-analysis/src/evacuation.rs:127-140 | One call returns one plus penalty times the depth that the index answers in the middle of the edge, and adds the length of a flooded edge only in its ascending direction; no answer where that lookup overruns. |
| `Evacuation.AlignedEdgeDepth` | crates/genegis-analysis/src/evacuation.rs:133-135 | On an aligned layer the depth of every edge is that of a scan of all polygons at any point in the middle of its two ends. |
| `Evacuation.DepthInTheMiddle` | crates/genegis-analysis/src/evacuation.rs:133-135 | The looked-up point is as far from one end as from the other on each axis: the depth of an edge is the index's answer at any such point. |
| `Evacuation.FactorInTheMiddle` | crates/genegis-analysis/src/evacuation.rs:117-139 | The factor of an edge is one plus the depth at any such point times the penalty. |
| `Evacuation.ScannedIff` | crates/genegis-analysis/src/evacuation.rs:126-135 | On any layer a graph's edges all get the depth of the scan exactly when the index is exact in the middle of each of them. |
| `Evacuation.RoutesAreScannedIff` | crates/genegis-analysis/src/evacuation.rs:115-142 | A run that is not stopped routes over the graph the scan would give if its depths are the scan's, and with a positive penalty and positive costs only then. |
| `Evacuation.SilentlyDryRun` | crates/genegis-analysis/src/evacuation.rs:126-141 | A concrete street, five metres deep in its middle by the scan, is taken for dry by a run that no overrun stops. |
| `FloodZones.LookupIsIndexedDepth` | crates/genegis-analysis/src/zone_index.rs:88-109 | What any index of a layer answers depends on the layer alone. |
| `Evacuation.EdgeDepthSymmetric` | crates/genegis-analysis/src/evacuation.rs:133-135 | An edge has the same depth from both of its ends. |
| `Evacuation.ScaleEdgeCosts` | crates/genegis-network/src/lib.rs:309-331 | Succeeds exactly when no lookup overruns and no factor is negative, and otherwise names a reason that some edge shows; on success the adjacency is the scaled graph, with the count of slowed segments and the flooded length. |
| `Evacuation.ScaleRow` | crates/genegis-network/src/lib.rs:316-328 | The slot loop of one node, with its share of the count and of the flooded length. |
| `Evacuation.NearestOn` | crates/genegis-analysis/src/evacuation.rs:165-176 | The first shelter in list order whose time no other beats; None exactly when none is reachable. |
| `Evacuation.RouteWard` | crates/genegis-analysis/src/evacuation.rs:161-206 | Nearest shelters on the clean and the flooded graph; reachable on one means reachable on the other. |
| `Evacuation.EvacuationAccess` | crates/genegis-analysis/src/evacuation.rs:84-207 | Which inputs are refused and why; stops in the index exactly when the lookup in the middle of some edge overruns; otherwise one feature per ward, routed by the depths that the index answers, and totals over the original graph; a ward without a reachable shelter is reported when all before it have been routed. The unreachable-under-flooding error cannot occur. |
| `Evacuation.AlignedNeverStops` | crates/genegis-analysis/src/evacuation.rs:126-141 | An aligned flood layer never stops the run. |
| `Evacuation.FloodedTimesDominate` | crates/genegis-analysis/src/evacuation.rs:264-267 | Flooding keeps every node's reachability and never makes it faster. |
| `Evacuation.FloodedStreetBoundsTime` | crates/genegis-analysis/src/evacuation.rs:115-142 | Over every street out of a reached node the flooded time grows by at most its minutes times one plus penalty times the depth in its middle. |
| `Evacuation.LastFloodedStreet` | crates/genegis-analysis/src/evacuation.rs:115-142 | And every flooded time beyond the origin is reached over some street at exactly that stretched cost. |
| `Evacuation.FeatureNamesNearest` | crates/genegis-analysis/src/evacuation.rs:161-206 | The reported times are those of the named shelters in any tables of travel times; no shelter is nearer, none listed before is as near, and the delay is their difference. |
| `Evacuation.DelayBounded` | crates/genegis-analysis/src/evacuation.rs:191-206 | Baseline is at most flooded, which is at most one plus deepest depth times penalty, times baseline; the deepest depth is a zone's own or zero. |
| `Evacuation.MonotoneInPenalty` | crates/genegis-analysis/src/evacuation.rs:117 | A larger penalty never shortens a ward's flooded time and leaves its baseline alone. |
| `Evacuation.ZeroPenaltyReproduces` | crates/genegis-analysis/src/evacuation.rs:112-207 | With penalty zero the flooded run has the same times and the same shelter. |
| `Evacuation.FloodedGraphSymmetric` | crates/genegis-analysis/src/evacuation.rs:115-142 | The scaled graph of an edge list stays undirected. |
| `Evacuation.FloodedTotalsPerEdge` | crates/genegis-analysis/src/evacuation.rs:122-138 | Flooded length and slowed count equal sums over the segments, each taken once. |
| `Evacuation.FloodedEdgesCounted` | crates/genegis-analysis/src/evacuation.rs:126-141 | The sum of slowed segments is the number of segments that are no loop and whose depth in the middle times the penalty shows. |
| `Evacuation.ProbeSlot` | crates/genegis-analysis/src/evacuation.rs:233-238 | For a probe node the position search always finds it, so the fallback to slot zero is never taken. |
| `Evacuation.TriangleProbe` | crates/genegis-analysis/src/evacuation.rs:229-262 | The probe can never report a violation, and it samples every triple of probe positions of which each reaches the next, once. |
| `Evacuation.TripleCountIsCardinality` | crates/genegis-analysis/src/evacuation.rs:241-262 | The nested loops count every such triple exactly once. |
| `MeshScan.InPolygonCheck` | scripts/build-nagoya-population-mesh.py:64-69 | Inside the exterior and outside every hole. |
| `MeshScan.CellInsideFraction` | scripts/build-nagoya-population-mesh.py:72-89 | The two by two sampling loop returns a quarter of the number of samples inside. |
| `MeshScan.SampleInCell` | scripts/build-nagoya-population-mesh.py:85-86 | Every sample point lies strictly inside its own quarter of the cell. |
| `MeshScan.QuarterCentres` | scripts/build-nagoya-population-mesh.py:83-86 | The four samples lie at 1/960 and 3/960 of a degree from the cell's corner on each axis. |
| `MeshScan.FractionCountsQuarters` | scripts/build-nagoya-population-mesh.py:81-89 | Four times the fraction is the number of those four points inside the polygon. |
| `MeshScan.WeightIsLargest` | scripts/build-nagoya-population-mesh.py:145-147 | The weight bounds every polygon's fraction and is one of them, or zero. |
| `MeshScan.WeightMeansOverlap` | scripts/build-nagoya-population-mesh.py:145-148 | A cell's weight is positive exactly when some sample lies in some polygon, and is at most one. |
| `MeshScan.GridWeightsPositive` | scripts/build-nagoya-population-mesh.py:148-149 | Every collected cell has a positive weight. |
| `MeshScan.GridTilesBox` | scripts/build-nagoya-population-mesh.py:119-123 | Every point of the Nagoya box lies in exactly one cell of the grid, of 1/240 degree from its corner. |
| `MeshScan.FullScanExact` | scripts/build-nagoya-population-mesh.py:140-149 | The scan lists every grid cell of positive weight once, row by row from the south-west, with its own corner and weight, and no other. |
| `MeshScan.WardBox` | scripts/build-nagoya-population-mesh.py:127-130 | The minima and maxima over the parts give the union of their boxes. |
| `MeshScan.CellWeight` | scripts/build-nagoya-population-mesh.py:145-147 | The polygon loop keeps the largest fraction. |
| `MeshScan.PrunedCellIsEmpty` | scripts/build-nagoya-population-mesh.py:131-138 | A grid cell outside the candidate range has no sample in any polygon. |
| `MeshScan.PrunedScanIsFull` | scripts/build-nagoya-population-mesh.py:125-149 | The candidate range yields the same list of cells and weights as the whole grid. |
| `MeshScan.ScanWard` | scripts/build-nagoya-population-mesh.py:127-149 | The script's bounded loops return the full scan's list, in its order. |
| `Apportionment.Allocate` | scripts/build-nagoya-population-mesh.py:158-163 | Flooring, sorting by fraction and incrementing in place gives floor plus one for the first remainder-many cells of the order. |
| `Apportionment.SortedDescendingOrdered` | scripts/build-nagoya-population-mesh.py:161 | The order has the largest fraction first and keeps list order among equals. |
| `Apportionment.RemainderInRange` | scripts/build-nagoya-population-mesh.py:160 | The remainder is at least zero, below the number of cells, and equals the sum of the fractions. |
| `Apportionment.AllocationConserves` | scripts/build-nagoya-population-mesh.py:155-163 | The allocated people sum to the ward population exactly. |
| `Apportionment.ChosenAreFractional` | scripts/build-nagoya-population-mesh.py:161-163 | Only cells with a fractional share receive an extra person. |
| `Apportionment.QuotaRule` | scripts/build-nagoya-population-mesh.py:159-163 | Every cell is less than one person away from its exact share; a whole share is met exactly. |
| `Apportionment.WithinOnePerson` | scripts/build-nagoya-population-mesh.py:154-163 | People times the weight sum differs from population times the cell's weight by less than the weight sum. |
| `Apportionment.RoundedUpInOrder` | scripts/build-nagoya-population-mesh.py:161-163 | A cell that is rounded up has a larger fraction than one that is not, or the same and an earlier place. |
| `Apportionment.HeavierGetsNoLess` | scripts/build-nagoya-population-mesh.py:158-163 | A heavier cell never gets fewer people than a lighter one. |
| `Apportionment.AllocationOptimal` | scripts/build-nagoya-population-mesh.py:154-163 | No integer vector with the same total has a smaller total absolute deviation from the exact shares. |
| `Apportionment.CommentHoldsIff` | scripts/build-nagoya-population-mesh.py:155-163 | The code gives the whole remainder to the largest cell, as its comment says, exactly when nothing remains, or one person does and no cell has a larger fraction than the largest cell, nor an equal one in front of it. |
| `Apportionment.SmallerCellPreferred` | scripts/build-nagoya-population-mesh.py:155-163 | Two people over cells of weight 1 and 0.75: the code allocates one each, the comment two to the first. |
| `Apportionment.PositiveWeightsSum` | scripts/build-nagoya-population-mesh.py:148-154 | The scan's weights never sum to zero, so the division is safe. |
| `Apportionment.NobodyOwes` | scripts/build-nagoya-population-mesh.py:165-167 | No cell of a ward with positive weights is allocated a negative number. |
| `PopulationMesh.WriteWard` | scripts/build-nagoya-population-mesh.py:158-191 | The features are, in scan order, exactly the cells with people, each with its own cell and its own people, less than one person from population times weight over the weight sum; together they hold the ward's population. |
| `PopulationMesh.CellIsProportionate` | scripts/build-nagoya-population-mesh.py:158-191 | A written cell holds less than one person more or fewer than its weight's part of the ward. |
| `PopulationMesh.BuildMesh` | scripts/build-nagoya-population-mesh.py:104-195 | Succeeds exactly when every ward matches its census entry and overlaps the grid and the census adds up, and otherwise names the first ward at fault; the output is every inhabited cell of every ward, ward by ward in scan order and with its own people, and reproduces the total and every ward. |
| `MeshCode.MeshBounds` | scripts/fetch-estat-mesh.py:55-78 | Updating corner and extents digit by digit equals splitting squares level by level; fails on a quadrant digit outside 1 to 4. |
| `MeshCode.PrimaryForm` | scripts/fetch-estat-mesh.py:57-59 | Four digits name the square one degree wide and two thirds high at 100 degrees plus the last two, and at two thirds of the first two. |
| `MeshCode.SecondaryForm` | scripts/fetch-estat-mesh.py:60-63 | Two more digits count twelfths of a degree northward and eighths eastward, the size of the square. |
| `MeshCode.ThirdForm` | scripts/fetch-estat-mesh.py:64-67 | The last two of eight digits count 1/120 and 1/80 of a degree, the size of the square. |
| `MeshCode.QuadrantCompass` | scripts/fetch-estat-mesh.py:68-77 | One to four name the south-western, south-eastern, north-western and north-eastern quarter. |
| `MeshCode.SplitQuadrants` | scripts/fetch-estat-mesh.py:68-77 | The quadrant loop at any depth equals repeated two by two splitting. |
| `MeshCode.ChildrenTile` | scripts/fetch-estat-mesh.py:60-77 | The n by n children hold exactly the parent's points, each in the one child its coordinates name. |
| `MeshCode.CodeOf` | scripts/fetch-estat-mesh.py:55-78 | Every point of the region has a standard code at every level, and that code's square holds it. |
| `MeshCode.SquareHoldsIffCode` | scripts/fetch-estat-mesh.py:55-78 | At every depth a standard code's square holds a point exactly when the code is the point's own. |
| `MeshCode.SquaresDisjoint` | scripts/fetch-estat-mesh.py:55-78 | Squares of different standard codes of one level share no point. |
| `MeshCode.UncheckedDigitsOverlap` | scripts/fetch-estat-mesh.py:60-63 | A concrete code with second-level digit 8 decodes to the square of another, valid code. |
| `MeshCode.UncheckedLengthsAccepted` | scripts/fetch-estat-mesh.py:55-67 | Concrete codes of three, five and seven digits decode to the squares of codes of four and six, although no point's own code has such a length. |
| `MeshCode.StandardHoldsInRegion` | scripts/fetch-estat-mesh.py:55-78 | Every point of a standard code's square lies in the region that standard codes cover. |
| `MeshCode.AcceptedCodeIsOwnIff` | scripts/fetch-estat-mesh.py:55-78 | For every code that decodes and every point of its square: the code is the point's own at some level exactly when its length is not 3, 5 or 7 and its second-level digits, if any, are below eight. |
| `MeshCode.QuadrantsChecked` | scripts/fetch-estat-mesh.py:70-72 | Decoding the quadrants succeeds exactly when all of them are 1 to 4. |
| `MeshCode.FirstMeshes` | scripts/fetch-estat-mesh.py:81-86 | The nested loops list, without repetition, four-digit codes only, and exactly the primary codes between the box's corners. |
| `MeshCode.FirstMeshesExact` | scripts/fetch-estat-mesh.py:81-86 | Every point of the box has its primary square listed, and every listed square meets the box. |
| `WardRings.SignedRingArea` | scripts/build-nagoya-wards.py:36-41 | The wrapped-index sum is the shoelace area of the closed path. |
| `WardRings.TriangleArea` | scripts/build-nagoya-wards.py:36-41 | Twice the area of a triangle is the product that is positive when its third corner lies left of the first side. |
| `WardRings.AreaOfPieces` | scripts/build-nagoya-wards.py:36-41 | Cutting a ring from its first vertex to any other divides its area into those of the two pieces. |
| `WardRings.AreaRotation` | scripts/build-nagoya-wards.py:36-41 | The signed area does not depend on the start vertex. |
| `WardRings.AreaClosingVertex` | scripts/build-nagoya-wards.py:36-41 | Repeating the first vertex at the end does not change the area. |
| `WardRings.AreaReversal` | scripts/build-nagoya-wards.py:36-41 | Reversing the ring negates the signed area. |
| `WardRings.AreaTranslation` | scripts/build-nagoya-wards.py:36-41 | Translating the ring keeps the signed area. |
| `WardRings.PolygonParts` | scripts/build-nagoya-wards.py:99-117 | Every part written is nested, that is, each further ring starts inside its first; a shell that already is stays whole, and all rings are kept in order. |
| `WardRings.TakenApartIff` | scripts/build-nagoya-wards.py:104-117 | A shell is kept when all its further rings start inside the first, and taken apart ring by ring when one starts outside. |
| `WardRings.SplittingIsLossless` | scripts/build-nagoya-wards.py:109-116 | Whatever is split, the sequence of rings is the input's. |
| `ChangeDetection.Accumulate` | crates/genegis-analysis/src/change.rs:66-78 | The grid holds exactly the occupied cells, each with the heights of its points in order. |
| `ChangeDetection.CellOfPoint` | crates/genegis-analysis/src/change.rs:70-73 | A point is in the half-open square of five metres at the indices of its cell. |
| `ChangeDetection.HeightsExact` | crates/genegis-analysis/src/change.rs:66-78 | A cell holds every height as often as the cloud has a point of that height in the cell. |
| `ChangeDetection.OrderedKeys` | crates/genegis-analysis/src/change.rs:144 | The keys of the grid in ascending order. |
| `ChangeDetection.StatsAreRanks` | crates/genegis-analysis/src/change.rs:80-90 | The statistics exist exactly from three heights on; they are the minimum and the height with nine tenths of the others at or below it and no more strictly below. |
| `ChangeDetection.NinetiethUnique` | crates/genegis-analysis/src/change.rs:84-88 | That rank condition, on the numbers of heights below and at most, determines the height. |
| `ChangeDetection.ChangeByRanks` | crates/genegis-analysis/src/change.rs:149-161 | A cell is compared exactly from three points in both epochs on; with the ninetieth heights p and q and the minimum of the first epoch, the normalised heights are p and q above that minimum and the difference is q - p. |
| `ChangeDetection.RaisingSecondEpoch` | crates/genegis-analysis/src/change.rs:158-161 | Raising every height of the second epoch by d raises its normalised height and the difference by exactly d. |
| `ChangeDetection.RaisingBothEpochs` | crates/genegis-analysis/src/change.rs:158-161 | Raising both epochs changes nothing. |
| `ChangeDetection.LevelGroundRises` | crates/genegis-analysis/src/change.rs:149-161 | Level ground that rises by d is reported with difference d, whatever the numbers of points. |
| `ChangeDetection.StatsOfPermutation` | crates/genegis-analysis/src/change.rs:80-90 | The statistics depend on the multiset of heights only. |
| `ChangeDetection.BuildingRules` | crates/genegis-analysis/src/change.rs:92-106 | All six classes by literal thresholds on the difference and, for a removed building, the first epoch's normalised height, which is never negative. |
| `ChangeDetection.EqualHeightsAreStable` | crates/genegis-analysis/src/change.rs:149-162 | Cells with equal height multisets are compared, have delta zero and are stable. |
| `ChangeDetection.CompareCell` | crates/genegis-analysis/src/change.rs:149-178 | One turn of the loop: skipped below the minimum point count, otherwise counted once in one class and in the control list when its centre is in the control area. |
| `ChangeDetection.OneCellCompared` | crates/genegis-analysis/src/change.rs:159-178 | A single compared cell is counted once, with its difference, in its own class and no other, and enters the control list exactly in the control cells. |
| `ChangeDetection.ControlCells` | crates/genegis-analysis/src/change.rs:168-176 | The control area is cells 4 to 15 eastward and 4 to 35 northward. |
| `ChangeDetection.ComparisonAdds` | crates/genegis-analysis/src/change.rs:145-179 | Counts, totals and control list of a list of cells are those of its two parts added up. |
| `ChangeDetection.DetectChanges` | crates/genegis-analysis/src/change.rs:124-179 | The loop over the ordered keys folds exactly the cells that both epochs can compare. |
| `ChangeDetection.EveryPointInOneCell` | crates/genegis-analysis/src/change.rs:66-78 | The occupied cells hold the whole cloud, every point once. |
| `ChangeDetection.CountsSumToCompared` | crates/genegis-analysis/src/change.rs:163-166 | The class counts sum to the number of compared cells. |
| `ChangeDetection.TotalsInBand` | crates/genegis-analysis/src/change.rs:163-165 | A class that occurs has a positive count and a total within its band times that count; vegetation growth stays below the building threshold. |
| `ChangeDetection.MeansRespectThresholds` | crates/genegis-analysis/src/change.rs:181-192 | The mean of every class that occurs lies in that class's own band, for vegetation growth from 0.8 up to but not including 4 metres. |
| `ChangeDetection.SignCheckIsPresenceCheck` | crates/genegis-analysis/src/change.rs:200-257 | The volume-sign check passes exactly when the presence check does. |
| `ChangeDetection.OrderIndependent` | crates/genegis-analysis/src/change.rs:124-192 | Permuting the points of either cloud changes nothing in the result. |
| `LiveFeed.Seal` | crates/genegis-adapter/src/live_feed.rs:322-447 | A page is accepted exactly when a declarative predicate holds, which `StepAcceptedIff` spells out; what is retained, committed and reported fresh; how many observations are a full second late; which observation a refusal names. |
| `LiveFeed.SealObservations` | crates/genegis-adapter/src/live_feed.rs:391-430 | The loop passes exactly when every observation passes its checks, and the first failing one decides the reason. |
| `LiveFeed.StepAcceptedIff` | crates/genegis-adapter/src/live_feed.rs:378-447 | When a page is accepted, in nanoseconds and without the loop: cursor, watermark and size in bounds, sequences rising up to the new cursor, every observation sound and less than a full second more than the allowed lateness behind, and one fresh if the policy asks. |
| `LiveFeed.SecondsTruncate` | crates/genegis-adapter/src/live_feed.rs:397-399 | Whole seconds of a duration are truncated toward zero on both sides. |
| `LiveFeed.LateCountIsCardinality` | crates/genegis-adapter/src/live_feed.rs:419-421 | The late count is the number of observations a full second or more behind the watermark. |
| `LiveFeed.PageFits` | crates/genegis-adapter/src/live_feed.rs:331-388 | No accepted page exceeds the policy's page size or its retained window. |
| `LiveFeed.FreshIsLatest` | crates/genegis-adapter/src/live_feed.rs:436-442 | Checking the newest observation decides whether any observation is fresh. |
| `LiveFeed.DeliveredAtMostOnce` | crates/genegis-adapter/src/live_feed.rs:401-435 | Over any run of accepted pages the retained sequences rise strictly between the first and the last cursor, so no sequence is delivered twice. |
| `LiveFeed.WatermarksNeverRegress` | crates/genegis-adapter/src/live_feed.rs:380-389 | Over any run the committed watermarks never go back. |
| `LiveFeed.RetainedBounded` | crates/genegis-adapter/src/live_feed.rs:401-435 | A run retains at most final cursor minus initial cursor observations. |
| `LiveFeed.CursorMaySkip` | crates/genegis-adapter/src/live_feed.rs:431-435 | A concrete accepted page whose cursor moves over sequences that it does not carry. |
| `LiveFeed.CompleteIffDense` | crates/genegis-adapter/src/live_feed.rs:431-435 | A run retains every sequence between its cursors exactly when no page skips one. |
| `LiveFeed.LatenessBounded` | crates/genegis-adapter/src/live_feed.rs:397-418 | No retained observation is a full second more than the allowed lateness behind its page's watermark. |
| `LiveFeed.AmedasMapToPage` | crates/genegis-adapter/src/jma.rs:39-86 | Fails exactly without a station object or without any usable value; otherwise one observation whose sequence, also the next cursor, is the cursor plus one or zero after the last 64-bit number, at the page's own time. |
| `LiveFeed.StationValuesExact` | crates/genegis-adapter/src/jma.rs:52-61 | The five station fields appear under their unit-bearing names exactly when they carry a value, and nothing else does. |
| `LiveFeed.AmedasAcceptedIff` | crates/genegis-adapter/src/jma.rs:66-85 | A converted page is accepted exactly when its time lies between watermark and evaluation time, it is fresh where asked, and the cursor is not the last 64-bit number. |
| `LiveFeed.AmedasDeliveredAgain` | crates/genegis-adapter/src/jma.rs:66-85 | Any accepted AMeDAS page is accepted again on the next request, with the same observation and identifier under the next sequence. |
| `BlockPacking.Lcg.NextF64` | crates/genegis-analysis/src/district3d.rs:41-47 | One wrapping generator step; the draw is the top 53 bits as a fraction of one. |
| `BlockPacking.Lcg.Range` | crates/genegis-analysis/src/district3d.rs:49-51 | One generator step; the draw scales its fraction into the range. |
| `BlockPacking.LcgSteps` | crates/genegis-analysis/src/district3d.rs:42-45 | A step multiplies and adds modulo two to the 64th. |
| `BlockPacking.UnitTruncates` | crates/genegis-analysis/src/district3d.rs:46 | The draw is the state without its eleven lowest bits as a part of two to the 64th. |
| `BlockPacking.RangedInProportion` | crates/genegis-analysis/src/district3d.rs:49-51 | A draw divides its range as the generator's fraction divides one. |
| `BlockPacking.Ranged` | crates/genegis-analysis/src/district3d.rs:49-51 | Every draw is at least the lower and below the upper bound. |
| `BlockPacking.PlaceBuilding` | crates/genegis-analysis/src/district3d.rs:228-245 | Offsets, height and base come from consecutive generator states in the source's order. |
| `BlockPacking.PlaceStands` | crates/genegis-analysis/src/district3d.rs:228-245 | A footprint has the drawn size and is offset by a metre and a half times the next two draws; two more draw its height; its base lies a quarter metre below the ground at its centre. |
| `BlockPacking.HeightBands` | crates/genegis-analysis/src/district3d.rs:230-235 | A sample below 0.58, 0.85 and 0.97 gives a height in the bands up to 5.5, 9 and 15 metres, otherwise up to 21, divided by the next draw. |
| `BlockPacking.PlaceRow` | crates/genegis-analysis/src/district3d.rs:221-248 | The cursor loop, which terminates, yields the row of the generator state. |
| `BlockPacking.RowIsBuiltUp` | crates/genegis-analysis/src/district3d.rs:219-248 | A row is a chain of fitting plots with gaps of 2 to 4.5 metres that leaves less than the widest plot, and its buildings stand, in order, on exactly the plots whose coin exceeds 0.18. |
| `BlockPacking.PlaceBlock` | crates/genegis-analysis/src/district3d.rs:208-250 | The row loop of one block, with its early exits. |
| `BlockPacking.BlockIsStacked` | crates/genegis-analysis/src/district3d.rs:213-250 | A block is a stack of fitting strips with such gaps that leaves less than the deepest strip, and each strip holds its row. |
| `BlockPacking.BlocksBetweenStreets` | crates/genegis-analysis/src/district3d.rs:205-212 | The six blocks measure 51 by 86 metres and lie nine and a half metres inside the streets around them. |
| `BlockPacking.SmallBlocksSkipped` | crates/genegis-analysis/src/district3d.rs:209-213 | A block less than ten metres wide or deep is left alone with the generator untouched, any other is filled from its lower edge; none of the six is so small. |
| `BlockPacking.PlaceBuildings` | crates/genegis-analysis/src/district3d.rs:205-252 | The loops over all blocks place exactly what the specification places. |
| `BlockPacking.RowSpaced` | crates/genegis-analysis/src/district3d.rs:221-248 | Buildings of a row stand apart, within the row's stretch and depth. |
| `BlockPacking.RowsSpaced` | crates/genegis-analysis/src/district3d.rs:215-250 | Buildings of successive rows stand apart, within their block. |
| `BlockPacking.PackingIsClear` | crates/genegis-analysis/src/district3d.rs:205-252 | For every generator of fractions and every state all footprints are pairwise at least half a metre apart and off every road. |
| `HilbertTileId.ZxyToTileId` | crates/genegis-tile/src/pmtiles.rs:636-660 | The loop on full-width coordinates computes the recursive Hilbert identity; refused exactly outside the grid or above zoom 31. |
| `HilbertTileId.OneLevel` | crates/genegis-tile/src/pmtiles.rs:644-657 | One turn adds the quadrant's share, and flipping and swapping all bits leaves the walk inside the quadrant. |
| `HilbertTileId.CurveByQuarters` | crates/genegis-tile/src/pmtiles.rs:642-657 | The curve through a square of twice the side runs through the lower left quarter with axes swapped, the upper left and upper right as they are, and the lower right mirrored. |
| `HilbertTileId.TileAtDistance` | crates/genegis-tile/src/pmtiles.rs:636-660 | Decoding a tile's distance gives the tile back. |
| `HilbertTileId.DistanceOfTileAt` | crates/genegis-tile/src/pmtiles.rs:636-660 | Every distance belongs to a tile of the grid. |
| `HilbertTileId.CurveIsContinuous` | crates/genegis-tile/src/pmtiles.rs:644-657 | Consecutive identities of a zoom are edge-adjacent tiles. |
| `HilbertTileId.CurveEnds` | crates/genegis-tile/src/pmtiles.rs:644-657 | The curve starts at the first and ends at the last tile of the first row. |
| `HilbertTileId.TileIdInjective` | crates/genegis-tile/src/pmtiles.rs:642-659 | Two tiles of any zooms with the same identity are the same tile. |
| `HilbertTileId.BaseClosedForm` | crates/genegis-tile/src/pmtiles.rs:642 | The base of a zoom, (4^z - 1) / 3, counts the tiles of all lower zooms. |
| `PmTilesDirectory.PushVarint` | crates/genegis-tile/src/pmtiles.rs:606-616 | The loop appends the seven-bit groups of the number. |
| `PmTilesDirectory.VarintForm` | crates/genegis-tile/src/pmtiles.rs:606-616 | Written are groups of seven bits, least significant first, that add up to the number, all but the last marked as followed, and no more groups than needed. |
| `PmTilesDirectory.ParseVarint` | crates/genegis-tile/src/pmtiles.rs:365-378 | The loop reads groups with their truncating shifts; fails on truncation and on an eleventh group. |
| `PmTilesDirectory.VarintRoundTrip` | crates/genegis-tile/src/pmtiles.rs:365-378 | Every 64-bit number is read back from any place in a buffer, with the cursor behind it. |
| `PmTilesDirectory.ColumnRoundTrip` | crates/genegis-tile/src/pmtiles.rs:300-329 | A column of numbers is read back from any place in a buffer. |
| `PmTilesDirectory.PushIds` | crates/genegis-tile/src/pmtiles.rs:580-584 | The identity loop writes the differences of successive identities. |
| `PmTilesDirectory.PushOffsets` | crates/genegis-tile/src/pmtiles.rs:591-602 | The offset loop writes zero for an entry that follows its predecessor directly and the offset plus one otherwise. |
| `PmTilesDirectory.WriteDirectory` | crates/genegis-tile/src/pmtiles.rs:577-604 | The four loops write count, identity deltas, run lengths, lengths and offsets with the zero sentinel. |
| `PmTilesDirectory.DirectoryForm` | crates/genegis-tile/src/pmtiles.rs:577-604 | The bytes are the count and four columns: identity steps, run lengths, sizes, and offsets plus one with zero for an entry that follows its predecessor directly. |
| `PmTilesDirectory.EncodedLength` | crates/genegis-tile/src/pmtiles.rs:577-604 | A directory takes at least four bytes an entry and at most forty, besides its count. |
| `PmTilesDirectory.ReadIds` | crates/genegis-tile/src/pmtiles.rs:299-304 | The identity loop restores running sums in place and fails exactly on a truncated column or an overflowing sum. |
| `PmTilesDirectory.ReadLengths` | crates/genegis-tile/src/pmtiles.rs:308-313 | The length loop stores the column in place and fails exactly on a truncated column or a zero length. |
| `PmTilesDirectory.ReadOffsets` | crates/genegis-tile/src/pmtiles.rs:314-328 | The offset loop undoes the sentinel from the entries already stored and fails exactly on truncation, a leading zero or an overflow. |
| `PmTilesDirectory.ParseDirectory` | crates/genegis-tile/src/pmtiles.rs:281-334 | The count check, the four in-place loops and the check for trailing bytes equal the specification of a directory. |
| `PmTilesDirectory.DirectoryRoundTrip` | crates/genegis-tile/src/pmtiles.rs:281-334 | An encoded directory is read back exactly when it has one to a million entries, and refused otherwise. |
| `PmTilesDirectory.FindEntryIsNearest` | crates/genegis-tile/src/pmtiles.rs:380-386 | On ascending identities the lookup is the nearest entry at or below the tile, None exactly when all lie above it. |
| `PmTilesDirectory.LeavesLookUpAsOne` | crates/genegis-tile/src/pmtiles.rs:134-149 | Looking into the leaf that the root selects answers like one directory of all the leaves' entries. |
| `PmTilesArchive.WriteArchive` | crates/genegis-tile/src/pmtiles.rs:446-534 | Succeeds exactly for a non-empty list of acceptable, pairwise different tiles; which refusal otherwise; the archive it writes. |
| `PmTilesArchive.ArchiveForm` | crates/genegis-tile/src/pmtiles.rs:492-527 | Behind the 127 bytes of the header stand the packed directory, the packed metadata and the payloads, at the offsets the header names; no leaf directories; the zooms are the smallest and largest of the tiles. |
| `PmTilesArchive.TilesStored` | crates/genegis-tile/src/pmtiles.rs:456-490 | Every entry is stored once under its tile's identity, packed if the archive is, and identities ascend strictly. |
| `PmTilesArchive.IdentifyTiles` | crates/genegis-tile/src/pmtiles.rs:456-466 | The first loop and the sort; the first unacceptable entry decides the refusal. |
| `PmTilesArchive.BuildDirectory` | crates/genegis-tile/src/pmtiles.rs:475-495 | The running offset gives every tile the place of its payload. |
| `PmTilesArchive.DuplicatesAreSameTile` | crates/genegis-tile/src/pmtiles.rs:466-472 | Equal neighbours after sorting exist exactly when two entries name the same tile. |
| `PmTilesArchive.StoredIsFound` | crates/genegis-tile/src/pmtiles.rs:380-386 | The directory lookup answers a stored identity with its own entry. |
| `PmTilesArchive.RootLoads` | crates/genegis-tile/src/pmtiles.rs:223-279 | The written header is valid exactly within the root limit, and then the written directory is loaded exactly within the other limits. |
| `PmTilesArchive.TileRangeLoads` | crates/genegis-tile/src/pmtiles.rs:155-163 | A directory entry addresses exactly the bytes of its own tile. |
| `PmTilesArchive.SelectedBytes` | crates/genegis-tile/src/pmtiles.rs:150-163 | An entry answers exactly for the identities of its run, with the bytes at its offset when the range is in the archive and at most 16 MiB. |
| `PmTilesArchive.ReadThroughLeaves` | crates/genegis-tile/src/pmtiles.rs:133-163 | With leaf directories the reader answers as if the entries of all leaves stood in the root. |
| `PmTilesArchive.ReadableMeans` | crates/genegis-tile/src/pmtiles.rs:223-279 | The reader's limits in numbers: 16,257 bytes of packed root directory, 16 MiB for every range and every unpacking, a million entries. |
| `PmTilesArchive.WrittenTileReadsBack` | crates/genegis-tile/src/pmtiles.rs:108-176 | A written tile is read back byte for byte if and only if the directory and that payload are within the reader's limits. |
| `PmTilesLimits.LargePayloadUnreadable` | crates/genegis-tile/src/pmtiles.rs:446-538 | With every lossless codec, compressing tiles or not, a tile of more than 16 MiB is written and cannot be read. |
| `PmTilesLimits.LargeDirectoryUnreadable` | crates/genegis-tile/src/pmtiles.rs:253-276 | With a codec that never shrinks, no tile of an archive of 4065 tiles or more can be read. |
| `PmTilesLimits.SomeImageIsLong` | crates/genegis-tile/src/pmtiles.rs:626-634 | Reversible packing cannot make everything short: of more bit strings than short byte strings, one is packed past the limit. |
| `PmTilesLimits.RootTellsBits` | crates/genegis-tile/src/pmtiles.rs:475-493 | The packed root directory of an archive tells which tiles it holds. |
| `PmTilesLimits.UnreadableArchive` | crates/genegis-tile/src/pmtiles.rs:446-538 | For every lossless codec some non-empty archive is written of which no tile can be read. |
| `PmTilesArchive.UnwrittenTileIsMissing` | crates/genegis-tile/src/pmtiles.rs:108-155 | A tile that was not written is reported missing, never answered with other bytes. |
| `DashboardTiles.BoundsOfPoints` | crates/genegis-analysis/src/dashboard.rs:205-218 | The minimum and maximum loop, all zero without points. |
| `DashboardTiles.BucketFeatures` | crates/genegis-analysis/src/dashboard.rs:83-115 | After all zooms every tile holds exactly its features of its zoom, and the collected identities are those of features with a ring. |
| `DashboardTiles.BucketZoom` | crates/genegis-analysis/src/dashboard.rs:90-114 | The feature loop of one zoom extends only that zoom's tiles. |
| `DashboardTiles.PushFeature` | crates/genegis-analysis/src/dashboard.rs:98-110 | The guarded column and row loops append the feature once to each tile in both rectangles and nowhere else. |
| `DashboardTiles.TileFeaturesExact` | crates/genegis-analysis/src/dashboard.rs:94-111 | A tile lists each of its features once, in order, and no others. |
| `DashboardTiles.GuardsNeverDrop` | crates/genegis-analysis/src/dashboard.rs:99-105 | For monotone projections the guards drop no tile of a feature's own rectangle, and the tile of each vertex holds the feature. |
| `DashboardTiles.PushedIffBetween` | crates/genegis-analysis/src/dashboard.rs:91-110 | For monotone projections a feature with vertices is in a tile exactly when the tile's column and row lie between those of its vertices. |
| `DashboardTiles.KeyIffPushed` | crates/genegis-analysis/src/dashboard.rs:87-111 | A tile exists exactly when its zoom is in range and some feature was pushed into it. |
| `DashboardTiles.InSomeTileIff` | crates/genegis-analysis/src/dashboard.rs:91-110 | A feature is in a tile of a zoom exactly when it has a vertex or the tile of the origin lies inside the map. |
| `DashboardTiles.CoverageCountsRings` | crates/genegis-analysis/src/dashboard.rs:112-114 | The coverage check passes exactly when no feature is without rings. |
| `DashboardTiles.CoverageMeansTilesIff` | crates/genegis-analysis/src/dashboard.rs:302-308 | A passed coverage check means that every feature is in a tile exactly when every feature has a vertex or the tile of the origin lies inside the map. |
| `TileFormulas.CoverageMissesFeature` | crates/genegis-analysis/src/dashboard.rs:302-308 | A concrete map passes the coverage check although one of its features is in no tile. |
| `TileFormulas.WebMercatorMonotone` | crates/genegis-tile/src/mvt.rs:118-135 | Columns do not fall eastward and rows do not fall southward, at every zoom. |
| `TileFormulas.ColumnIff` | crates/genegis-tile/src/mvt.rs:118-130 | A longitude is in column c exactly when it lies c but not c + 1 tile widths east of the antimeridian. |
| `TileFormulas.FirstColumnIff` | crates/genegis-tile/src/mvt.rs:118-130 | Column zero takes everything before the first width, also what lies west of the antimeridian. |
| `TileFormulas.RowIff` | crates/genegis-tile/src/mvt.rs:118-135 | A latitude inside the limit is in row r exactly when its share of the map's height spans r but not r + 1 tile heights. |
| `TileFormulas.RowBeyondLimit` | crates/genegis-tile/src/mvt.rs:121 | Beyond 85.051129 degrees a latitude keeps the row it has there. |
| `TileFormulas.WidthDoubles` | crates/genegis-tile/src/mvt.rs:118-119 | The map is one tile wide at zoom zero, twice as wide with every zoom up to 15, and 32,768 from then on. |
| `TileFormulas.VertexInGridIff` | crates/genegis-tile/src/mvt.rs:127-135 | A vertex has its tile in the grid exactly when it is on the map of the zoom. |
| `TileFormulas.AntimeridianOffGrid` | crates/genegis-tile/src/mvt.rs:127-130 | Up to zoom 15 longitude 180 falls into column 2^z, which is outside the grid. |
| `TileFormulas.DeepZoomsRepeat` | crates/genegis-tile/src/mvt.rs:118-120 | Beyond zoom 15 every vertex keeps the column and row it has at zoom 15. |
| `TileFormulas.TilesInGridIff` | crates/genegis-analysis/src/dashboard.rs:87-110 | All tiles of all features at a zoom are in the grid exactly when every vertex is on the map. |
| `DashboardExport.CollectEntries` | crates/genegis-analysis/src/dashboard.rs:117-129 | One entry per tile with a non-empty encoding, and no others. |
| `DashboardExport.CollectedAcceptableIff` | crates/genegis-analysis/src/dashboard.rs:117-129 | The entries are pairwise different tiles, and the writer accepts all of them exactly when no tile outside the grid encodes to anything. |
| `DashboardExport.BucketsInGridIff` | crates/genegis-analysis/src/dashboard.rs:87-110 | All bucketed tiles are ones the writer knows exactly when the deepest zoom is at most 31 and every vertex is on the map of the shallowest zoom. |
| `DashboardExport.CollectedIsAcceptable` | crates/genegis-analysis/src/dashboard.rs:117-137 | With every vertex on the map no entry is refused; when every tile encodes to something, the converse holds too. |
| `DashboardExport.AntimeridianRefused` | crates/genegis-analysis/src/dashboard.rs:117-137 | For every map with a vertex on longitude 180 a tile outside the grid exists, and the writer refuses the archive once that tile encodes to something. |
| `TileDrawing.ClipRing` | crates/genegis-tile/src/mvt.rs:325-356 | The passes over the four edges, each in one loop, with their early exit below three points. |
| `TileDrawing.PassLeaves` | crates/genegis-tile/src/mvt.rs:337-349 | A pass leaves exactly the vertices inside its edge and the crossings of the sides that change sides. |
| `TileDrawing.OneVertexClipped` | crates/genegis-tile/src/mvt.rs:341-348 | The four cases of a segment: its end is kept when inside, its crossing before it when it changes sides. |
| `TileDrawing.ClippedInPieces` | crates/genegis-tile/src/mvt.rs:339-349 | A path is clipped piece by piece, so the order of the ring is kept. |
| `TileDrawing.CrossingIff` | crates/genegis-tile/src/mvt.rs:191-205 | A segment that changes sides has exactly one point on the edge and on its own line, and that is the crossing. |
| `TileDrawing.ClippedInTile` | crates/genegis-tile/src/mvt.rs:325-356 | Every vertex of a clipped ring lies in the tile, because a crossing lies on its edge and between its ends. |
| `TileDrawing.ClippedUnchanged` | crates/genegis-tile/src/mvt.rs:325-356 | A ring inside the tile is left as it is. |
| `TileDrawing.BeyondIsClipped` | crates/genegis-tile/src/mvt.rs:325-356 | Of a ring that lies wholly beyond one side of the tile nothing is left. |
| `TileDrawing.ProjectedColumn` | crates/genegis-tile/src/mvt.rs:209-218 | A longitude is placed between the two edges of its tile column in proportion, over 4096 pixels. |
| `TileDrawing.ToPixelIff` | crates/genegis-tile/src/mvt.rs:222-230 | Inside the tile a coordinate goes to the nearest pixel, a half rounding up; beyond it to the border. |
| `TileDrawing.PixelIsNearest` | crates/genegis-tile/src/mvt.rs:221-229 | The pixel of a point in the tile is the nearest one on both axes. |
| `TileDrawing.ClosingPixelDropped` | crates/genegis-tile/src/mvt.rs:230-232 | The last pixel is dropped exactly when it repeats the first of a ring. |
| `TileDrawing.DrawnFromThreePixels` | crates/genegis-tile/src/mvt.rs:237-240 | A feature draws nothing exactly when each of its exteriors keeps two pixels or fewer. |
| `TileDrawing.DeduplicatedMeans` | crates/genegis-tile/src/mvt.rs:234 | No pixel follows itself, every pixel is still there, and nothing is dropped without need. |
| `TileDrawing.MeridianDrawn` | crates/genegis-tile/src/mvt.rs:208-247 | Three vertices on longitude 180 in different pixel rows keep three pixels in the column past the last. |
| `DashboardExport.AntimeridianTriangleRefused` | crates/genegis-analysis/src/dashboard.rs:117-137 | With an encoder that is empty exactly when nothing is drawn, every map with such a triangle is refused by the writer. |
| `DashboardExport.SampleInRange` | crates/genegis-analysis/src/dashboard.rs:315-319 | Every sampled position lies inside the list, so the check compares as many tiles as intended. |
| `DashboardExport.SamplesSpread` | crates/genegis-analysis/src/dashboard.rs:314-315 | As many samples as asked for, at least one and at most all, at the largest even spacing that fits the list. |
| `DashboardExport.RoundtripCheck` | crates/genegis-analysis/src/dashboard.rs:310-342 | The stepping loop compares exactly the sample and passes exactly when every sampled tile reads back. |
| `DashboardExport.CheckPassesIff` | crates/genegis-analysis/src/dashboard.rs:310-342 | On a written archive the check passes exactly when the directory and all sampled payloads are within the reader's limits. |
| `DashboardExport.PassedCheckCoversAll` | crates/genegis-analysis/src/dashboard.rs:310-342 | After a passed check any other tile fails to read back only because of its own size. |
| `AgentOrchestrator.ExecuteAfterPlan` | crates/genegis-agent/src/orchestrator.rs:62-210 | The retry loop with its retained dispatch equals the run decided by the first attempt that is not rejected, or the last one allowed. |
| `AgentOrchestrator.PromptStops` | crates/genegis-agent/src/orchestrator.rs:36-60 | Before any attempt: a language model's plan is refused exactly for a call that is not listed or failed, a plan-only prompt ends with its plan step and no verdict, an unknown dataset is an error. |
| `AgentOrchestrator.LastAttempt` | crates/genegis-agent/src/orchestrator.rs:84-117 | The deciding attempt: all before it were rejected, and it is the last allowed or was not rejected itself. |
| `AgentOrchestrator.TraceShape` | crates/genegis-agent/src/orchestrator.rs:85-111 | n attempts leave 3 n + 1 steps, with plan and catalog first and each attempt's retry, execute and verify steps in their places. |
| `AgentOrchestrator.ToolsOfData` | crates/genegis-agent/src/orchestrator.rs:357-381 | Density and raster workflows: one kind of result, one recording tool, one verifying tool each. |
| `AgentOrchestrator.ToolsOfCatalogs` | crates/genegis-agent/src/orchestrator.rs:382-458 | Likewise GeoParquet, STAC, export and exposure. |
| `AgentOrchestrator.ToolsOfAnalyses` | crates/genegis-agent/src/orchestrator.rs:404-447 | Likewise accessibility, evacuation, seasons and point clouds. |
| `AgentOrchestrator.CompletedRun` | crates/genegis-agent/src/orchestrator.rs:80-209 | Attempts lie between one and the limit; the run passes exactly when its last attempt did by its own verdict or its verifier, all earlier ones having failed; a failed run used all attempts and says so; the result is built from the retained dispatch of a density run and from the executed workflow otherwise. |
| `AgentOrchestrator.BrokenRun` | crates/genegis-agent/src/orchestrator.rs:83-145 | Which error breaks a run off: the first attempt that is not rejected failed, was of the wrong kind, had no verdict, or passed without a result that could be built. |
| `AgentOrchestrator.MoreRetriesKeepPassing` | crates/genegis-agent/src/orchestrator.rs:80-117 | Allowing more attempts never changes a run that passes. |
| `AgentOrchestrator.ClaimsVerificationIff` | crates/genegis-agent/src/orchestrator.rs:36-210 | A prompt's run claims verification exactly when it is not plan-only, its dataset is known, a language model's plan used allowed tools, and some allowed attempt passes with a buildable result after every earlier one was rejected. |
| `AgentOrchestrator.ValidatePlannerTools` | crates/genegis-agent/src/tool_registry.rs:45-61 | The loop accepts exactly when every call is to a listed tool and reported success. |
| `AgentOrchestrator.EveryStepAllowedIff` | crates/genegis-agent/src/tool_registry.rs:16-80 | In the trace of any run every step, the planner's included, is recorded under tools of its role's allowlist exactly when the planner's calls are listed; for the plan of a language model that is always so. |
| `AgentOrchestrator.RunAttempt` | crates/genegis-agent/src/orchestrator.rs:85-107 | One turn succeeds exactly when the workflow ran, was of the right kind and its verification answered; it leaves its steps, its verdict and, for a density run, its own dispatch. |
| `AdapterAdmission.Admit` | crates/genegis-adapter/src/lib.rs:360-460 | Admitted exactly when the invocation is admissible; eligible for verification exactly when also transparent and of known determinism; the failures in order. |
| `AdapterAdmission.ValidateManifest` | crates/genegis-adapter/src/lib.rs:462-551 | The manifest checks collect exactly the specified failures. |
| `AdapterAdmission.ValidateOperations` | crates/genegis-adapter/src/lib.rs:518-549 | The operation loop with its set of seen identifiers, including that an operation with a blank field is never recorded. |
| `AdapterAdmission.CheckRequest` | crates/genegis-adapter/src/lib.rs:401-449 | The request checks collect exactly the specified failures. |
| `AdapterAdmission.NoManifestFailures` | crates/genegis-adapter/src/lib.rs:462-551 | No manifest failure exactly when identities are present, the digest is well formed, and the operations are valid with pairwise different identifiers. |
| `AdapterAdmission.NoRequestFailures` | crates/genegis-adapter/src/lib.rs:401-449 | No request failure exactly when versions and capabilities agree, all capabilities are allowed, all required evidence is promised, and the opacity and determinism rules hold. |
| `AdapterAdmission.FailuresSayWhy` | crates/genegis-adapter/src/lib.rs:360-460 | The failure list is empty exactly when the invocation is admissible. |
| `AdapterAdmission.IdentityCodes` | crates/genegis-adapter/src/lib.rs:366-391 | Each of the three identity codes is listed exactly for its own disagreement. |
| `AdapterAdmission.ManifestFailureIff` | crates/genegis-adapter/src/lib.rs:462-551 | What the manifest checks list is one of ten failures, each exactly for its own cause: six identity fields, no operations, and for an operation a blank or earlier recorded identity, a missing side, or an objection to a contract. |
| `AdapterAdmission.DigestForm` | crates/genegis-adapter/src/lib.rs:572-576 | A digest is the name of the hash, a colon and 64 hexadecimal digits of either case. |
| `AdapterAdmission.RequestFailureIff` | crates/genegis-adapter/src/lib.rs:406-457 | What the request checks list is one of six failures, each exactly for its own cause and, where it applies, for each capability and hook. |
| `AdapterAdmission.LooserAddsNoFailure` | crates/genegis-adapter/src/lib.rs:360-460 | Loosening the policy adds no failure and so never revokes an admission. |
| `AdapterAdmission.OperationOrderIrrelevant` | crates/genegis-adapter/src/lib.rs:388-400 | Reordering a manifest's operations never changes an admission. |
| `XmlEscape.EscapeIsSinglePass` | crates/genegis-analysis/src/export.rs:240-246 | The four replacements in a row equal one pass that maps each character on its own. |
| `XmlEscape.EscapedCharacters` | crates/genegis-analysis/src/export.rs:240-246 | The four characters of markup are written as their entities, every other one as itself. |
| `XmlEscape.EscapeIsSafe` | crates/genegis-analysis/src/export.rs:240-246 | No raw `<`, `>` or `"` is left, and every ampersand begins one of the four entities. |
| `XmlEscape.EscapeRoundTrip` | crates/genegis-analysis/src/export.rs:240-246 | Unescaping the four entities returns the original string. |

## Left out

- Floating-point rounding, NaN and infinity: coordinates, heights, costs and times are exact reals, so a sort comparator's fallback for incomparable values and the finiteness checks on penalties and factors have no counterpart.
- Integer widths of cell keys and zone indices: the casts to 64-bit cells and 32-bit zone indices are not modelled.
- Evacuation.EvacuationAccess: assumes edge costs that are not negative, on the whole graph; an overrunning lookup, which stops the original, is a failure result.
- WalkNetwork.TravelTimesFrom: assumes that no street within reach costs less than zero; in an undirected network no least times exist otherwise, and what the loop does then is not modelled.
- Evacuation.TriangleProbe: takes any list of probe nodes; the cut to the first 24 is not modelled.
- Node snapping, ward centroids, haversine lengths and GeoJSON parsing: nodes, edges and distances are given.
- MeshScan.ScanWard: assumes that every polygon part has a vertex, as the script's `min` over coordinates does; rounding of written coordinates and mesh identifiers is left out.
- MeshCode.FirstMeshes: boxes lie within the region that two-digit primary numbers can name; codes are sequences of decimal digits, so other characters that Python's `int` accepts or refuses are left out.
- WardRings.PolygonParts: rings are taken as already validated (closed, in range, of non-zero area).
- ChangeDetection.DetectChanges: bounds of the area of interest, nearest-neighbour spot checks, DuckDB re-aggregation and replay are left out.
- LiveFeed.AmedasMapToPage: the sequence wraps as in a release build; a build with overflow checks stops instead.
- LiveFeed.Seal: timestamps arrive parsed and content types arrive trimmed and in lower case; admission arrives as its list of failure codes; digests, receipts and HTTP are left out.
- BlockPacking.PlaceBuildings: terrain is a parameter; ground points, vegetation, points of interest and rendering are left out.
- PmTilesArchive.WriteArchive: gzip is a lossless parameter; the byte layout of the 127-byte header, checksums, metadata text and remote ranges are left out. Sizes are assumed to fit in memory and 64 bits.
- DashboardTiles.BucketFeatures: takes any tile formulas; the bytes of an encoded tile are a parameter.
- TileDrawing.ClipRing: ring orientation, commands and attribute tables of vector tiles are left out; only whether a tile is empty is modelled.
- PmTilesLimits.UnreadableArchive: assumes that packing at most 4 GiB gives less than a tebibyte.
- TileFormulas.TilesInGridIff: the Mercator share of a latitude is a parameter that falls northward and is one half at the equator; whether it stays below one at the clamped latitude is left to the condition.
- DashboardExport.CollectEntries: the order of tiles is left open, which the writer's sort makes irrelevant.
- AgentOrchestrator.ExecuteAfterPlan: what the planner, the workflow, its verifier and the result builders do is a parameter; timestamps and identifiers are left out.
- AdapterAdmission.Admit: failure detail texts are left out, and a port contract's own validation is a parameter; policies are taken as given.
- The sort and the priority queue of the standard libraries are modelled by what they promise: stable order, and removal of a first entry.
- Intent matching, catalogs, transit and isochrone analysis, raster and time-series analysis, SVG and PNG drawing, and the user interfaces: not modelled, as they are plumbing, branch tables or rendering.
