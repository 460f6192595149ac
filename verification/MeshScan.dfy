/**
 * The candidate-cell scan of the synthetic population mesh:
 * scripts/build-nagoya-population-mesh.py.
 *
 * A cell's weight is the largest share of its four sample points inside one of the ward's
 * polygons.  The script visits only the rows and columns near the polygons' bounding boxes and
 * is proved to collect the same list as a scan of the whole grid.
 */
module MeshScan {
  import opened Common
  import opened RayCast

  const MESH_DEG: real := 1.0 / 240.0

  /** The Nagoya box: west, south, east and north edge. */
  const WEST: real := 136.78
  const SOUTH: real := 35.02
  const EAST: real := 137.08
  const NORTH: real := 35.28

  const COLUMNS: int := ((EAST - WEST) / MESH_DEG).Floor + 1
  const ROWS: int := ((NORTH - SOUTH) / MESH_DEG).Floor + 1

  /** An exterior ring followed by its holes. */
  type Polygon = rings: seq<Ring> | rings != [] witness [[]]

  datatype Cell = Cell(cx: real, cy: real, weight: real)

  predicate InPolygon(p: Point, polygon: Polygon) {
    Contains(p, polygon[0]) && forall k :: 1 <= k < |polygon| ==> !Contains(p, polygon[k])
  }

  method InPolygonCheck(x: real, y: real, polygon: Polygon) returns (inside: bool)
    ensures inside == InPolygon(Point(x, y), polygon)
    ensures inside <==> Contains(Point(x, y), polygon[0])
                        && forall k :: 1 <= k < |polygon| ==> !Contains(Point(x, y), polygon[k])
  {
    hide Contains;
    var inExterior := PointInRingIndexed(x, y, polygon[0]);
    if !inExterior {
      return false;
    }
    for k := 1 to |polygon|
      invariant forall j :: 1 <= j < k ==> !Contains(Point(x, y), polygon[j])
    {
      var inHole := PointInRingIndexed(x, y, polygon[k]);
      if inHole {
        return false;
      }
    }
    return true;
  }

  // ------------------------------------------------------------------ the weight of a cell

  /** Sample points sit at a quarter and three quarters of the cell, counted row-major. */
  function Sample(cx: real, cy: real, i: int, j: int): Point {
    Point(cx + MESH_DEG * (i as real + 0.5) / 2.0, cy + MESH_DEG * (j as real + 0.5) / 2.0)
  }

  function SamplesInside(cx: real, cy: real, polygon: Polygon, n: nat): nat {
    if n == 0 then 0
    else SamplesInside(cx, cy, polygon, n - 1)
         + if InPolygon(Sample(cx, cy, (n - 1) / 2, (n - 1) % 2), polygon) then 1 else 0
  }

  function Fraction(cx: real, cy: real, polygon: Polygon): real {
    SamplesInside(cx, cy, polygon, 4) as real / 4.0
  }

  method CellInsideFraction(cx: real, cy: real, polygon: Polygon) returns (fraction: real)
    ensures fraction == Fraction(cx, cy, polygon)
  {
    hide InPolygon;
    var inside := 0;
    for i := 0 to 2
      invariant inside == SamplesInside(cx, cy, polygon, 2 * i)
    {
      for j := 0 to 2
        invariant inside == SamplesInside(cx, cy, polygon, 2 * i + j)
      {
        var sample := Sample(cx, cy, i, j);
        var hit := InPolygonCheck(sample.x, sample.y, polygon);
        if hit {
          inside := inside + 1;
        }
      }
    }
    fraction := inside as real / 4.0;
  }

  function Corner(column: int, row: int): Point {
    Point(WEST + column as real * MESH_DEG, SOUTH + row as real * MESH_DEG)
  }

  function Weight(corner: Point, polygons: seq<Polygon>): real {
    if polygons == [] then 0.0
    else Max(Weight(corner, polygons[..|polygons| - 1]),
             Fraction(corner.x, corner.y, polygons[|polygons| - 1]))
  }

  function CellsOf(column: int, row: int, polygons: seq<Polygon>): seq<Cell> {
    var corner := Corner(column, row);
    var weight := Weight(corner, polygons);
    if weight > 0.0 then [Cell(corner.x, corner.y, weight)] else []
  }

  // ------------------------------------------------------------------ scans of the grid

  function RowCells(polygons: seq<Polygon>, row: int, column0: int, column1: int): seq<Cell>
    decreases column1 - column0
  {
    if column1 <= column0 then []
    else RowCells(polygons, row, column0, column1 - 1) + CellsOf(column1 - 1, row, polygons)
  }

  function GridCells(polygons: seq<Polygon>, row0: int, row1: int, column0: int, column1: int): seq<Cell>
    decreases row1 - row0
  {
    if row1 <= row0 then []
    else GridCells(polygons, row0, row1 - 1, column0, column1) + RowCells(polygons, row1 - 1, column0, column1)
  }

  /** The list the pruning must not change. */
  function FullScan(polygons: seq<Polygon>): seq<Cell> {
    GridCells(polygons, 0, ROWS, 0, COLUMNS)
  }

  function Points(rings: seq<Ring>): seq<Point> {
    if rings == [] then [] else Points(rings[..|rings| - 1]) + rings[|rings| - 1]
  }

  /** Every polygon has at least one position, as the fixture's validated rings do. */
  predicate Drawn(polygons: seq<Polygon>) {
    polygons != [] && forall k :: 0 <= k < |polygons| ==> Points(polygons[k]) != []
  }

  function Union(a: Bounds, b: Bounds): Bounds {
    Bounds(Point(Min(a.min.x, b.min.x), Min(a.min.y, b.min.y)), Point(Max(a.max.x, b.max.x), Max(a.max.y, b.max.y)))
  }

  function UnionBox(polygons: seq<Polygon>): Bounds
    requires Drawn(polygons)
  {
    var last := |polygons| - 1;
    var box := Box(Points(polygons[last])).value;
    if last == 0 then box else Union(UnionBox(polygons[..last]), box)
  }

  function FirstIndex(low: real, origin: real): int {
    MaxInt(((low - origin) / MESH_DEG).Floor - 1, 0)
  }

  function EndIndex(high: real, origin: real, count: int): int {
    MinInt(((high - origin) / MESH_DEG).Floor + 1, count)
  }

  method WardBox(polygons: seq<Polygon>) returns (box: Bounds)
    requires Drawn(polygons)
    ensures box == UnionBox(polygons)
  {
    box := Box(Points(polygons[0])).value;
    for k := 1 to |polygons|
      invariant box == UnionBox(polygons[..k])
    {
      assert polygons[..k + 1][..k] == polygons[..k];
      box := Union(box, Box(Points(polygons[k])).value);
    }
    assert polygons[..|polygons|] == polygons;
  }

  /** The largest share over the ward's polygons. */
  method CellWeight(corner: Point, polygons: seq<Polygon>) returns (weight: real)
    ensures weight == Weight(corner, polygons)
  {
    hide Fraction;
    weight := 0.0;
    for k := 0 to |polygons|
      invariant weight == Weight(corner, polygons[..k])
    {
      assert polygons[..k + 1][..k] == polygons[..k];
      var fraction := CellInsideFraction(corner.x, corner.y, polygons[k]);
      weight := Max(weight, fraction);
    }
    assert polygons[..|polygons|] == polygons;
  }

  method ScanRow(polygons: seq<Polygon>, row: int, column0: int, column1: int) returns (cells: seq<Cell>)
    ensures cells == RowCells(polygons, row, column0, column1)
  {
    hide Weight, Corner;
    cells := [];
    var column := column0;
    while column < column1
      invariant column0 <= column && (column <= column1 || column == column0)
      invariant cells == RowCells(polygons, row, column0, column)
    {
      var corner := Corner(column, row);
      var weight := CellWeight(corner, polygons);
      if weight > 0.0 {
        cells := cells + [Cell(corner.x, corner.y, weight)];
      }
      column := column + 1;
    }
  }

  // ------------------------------------------------------------------ what a weight says

  /** The sample points lie inside their cell, in its four quarters. */
  lemma SampleInCell(cx: real, cy: real, i: int, j: int)
    requires 0 <= i < 2 && 0 <= j < 2
    ensures var s, half := Sample(cx, cy, i, j), MESH_DEG / 2.0;
            && cx + i as real * half < s.x < cx + (i as real + 1.0) * half
            && cy + j as real * half < s.y < cy + (j as real + 1.0) * half
  {}

  /** The four samples are the centres of the cell's quarters. */
  lemma QuarterCentres(cx: real, cy: real)
    ensures Sample(cx, cy, 0, 0) == Point(cx + 1.0 / 960.0, cy + 1.0 / 960.0)
    ensures Sample(cx, cy, 0, 1) == Point(cx + 1.0 / 960.0, cy + 3.0 / 960.0)
    ensures Sample(cx, cy, 1, 0) == Point(cx + 3.0 / 960.0, cy + 1.0 / 960.0)
    ensures Sample(cx, cy, 1, 1) == Point(cx + 3.0 / 960.0, cy + 3.0 / 960.0)
  {}

  function Hit(p: Point, polygon: Polygon): int {
    if InPolygon(p, polygon) then 1 else 0
  }

  /** A quarter for every centre of a quarter cell inside the polygon; a cell measures 1/240 degree. */
  lemma {:induction false} FractionCountsQuarters(cx: real, cy: real, polygon: Polygon)
    ensures var low, high := 1.0 / 960.0, 3.0 / 960.0;
            Fraction(cx, cy, polygon) * 4.0
            == (Hit(Point(cx + low, cy + low), polygon) + Hit(Point(cx + low, cy + high), polygon)
                + Hit(Point(cx + high, cy + low), polygon) + Hit(Point(cx + high, cy + high), polygon)) as real
  {
    hide InPolygon, Sample;
    QuarterCentres(cx, cy);
    var low, high := 1.0 / 960.0, 3.0 / 960.0;
    assert SamplesInside(cx, cy, polygon, 1) == Hit(Point(cx + low, cy + low), polygon);
    assert SamplesInside(cx, cy, polygon, 2)
        == SamplesInside(cx, cy, polygon, 1) + Hit(Point(cx + low, cy + high), polygon);
    assert SamplesInside(cx, cy, polygon, 3)
        == SamplesInside(cx, cy, polygon, 2) + Hit(Point(cx + high, cy + low), polygon);
    assert SamplesInside(cx, cy, polygon, 4)
        == SamplesInside(cx, cy, polygon, 3) + Hit(Point(cx + high, cy + high), polygon);
  }

  /** The weight is the largest of the polygons' shares, zero without polygons. */
  lemma {:induction false} WeightIsLargest(corner: Point, polygons: seq<Polygon>)
    ensures forall polygon <- polygons :: Fraction(corner.x, corner.y, polygon) <= Weight(corner, polygons)
    ensures Weight(corner, polygons) == 0.0
            || exists polygon <- polygons :: Fraction(corner.x, corner.y, polygon) == Weight(corner, polygons)
    decreases |polygons|
  {
    hide Fraction;
    if polygons != [] {
      var init, last := polygons[..|polygons| - 1], polygons[|polygons| - 1];
      assert polygons == init + [last];
      WeightIsLargest(corner, init);
    }
  }

  lemma {:induction false} SamplesInsideCounts(cx: real, cy: real, polygon: Polygon, n: nat)
    requires n <= 4
    ensures SamplesInside(cx, cy, polygon, n) <= n
    ensures SamplesInside(cx, cy, polygon, n) > 0
            <==> exists k :: 0 <= k < n && InPolygon(Sample(cx, cy, k / 2, k % 2), polygon)
  {
    hide InPolygon, Sample;
    if n > 0 {
      SamplesInsideCounts(cx, cy, polygon, n - 1);
    }
  }

  /** A cell is kept exactly when one of its sample points is in one of the polygons. */
  lemma {:induction false} WeightMeansOverlap(corner: Point, polygons: seq<Polygon>)
    ensures 0.0 <= Weight(corner, polygons) <= 1.0
    ensures Weight(corner, polygons) > 0.0
            <==> exists m, k :: 0 <= m < |polygons| && 0 <= k < 4
                                && InPolygon(Sample(corner.x, corner.y, k / 2, k % 2), polygons[m])
    decreases |polygons|
  {
    hide InPolygon, Sample, SamplesInside;
    if polygons != [] {
      var init, last := polygons[..|polygons| - 1], polygons[|polygons| - 1];
      WeightMeansOverlap(corner, init);
      SamplesInsideCounts(corner.x, corner.y, last, 4);
      if k :| 0 <= k < 4 && InPolygon(Sample(corner.x, corner.y, k / 2, k % 2), last) {
        assert InPolygon(Sample(corner.x, corner.y, k / 2, k % 2), polygons[|init|]);
      }
      if m, k :| 0 <= m < |init| && 0 <= k < 4 && InPolygon(Sample(corner.x, corner.y, k / 2, k % 2), init[m]) {
        assert InPolygon(Sample(corner.x, corner.y, k / 2, k % 2), polygons[m]);
      }
    }
  }

  // ------------------------------------------------------------------ the grid

  /** The number lies in the half-open step of 1/240 degree with the given index. */
  predicate InStep(x: real, origin: real, index: int) {
    origin + index as real / 240.0 <= x < origin + (index as real + 1.0) / 240.0
  }

  /** The point is in the square of the column and row. */
  predicate InCell(p: Point, column: int, row: int) {
    InStep(p.x, 136.78, column) && InStep(p.y, 35.02, row)
  }

  lemma StepOf(x: real, origin: real, count: int) returns (index: int)
    requires origin <= x < origin + count as real / 240.0
    ensures 0 <= index < count && InStep(x, origin, index)
    ensures forall i: int :: InStep(x, origin, i) ==> i == index
  {
    index := ((x - origin) * 240.0).Floor;
  }

  /** Every point of the Nagoya box lies in exactly one cell of the grid, which starts at the cell's corner. */
  lemma {:induction false} GridTilesBox(p: Point) returns (column: int, row: int)
    requires 136.78 <= p.x <= 137.08 && 35.02 <= p.y <= 35.28
    ensures 0 <= column < COLUMNS && 0 <= row < ROWS && InCell(p, column, row)
    ensures forall c: int, r: int :: InCell(p, c, r) ==> c == column && r == row
    ensures Corner(column, row) == Point(136.78 + column as real / 240.0, 35.02 + row as real / 240.0)
  {
    assert COLUMNS == 73 && ROWS == 63;
    column := StepOf(p.x, 136.78, COLUMNS);
    row := StepOf(p.y, 35.02, ROWS);
  }

  /** The cell at a column and row, with its corner and weight. */
  predicate IsCell(cell: Cell, column: int, row: int, polygons: seq<Polygon>) {
    && cell.cx == 136.78 + column as real / 240.0 && cell.cy == 35.02 + row as real / 240.0
    && cell.weight == Weight(Point(cell.cx, cell.cy), polygons)
  }

  predicate Kept(column: int, row: int, polygons: seq<Polygon>) {
    Weight(Point(136.78 + column as real / 240.0, 35.02 + row as real / 240.0), polygons) > 0.0
  }

  /** The cells before a row and column, row by row: each with a positive weight, once. */
  ghost predicate Scanned(cells: seq<Cell>, places: seq<(int, int)>, polygons: seq<Polygon>, row: int, column: int) {
    && |cells| == |places|
    && (forall k :: 0 <= k < |cells| ==> IsCell(cells[k], places[k].1, places[k].0, polygons))
    && (forall a, b :: 0 <= a < b < |places| ==>
          places[a].0 < places[b].0 || (places[a].0 == places[b].0 && places[a].1 < places[b].1))
    && (forall r: int, c: int :: (r, c) in places <==>
          0 <= r && 0 <= c < COLUMNS && (r < row || (r == row && c < column)) && Kept(c, r, polygons))
  }

  lemma {:induction false} CellScanned(cells: seq<Cell>, places: seq<(int, int)>, polygons: seq<Polygon>, row: int,
                                       column: int) returns (more: seq<(int, int)>)
    requires 0 <= row && 0 <= column < COLUMNS && Scanned(cells, places, polygons, row, column)
    ensures Scanned(cells + CellsOf(column, row, polygons), more, polygons, row, column + 1)
  {
    hide Weight;
    more := places;
    assert Corner(column, row) == Point(136.78 + column as real / 240.0, 35.02 + row as real / 240.0);
    if Kept(column, row, polygons) {
      more := places + [(row, column)];
      forall a | 0 <= a < |places|
        ensures places[a].0 < row || (places[a].0 == row && places[a].1 < column)
      {
        assert places[a] == (places[a].0, places[a].1) && places[a] in places;
      }
    }
  }

  lemma {:induction false} RowScanned(cells: seq<Cell>, places: seq<(int, int)>, polygons: seq<Polygon>, row: int,
                                      column: int) returns (more: seq<(int, int)>)
    requires 0 <= row && 0 <= column <= COLUMNS && Scanned(cells, places, polygons, row, 0)
    ensures Scanned(cells + RowCells(polygons, row, 0, column), more, polygons, row, column)
    decreases column
  {
    hide Scanned, CellsOf;
    if column == 0 {
      more := places;
      assert cells + [] == cells;
    } else {
      more := RowScanned(cells, places, polygons, row, column - 1);
      more := CellScanned(cells + RowCells(polygons, row, 0, column - 1), more, polygons, row, column - 1);
      AppendAssociates(cells, RowCells(polygons, row, 0, column - 1), CellsOf(column - 1, row, polygons));
    }
  }

  lemma {:induction false} RowsScanned(polygons: seq<Polygon>, row: int) returns (places: seq<(int, int)>)
    requires 0 <= row
    ensures Scanned(GridCells(polygons, 0, row, 0, COLUMNS), places, polygons, row, 0)
    decreases row
  {
    hide RowCells, Kept, IsCell;
    if row == 0 {
      places := [];
    } else {
      places := RowsScanned(polygons, row - 1);
      places := RowScanned(GridCells(polygons, 0, row - 1, 0, COLUMNS), places, polygons, row - 1, COLUMNS);
    }
  }

  /** The scan lists every cell of positive weight once, row by row from the south-west, and no other. */
  lemma {:induction false} FullScanExact(polygons: seq<Polygon>) returns (places: seq<(int, int)>)
    ensures var cells := FullScan(polygons);
            && |cells| == |places|
            && (forall k :: 0 <= k < |cells| ==> IsCell(cells[k], places[k].1, places[k].0, polygons))
            && (forall a, b :: 0 <= a < b < |places| ==>
                  places[a].0 < places[b].0 || (places[a].0 == places[b].0 && places[a].1 < places[b].1))
            && (forall r: int, c: int :: (r, c) in places <==>
                  0 <= r < ROWS && 0 <= c < COLUMNS && Kept(c, r, polygons))
  {
    hide GridCells, Kept, IsCell;
    places := RowsScanned(polygons, ROWS);
  }

  lemma {:induction false} RowWeightsPositive(polygons: seq<Polygon>, row: int, column0: int, column1: int)
    ensures forall cell <- RowCells(polygons, row, column0, column1) :: cell.weight > 0.0
    decreases column1 - column0
  {
    hide Weight, Corner;
    if column0 < column1 {
      RowWeightsPositive(polygons, row, column0, column1 - 1);
    }
  }

  lemma {:induction false} GridWeightsPositive(polygons: seq<Polygon>, row0: int, row1: int, column0: int, column1: int)
    ensures forall cell <- GridCells(polygons, row0, row1, column0, column1) :: cell.weight > 0.0
    decreases row1 - row0
  {
    hide RowCells;
    if row0 < row1 {
      GridWeightsPositive(polygons, row0, row1 - 1, column0, column1);
      RowWeightsPositive(polygons, row1 - 1, column0, column1);
    }
  }

  // ------------------------------------------------------------------ nothing is lost

  lemma {:induction false} RingPointsIncluded(rings: seq<Ring>, k: nat)
    requires k < |rings|
    ensures forall v <- rings[k] :: v in Points(rings)
  {
    if k < |rings| - 1 {
      RingPointsIncluded(rings[..|rings| - 1], k);
    }
  }

  predicate Inside(inner: Bounds, outer: Bounds) {
    && outer.min.x <= inner.min.x && outer.min.y <= inner.min.y
    && inner.max.x <= outer.max.x && inner.max.y <= outer.max.y
  }

  lemma {:induction false} UnionCoversEach(polygons: seq<Polygon>, k: nat)
    requires Drawn(polygons) && k < |polygons|
    ensures Inside(Box(Points(polygons[k])).value, UnionBox(polygons))
    decreases |polygons|
  {
    hide Box;
    var last := |polygons| - 1;
    if k < last {
      UnionCoversEach(polygons[..last], k);
    }
  }

  lemma {:induction false} OutsideUnionOutsidePolygon(p: Point, polygons: seq<Polygon>, k: nat)
    requires Drawn(polygons) && k < |polygons| && !Covers(UnionBox(polygons), p)
    ensures !InPolygon(p, polygons[k])
  {
    hide Contains, UnionBox;
    var points := Points(polygons[k]);
    var left, low, right, high := BoxIsTight(points);
    UnionCoversEach(polygons, k);
    RingPointsIncluded(polygons[k], 0);
    assert Bounding(Box(points).value, polygons[k][0]);
    OutsideBoundsNotContained(p, polygons[k][0], Box(points).value);
  }

  /** No sample point of a cell beyond the pruned range lies in the box along that axis. */
  lemma SampleBeyondRange(index: int, low: real, high: real, origin: real, count: int, half: int)
    requires 0 <= index < count && 0 <= half < 2
    requires index < FirstIndex(low, origin) || index >= EndIndex(high, origin, count)
    ensures var s := origin + index as real * MESH_DEG + MESH_DEG * (half as real + 0.5) / 2.0;
            s < low || s > high
  {
    var q, r := (low - origin) / MESH_DEG, (high - origin) / MESH_DEG;
    assert q * MESH_DEG == low - origin && r * MESH_DEG == high - origin;
    if index < FirstIndex(low, origin) {
      assert index as real + 1.0 <= q;
    } else {
      assert index as real > r;
    }
  }

  lemma {:induction false} NoSamplesInside(cx: real, cy: real, polygon: Polygon, n: nat)
    requires n <= 4
    requires forall i, j :: 0 <= i < 2 && 0 <= j < 2 ==> !InPolygon(Sample(cx, cy, i, j), polygon)
    ensures SamplesInside(cx, cy, polygon, n) == 0
  {
    if n > 0 {
      NoSamplesInside(cx, cy, polygon, n - 1);
    }
  }

  lemma {:induction false} NoWeight(corner: Point, polygons: seq<Polygon>, k: nat)
    requires k <= |polygons|
    requires forall m :: 0 <= m < |polygons| ==> Fraction(corner.x, corner.y, polygons[m]) == 0.0
    ensures Weight(corner, polygons[..k]) == 0.0
  {
    if k > 0 {
      assert polygons[..k][..k - 1] == polygons[..k - 1];
      NoWeight(corner, polygons, k - 1);
    }
  }

  lemma PrunedCellIsEmpty(polygons: seq<Polygon>, column: int, row: int)
    requires Drawn(polygons) && 0 <= column < COLUMNS && 0 <= row < ROWS
    requires var box := UnionBox(polygons);
             column < FirstIndex(box.min.x, WEST) || column >= EndIndex(box.max.x, WEST, COLUMNS)
             || row < FirstIndex(box.min.y, SOUTH) || row >= EndIndex(box.max.y, SOUTH, ROWS)
    ensures CellsOf(column, row, polygons) == []
  {
    hide InPolygon, UnionBox, FirstIndex, EndIndex;
    var box, corner := UnionBox(polygons), Corner(column, row);
    forall m, i, j | 0 <= m < |polygons| && 0 <= i < 2 && 0 <= j < 2
      ensures !InPolygon(Sample(corner.x, corner.y, i, j), polygons[m])
    {
      if column < FirstIndex(box.min.x, WEST) || column >= EndIndex(box.max.x, WEST, COLUMNS) {
        SampleBeyondRange(column, box.min.x, box.max.x, WEST, COLUMNS, i);
      } else {
        SampleBeyondRange(row, box.min.y, box.max.y, SOUTH, ROWS, j);
      }
      OutsideUnionOutsidePolygon(Sample(corner.x, corner.y, i, j), polygons, m);
    }
    forall m | 0 <= m < |polygons| ensures Fraction(corner.x, corner.y, polygons[m]) == 0.0 {
      NoSamplesInside(corner.x, corner.y, polygons[m], 4);
    }
    NoWeight(corner, polygons, |polygons|);
    assert polygons[..|polygons|] == polygons;
  }

  lemma {:induction false} PrunedRow(polygons: seq<Polygon>, row: int, column0: int, column1: int, end: int)
    requires 0 <= column0 && 0 <= end
    requires forall column :: 0 <= column < end && (column < column0 || column >= column1) ==>
      CellsOf(column, row, polygons) == []
    ensures RowCells(polygons, row, 0, end) == RowCells(polygons, row, column0, MinInt(end, column1))
    decreases end
  {
    hide CellsOf;
    if end > 0 {
      PrunedRow(polygons, row, column0, column1, end - 1);
    }
  }

  lemma {:induction false} EmptyRow(polygons: seq<Polygon>, row: int, end: int)
    requires forall column :: 0 <= column < end ==> CellsOf(column, row, polygons) == []
    ensures RowCells(polygons, row, 0, end) == []
    decreases end
  {
    if end > 0 {
      EmptyRow(polygons, row, end - 1);
    }
  }

  lemma {:induction false} PrunedGrid(polygons: seq<Polygon>, row0: int, row1: int, column0: int, column1: int,
                                      end: int)
    requires 0 <= row0 && 0 <= column0 && column1 <= COLUMNS && 0 <= end
    requires forall row :: 0 <= row < end && (row < row0 || row >= row1) ==>
      RowCells(polygons, row, 0, COLUMNS) == []
    requires forall row :: 0 <= row < end ==>
      RowCells(polygons, row, 0, COLUMNS) == RowCells(polygons, row, column0, column1)
    ensures GridCells(polygons, 0, end, 0, COLUMNS)
            == GridCells(polygons, row0, MinInt(end, row1), column0, column1)
    decreases end
  {
    hide RowCells;
    if end > 0 {
      PrunedGrid(polygons, row0, row1, column0, column1, end - 1);
    }
  }

  /** Restricting the rows and columns to the polygons' boxes finds exactly the same cells. */
  lemma PrunedScanIsFull(polygons: seq<Polygon>)
    requires Drawn(polygons)
    ensures var box := UnionBox(polygons);
            GridCells(polygons, FirstIndex(box.min.y, SOUTH), EndIndex(box.max.y, SOUTH, ROWS),
                      FirstIndex(box.min.x, WEST), EndIndex(box.max.x, WEST, COLUMNS))
            == FullScan(polygons)
  {
    hide CellsOf, UnionBox, Drawn;
    var box := UnionBox(polygons);
    var column0, column1 := FirstIndex(box.min.x, WEST), EndIndex(box.max.x, WEST, COLUMNS);
    var row0, row1 := FirstIndex(box.min.y, SOUTH), EndIndex(box.max.y, SOUTH, ROWS);
    forall row | 0 <= row < ROWS
      ensures RowCells(polygons, row, 0, COLUMNS) == RowCells(polygons, row, column0, column1)
      ensures (row < row0 || row >= row1) ==> RowCells(polygons, row, 0, COLUMNS) == []
    {
      forall column | 0 <= column < COLUMNS && (column < column0 || column >= column1 || row < row0 || row >= row1)
        ensures CellsOf(column, row, polygons) == []
      {
        PrunedCellIsEmpty(polygons, column, row);
      }
      PrunedRow(polygons, row, column0, column1, COLUMNS);
      if row < row0 || row >= row1 {
        EmptyRow(polygons, row, COLUMNS);
      }
    }
    PrunedGrid(polygons, row0, row1, column0, column1, ROWS);
  }

  method ScanWard(polygons: seq<Polygon>) returns (weights: seq<Cell>)
    requires Drawn(polygons)
    ensures weights == FullScan(polygons)
  {
    hide FirstIndex, EndIndex, UnionBox, RowCells, FullScan, Drawn;
    var box := WardBox(polygons);
    var column0, column1 := FirstIndex(box.min.x, WEST), EndIndex(box.max.x, WEST, COLUMNS);
    var row0, row1 := FirstIndex(box.min.y, SOUTH), EndIndex(box.max.y, SOUTH, ROWS);
    weights := [];
    var row := row0;
    while row < row1
      invariant row0 <= row && (row <= row1 || row == row0)
      invariant weights == GridCells(polygons, row0, row, column0, column1)
    {
      var cells := ScanRow(polygons, row, column0, column1);
      weights := weights + cells;
      row := row + 1;
    }
    PrunedScanIsFull(polygons);
  }
}
