/**
 * The tile formulas the dashboard export projects with: `lonlat_to_tile_fraction`,
 * `lon_to_tile_x` and `lat_to_tile_y` of crates/genegis-tile/src/mvt.rs.
 *
 * Columns are computed as in the original.  Of the transcendental part of the rows, the share of
 * the map's height above a latitude, only its order and its value at the equator are used.
 */
module TileFormulas {
  import opened Common
  import opened RayCast
  import opened FloodZones
  import opened HilbertTileId
  import opened DashboardTiles

  /** Share of the Web Mercator square above a latitude: 0 at its northern and 1 at its southern edge. */
  type Mercator = real -> real

  const LAT_LIMIT: real := 85.051129

  ghost predicate IsMercator(mercator: Mercator) {
    mercator(0.0) == 0.5 && forall a: real, b: real :: a <= b ==> mercator(b) <= mercator(a)
  }

  const U32_MAX: nat := 0xFFFF_FFFF

  /** Tiles per axis as the formulas scale: they stop growing at zoom 15. */
  function TilesPerAxis(z: nat): (n: nat)
    ensures n >= 1
  {
    Pow2(MinInt(z, 15))
  }

  /** `floor().max(0.0) as u32`: clamped below, saturating above. */
  function ToTile(fraction: real): nat {
    MinInt(MaxInt(fraction.Floor, 0), U32_MAX)
  }

  function ClampedLatitude(lat: real): real {
    Max(-LAT_LIMIT, Min(LAT_LIMIT, lat))
  }

  function Scaled(share: real, n: nat): real {
    share * n as real
  }

  /** The tile at a share of the map's extent. */
  function ShareToTile(share: real, z: nat): nat {
    ToTile(Scaled(share, TilesPerAxis(z)))
  }

  function LonToTileX(lon: real, z: nat): nat {
    ShareToTile((lon + 180.0) / 360.0, z)
  }

  function LatToTileY(mercator: Mercator, lat: real, z: nat): nat {
    ShareToTile(mercator(ClampedLatitude(lat)), z)
  }

  function WebMercator(mercator: Mercator): Projection {
    Projection(LonToTileX, (lat: real, z: nat) => LatToTileY(mercator, lat, z))
  }

  /** A longitude is in column c when it lies that many tile widths east of the antimeridian. */
  lemma {:induction false} ColumnIff(lon: real, z: nat, c: nat)
    requires 0 < c < U32_MAX
    ensures LonToTileX(lon, z) == c
            <==> 360.0 * c as real <= (lon + 180.0) * TilesPerAxis(z) as real < 360.0 * (c as real + 1.0)
  {
    hide TilesPerAxis;
    var n := TilesPerAxis(z) as real;
    var fraction := (lon + 180.0) / 360.0 * n;
    assert fraction * 360.0 == (lon + 180.0) * n;
  }

  /** All longitudes before the first width end up in column zero, also those west of the antimeridian. */
  lemma {:induction false} FirstColumnIff(lon: real, z: nat)
    ensures LonToTileX(lon, z) == 0 <==> (lon + 180.0) * TilesPerAxis(z) as real < 360.0
  {
    hide TilesPerAxis;
    var n := TilesPerAxis(z) as real;
    var fraction := (lon + 180.0) / 360.0 * n;
    assert fraction * 360.0 == (lon + 180.0) * n;
  }

  /** A latitude is in row r when its share of the map's height spans that many tile heights. */
  lemma {:induction false} RowIff(mercator: Mercator, lat: real, z: nat, r: nat)
    requires 0 < r < U32_MAX && -85.051129 <= lat <= 85.051129
    ensures LatToTileY(mercator, lat, z) == r
            <==> r as real <= mercator(lat) * TilesPerAxis(z) as real < r as real + 1.0
  {
    hide TilesPerAxis;
  }

  /** Beyond the limit a latitude keeps the row it has at the limit. */
  lemma {:induction false} RowBeyondLimit(mercator: Mercator, lat: real, z: nat)
    ensures lat >= 85.051129 ==> LatToTileY(mercator, lat, z) == LatToTileY(mercator, 85.051129, z)
    ensures lat <= -85.051129 ==> LatToTileY(mercator, lat, z) == LatToTileY(mercator, -85.051129, z)
  {
    hide ShareToTile;
  }

  /** Up to zoom 15 the map is as many tiles wide as two to the zoom, beyond it no more than at zoom 15. */
  lemma {:induction false} WidthDoubles(z: nat)
    ensures TilesPerAxis(0) == 1 && (z < 15 ==> TilesPerAxis(z + 1) == 2 * TilesPerAxis(z))
    ensures z >= 15 ==> TilesPerAxis(z) == 32768
  {
    assert Pow2(5) == 32 && Pow2(10) == 1024 && Pow2(15) == 32768;
  }

  // ------------------------------------------------------------------ order

  lemma ScaledMonotone(a: real, b: real, n: nat)
    requires a <= b
    ensures Scaled(a, n) <= Scaled(b, n)
  {
    NonNegativeProduct(b - a, n as real);
    assert (b - a) * n as real == b * n as real - a * n as real;
  }

  lemma ToTileMonotone(a: real, b: real)
    requires a <= b
    ensures ToTile(a) <= ToTile(b)
  {}

  lemma ShareMonotone(a: real, b: real, z: nat)
    requires a <= b
    ensures ShareToTile(a, z) <= ShareToTile(b, z)
  {
    hide TilesPerAxis, ToTile, Scaled;
    ScaledMonotone(a, b, TilesPerAxis(z));
    ToTileMonotone(Scaled(a, TilesPerAxis(z)), Scaled(b, TilesPerAxis(z)));
  }

  /** Columns do not fall eastward and rows do not fall southward. */
  lemma {:induction false} WebMercatorMonotone(mercator: Mercator)
    requires IsMercator(mercator)
    ensures Monotone(WebMercator(mercator))
  {
    hide ShareToTile;
    forall a: real, b: real, z: nat | a <= b
      ensures LonToTileX(a, z) <= LonToTileX(b, z) && LatToTileY(mercator, b, z) <= LatToTileY(mercator, a, z)
    {
      ShareMonotone((a + 180.0) / 360.0, (b + 180.0) / 360.0, z);
      ShareMonotone(mercator(ClampedLatitude(b)), mercator(ClampedLatitude(a)), z);
    }
  }

  // ------------------------------------------------------------------ the edge of the grid

  /** How often the formulas' square fits across the grid of a zoom: once up to zoom 15. */
  function Worlds(z: nat): (w: nat)
    ensures w >= 1 && (z <= 15 ==> w == 1)
  {
    Pow2(z - MinInt(z, 15))
  }

  /** Inside the eastern and the southern edge of the zoom's grid; up to zoom 15 that is east of
      the antimeridian and south of the Mercator square. */
  predicate OnMap(mercator: Mercator, v: Point, z: nat) {
    (v.x + 180.0) / 360.0 < Worlds(z) as real && mercator(ClampedLatitude(v.y)) < Worlds(z) as real
  }

  lemma {:induction false} SideSplits(z: nat)
    ensures Pow2(z) == Worlds(z) * TilesPerAxis(z)
  {
    hide Pow2;
    Pow2Splits(MinInt(z, 15), z);
  }

  lemma {:induction false} SideFitsU32(z: nat)
    requires z <= 31
    ensures Pow2(z) <= U32_MAX
    decreases 31 - z
  {
    if z == 31 {
      assert Pow2(8) == 0x100;
      assert Pow2(16) == 0x1_0000;
      assert Pow2(24) == 0x100_0000;
      assert Pow2(31) == 0x8000_0000;
    } else {
      SideFitsU32(z + 1);
    }
  }

  lemma ToTileBelow(fraction: real, side: nat)
    requires side <= U32_MAX
    ensures ToTile(fraction) < side <==> side > 0 && fraction < side as real
  {}

  lemma ProductsCompare(share: real, w: nat, s: nat, side: nat)
    requires s > 0 && side == w * s
    ensures Scaled(share, s) < side as real <==> share < w as real
  {
    ProductOrdered(share, w as real, s as real, share * s as real, side as real);
  }

  /** A share of the square's side gives a tile of the grid exactly when it is short of the worlds that fit. */
  lemma {:induction false} ShareInGridIff(share: real, z: nat)
    requires z <= 31
    ensures ShareToTile(share, z) < Pow2(z) <==> share < Worlds(z) as real
  {
    hide ToTile, Pow2, Worlds, TilesPerAxis, Scaled;
    SideSplits(z);
    SideFitsU32(z);
    ToTileBelow(Scaled(share, TilesPerAxis(z)), Pow2(z));
    ProductsCompare(share, Worlds(z), TilesPerAxis(z), Pow2(z));
  }

  /** A vertex has its tile in the grid exactly when it is on the map. */
  lemma {:induction false} VertexInGridIff(mercator: Mercator, v: Point, z: nat)
    requires z <= 31
    ensures InGrid(z, LonToTileX(v.x, z), LatToTileY(mercator, v.y, z)) <==> OnMap(mercator, v, z)
  {
    hide ShareToTile, Pow2, Worlds, ClampedLatitude;
    ShareInGridIff((v.x + 180.0) / 360.0, z);
    ShareInGridIff(mercator(ClampedLatitude(v.y)), z);
  }

  /** The formulas do not clamp at the antimeridian: longitude 180 falls into a column past the last. */
  lemma {:induction false} AntimeridianOffGrid(z: nat, y: nat)
    requires z <= 15
    ensures LonToTileX(180.0, z) == Pow2(z) && !InGrid(z, LonToTileX(180.0, z), y)
  {
    hide Pow2;
    SideFitsU32(z);
    assert (180.0 + 180.0) / 360.0 * Pow2(z) as real == Pow2(z) as real;
  }

  /** Beyond zoom 15 every vertex keeps the column and row it has at zoom 15. */
  lemma {:induction false} DeepZoomsRepeat(mercator: Mercator, lon: real, lat: real, z: nat)
    requires z >= 15
    ensures LonToTileX(lon, z) == LonToTileX(lon, 15) && LatToTileY(mercator, lat, z) == LatToTileY(mercator, lat, 15)
  {}

  lemma {:induction false} Pow2Monotone(a: nat, b: nat)
    requires a <= b
    ensures Pow2(a) <= Pow2(b)
    decreases b
  {
    if a < b {
      Pow2Monotone(a, b - 1);
    }
  }

  /** What is on the map at one zoom is on it at every deeper one. */
  lemma {:induction false} OnMapDeeper(mercator: Mercator, v: Point, z: nat, deeper: nat)
    requires z <= deeper && OnMap(mercator, v, z)
    ensures OnMap(mercator, v, deeper)
  {
    hide Pow2;
    Pow2Monotone(z - MinInt(z, 15), deeper - MinInt(deeper, 15));
  }

  // ------------------------------------------------------------------ whole exports

  lemma {:induction false} VertexHasFeature(features: seq<Feature>, v: Point) returns (i: nat)
    requires v in AllVertices(features)
    ensures i < |features| && v in Vertices(features[i])
  {
    hide Vertices;
    var last := |features| - 1;
    if v in Vertices(features[last]) {
      i := last;
    } else {
      i := VertexHasFeature(features[..last], v);
    }
  }

  lemma OriginOnMap(mercator: Mercator, z: nat)
    requires IsMercator(mercator)
    ensures OnMap(mercator, Point(0.0, 0.0), z)
  {
    hide Pow2, Worlds;
    assert ClampedLatitude(0.0) == 0.0;
  }

  /** Every tile of a feature's own rectangle is in the grid when the feature is on the map. */
  lemma {:induction false} FeatureInGrid(mercator: Mercator, feature: Feature, z: nat, x: nat, y: nat)
    requires IsMercator(mercator) && z <= 31 && forall v <- Vertices(feature) :: OnMap(mercator, v, z)
    requires InTiles(WebMercator(mercator), BoundsOf(Vertices(feature)), (z, x, y))
    ensures InGrid(z, x, y)
  {
    hide Vertices, Box, OnMap, LonToTileX, LatToTileY, Pow2;
    var points := Vertices(feature);
    if points == [] {
      OriginOnMap(mercator, z);
      VertexInGridIff(mercator, Point(0.0, 0.0), z);
    } else {
      var left, low, right, high := BoxIsTight(points);
      VertexInGridIff(mercator, low, z);
      VertexInGridIff(mercator, right, z);
    }
  }

  /**
   * The bucketing stays inside the grid of a zoom exactly when every vertex is on the map, that
   * is, up to zoom 15, west of longitude 180 and north of the southern edge of the square.
   */
  lemma {:induction false} TilesInGridIff(mercator: Mercator, features: seq<Feature>, z: nat)
    requires IsMercator(mercator) && z <= 31
    ensures (forall i: nat, x: nat, y: nat ::
               i < |features| && Pushed(WebMercator(mercator), features, i, (z, x, y)) ==> InGrid(z, x, y))
            <==> forall v <- AllVertices(features) :: OnMap(mercator, v, z)
  {
    hide Vertices, AllVertices, OnMap, InGrid, InTiles, BoundsOf, LonToTileX, LatToTileY;
    var projection := WebMercator(mercator);
    WebMercatorMonotone(mercator);
    if forall v <- AllVertices(features) :: OnMap(mercator, v, z) {
      forall i: nat, x: nat, y: nat | i < |features| && Pushed(projection, features, i, (z, x, y))
        ensures InGrid(z, x, y)
      {
        FeatureVerticesIncluded(features, i);
        FeatureInGrid(mercator, features[i], z, x, y);
      }
    } else {
      var v :| v in AllVertices(features) && !OnMap(mercator, v, z);
      var i := VertexHasFeature(features, v);
      GuardsNeverDrop(projection, features, i, (z, 0, 0));
      VertexInGridIff(mercator, v, z);
      assert Pushed(projection, features, i, (z, projection.column(v.x, z), projection.row(v.y, z)));
    }
  }

  /** One feature whose ring has no vertex, and one feature away from the origin. */
  const COVERAGE_WITNESS: seq<Feature> := [[PolygonRing([], [])], [PolygonRing([Point(10.0, 10.0)], [])]]

  lemma {:induction false} TwoFeatures(a: Feature, b: Feature)
    ensures AllVertices([a, b]) == Vertices(a) + Vertices(b)
  {
    hide Vertices;
    assert [a, b][..1] == [a] && [a][..0] == [];
    assert AllVertices([a]) == [] + Vertices(a) == Vertices(a);
  }

  lemma {:induction false} OnePoint(p: Point)
    ensures BoundsOf([p]) == Bounds(p, p)
  {
    assert [p][..0] == [];
  }

  lemma {:induction false} WitnessVertices()
    ensures Vertices(COVERAGE_WITNESS[0]) == []
    ensures BoundsOf(AllVertices(COVERAGE_WITNESS)) == Bounds(Point(10.0, 10.0), Point(10.0, 10.0))
  {
    hide Vertices, AllVertices, BoundsOf;
    var far := Point(10.0, 10.0);
    OneRing([]);
    OneRing([far]);
    TwoFeatures([PolygonRing([], [])], [PolygonRing([far], [])]);
    OnePoint(far);
    assert [] + [far] == [far];
  }

  lemma TenthZoomColumns()
    ensures LonToTileX(0.0, 10) == 512 && LonToTileX(10.0, 10) == 540
  {
    assert Pow2(5) == 32;
    assert TilesPerAxis(10) == 1024;
  }

  /** The coverage check passes on it although the first feature is in no tile of zoom 10. */
  lemma {:induction false} CoverageMissesFeature(mercator: Mercator, atMaxZoom: set<nat>)
    requires IsMercator(mercator)
    requires atMaxZoom == set i | 0 <= i < |COVERAGE_WITNESS| && COVERAGE_WITNESS[i] != []
    ensures |atMaxZoom| == |COVERAGE_WITNESS| && !InSomeTile(WebMercator(mercator), COVERAGE_WITNESS, 0, 10)
  {
    hide LatToTileY, LonToTileX, Vertices, AllVertices, Box;
    WebMercatorMonotone(mercator);
    CoverageCountsRings(COVERAGE_WITNESS, atMaxZoom);
    InSomeTileIff(WebMercator(mercator), COVERAGE_WITNESS, 0, 10);
    WitnessVertices();
    TenthZoomColumns();
  }
}
