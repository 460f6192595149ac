/**
 * Tile bucketing of the dashboard export: the loops of `export_dashboard_pmtiles` and
 * `bounds_of` in crates/genegis-analysis/src/dashboard.rs.
 *
 * The projections are parameters; all that is used of them is that columns do not fall eastward
 * and rows do not fall southward.
 */
module DashboardTiles {
  import opened Common
  import opened RayCast
  import opened FloodZones

  /** `lon_to_tile_x` and `lat_to_tile_y`: coordinate and zoom to tile column and row. */
  datatype Projection = Projection(column: (real, nat) -> nat, row: (real, nat) -> nat)

  ghost predicate Monotone(projection: Projection) {
    && (forall a: real, b: real, z: nat :: a <= b ==> projection.column(a, z) <= projection.column(b, z))
    && (forall a: real, b: real, z: nat :: a <= b ==> projection.row(b, z) <= projection.row(a, z))
  }

  /** One feature: its polygon parts. */
  type Feature = seq<PolygonRing>

  type TileKey = (nat, nat, nat)

  /** Bounds of the points; all zero without any. */
  function BoundsOf(points: seq<Point>): Bounds {
    match Box(points)
    case None => Bounds(Point(0.0, 0.0), Point(0.0, 0.0))
    case Some(b) => b
  }

  function AllVertices(features: seq<Feature>): seq<Point> {
    if features == [] then [] else AllVertices(features[..|features| - 1]) + Vertices(features[|features| - 1])
  }

  /** The tiles of a rectangle at one zoom. */
  predicate InTiles(projection: Projection, b: Bounds, key: TileKey) {
    && projection.column(b.min.x, key.0) <= key.1 <= projection.column(b.max.x, key.0)
    && projection.row(b.max.y, key.0) <= key.2 <= projection.row(b.min.y, key.0)
  }

  /** What one turn of the loops decides about one feature and one tile. */
  predicate Pushed(projection: Projection, features: seq<Feature>, i: nat, key: TileKey)
    requires i < |features|
  {
    && InTiles(projection, BoundsOf(Vertices(features[i])), key)
    && InTiles(projection, BoundsOf(AllVertices(features)), key)
  }

  /** The features of a tile: every index once, in order. */
  function TileFeatures(projection: Projection, features: seq<Feature>, n: nat, key: TileKey): seq<nat>
    requires n <= |features|
  {
    if n == 0 then []
    else TileFeatures(projection, features, n - 1, key)
         + if Pushed(projection, features, n - 1, key) then [n - 1] else []
  }

  /** The share of the first n features in one zoom's tiles; other zooms are not touched. */
  function FeaturesSoFar(projection: Projection, features: seq<Feature>, n: nat, zoom: nat, key: TileKey): seq<nat>
    requires n <= |features|
  {
    if key.0 == zoom then TileFeatures(projection, features, n, key) else []
  }

  lemma FeaturesOfNone(projection: Projection, features: seq<Feature>, zoom: nat, key: TileKey)
    ensures FeaturesSoFar(projection, features, 0, zoom, key) == []
  {}

  lemma FeaturesOfOneMore(projection: Projection, features: seq<Feature>, n: nat, zoom: nat, key: TileKey)
    requires n < |features|
    ensures FeaturesSoFar(projection, features, n + 1, zoom, key)
            == FeaturesSoFar(projection, features, n, zoom, key)
               + if key.0 == zoom && InTiles(projection, BoundsOf(Vertices(features[n])), key)
                    && InTiles(projection, BoundsOf(AllVertices(features)), key)
                 then [n] else []
  {
    hide InTiles, BoundsOf, Vertices, AllVertices;
  }

  function Bucket(tiles: map<TileKey, seq<nat>>, key: TileKey): seq<nat> {
    if key in tiles then tiles[key] else []
  }

  /** Tiles come into being with their first feature. */
  predicate NoEmptyBucket(tiles: map<TileKey, seq<nat>>) {
    forall key <- tiles :: tiles[key] != []
  }

  /** What the bucketing has to produce for a zoom range. */
  ghost predicate Bucketed(projection: Projection, features: seq<Feature>, minZoom: nat, maxZoom: nat,
                           tiles: map<TileKey, seq<nat>>) {
    && NoEmptyBucket(tiles)
    && forall key: TileKey ::
         Bucket(tiles, key)
         == if minZoom <= key.0 <= maxZoom then TileFeatures(projection, features, |features|, key) else []
  }

  method BoundsOfPoints(points: seq<Point>) returns (b: Bounds)
    ensures b == BoundsOf(points)
  {
    hide Grow;
    var box: Option<Bounds> := None;
    for i := 0 to |points|
      invariant box == Box(points[..i])
    {
      BoxOfOneMore(points[..i], points[i]);
      assert points[..i + 1] == points[..i] + [points[i]];
      box := Grow(box, points[i]);
    }
    assert points[..|points|] == points;
    b := match box case None => Bounds(Point(0.0, 0.0), Point(0.0, 0.0)) case Some(bounds) => bounds;
  }

  /** The column and row loops with their guards. */
  method PushFeature(projection: Projection, tiles0: map<TileKey, seq<nat>>, zoom: nat, bounds: Bounds, whole: Bounds,
                     index: nat)
    returns (tiles: map<TileKey, seq<nat>>)
    ensures NoEmptyBucket(tiles0) ==> NoEmptyBucket(tiles)
    ensures forall key: TileKey ::
      Bucket(tiles, key)
      == Bucket(tiles0, key)
         + if key.0 == zoom && InTiles(projection, bounds, key) && InTiles(projection, whole, key) then [index] else []
  {
    tiles := tiles0;
    var x0, x1 := projection.column(bounds.min.x, zoom), projection.column(bounds.max.x, zoom);
    var y0, y1 := projection.row(bounds.max.y, zoom), projection.row(bounds.min.y, zoom);
    var x: nat := x0;
    while x <= x1
      invariant x0 <= x
      invariant NoEmptyBucket(tiles0) ==> NoEmptyBucket(tiles)
      invariant forall key: TileKey ::
        Bucket(tiles, key)
        == Bucket(tiles0, key)
           + if key.0 == zoom && InTiles(projection, bounds, key) && InTiles(projection, whole, key) && key.1 < x
             then [index] else []
      decreases x1 + 1 - x
    {
      if projection.column(whole.min.x, zoom) <= x <= projection.column(whole.max.x, zoom) {
        var y: nat := y0;
        while y <= y1
          invariant y0 <= y
          invariant NoEmptyBucket(tiles0) ==> NoEmptyBucket(tiles)
          invariant forall key: TileKey ::
            Bucket(tiles, key)
            == Bucket(tiles0, key)
               + if key.0 == zoom && InTiles(projection, bounds, key) && InTiles(projection, whole, key)
                    && (key.1 < x || (key.1 == x && key.2 < y))
                 then [index] else []
          decreases y1 + 1 - y
        {
          if projection.row(whole.max.y, zoom) <= y <= projection.row(whole.min.y, zoom) {
            var key := (zoom, x, y);
            tiles := tiles[key := Bucket(tiles, key) + [index]];
          }
          y := y + 1;
        }
      }
      x := x + 1;
    }
  }

  /** The feature loop of one zoom. */
  method BucketZoom(projection: Projection, features: seq<Feature>, whole: Bounds, zoom: nat, tiles0: map<TileKey,
                    seq<nat>>)
    returns (tiles: map<TileKey, seq<nat>>, identities: set<nat>)
    requires whole == BoundsOf(AllVertices(features))
    ensures NoEmptyBucket(tiles0) ==> NoEmptyBucket(tiles)
    ensures forall key: TileKey ::
      Bucket(tiles, key) == Bucket(tiles0, key) + FeaturesSoFar(projection, features, |features|, zoom, key)
    ensures identities == set i | 0 <= i < |features| && features[i] != []
  {
    hide *;
    tiles, identities := tiles0, {};
    forall key: TileKey ensures FeaturesSoFar(projection, features, 0, zoom, key) == [] {
      FeaturesOfNone(projection, features, zoom, key);
    }
    for n := 0 to |features|
      invariant NoEmptyBucket(tiles0) ==> NoEmptyBucket(tiles)
      invariant forall key: TileKey ::
        Bucket(tiles, key) == Bucket(tiles0, key) + FeaturesSoFar(projection, features, n, zoom, key)
      invariant identities == set i | 0 <= i < n && features[i] != []
    {
      var bounds := BoundsOfPoints(Vertices(features[n]));
      ghost var before := tiles;
      tiles := PushFeature(projection, tiles, zoom, bounds, whole, n);
      forall key: TileKey
        ensures Bucket(tiles, key) == Bucket(tiles0, key) + FeaturesSoFar(projection, features, n + 1, zoom, key)
      {
        FeaturesOfOneMore(projection, features, n, zoom, key);
        assert Bucket(before, key) == Bucket(tiles0, key) + FeaturesSoFar(projection, features, n, zoom, key);
      }
      if features[n] != [] {
        identities := identities + {n};
      }
    }
  }

  /** All zooms, all features: bucket each feature and collect the identities at the deepest zoom. */
  method BucketFeatures(projection: Projection, features: seq<Feature>, minZoom: nat, maxZoom: nat)
    returns (tiles: map<TileKey, seq<nat>>, atMaxZoom: set<nat>)
    requires minZoom <= maxZoom
    ensures Bucketed(projection, features, minZoom, maxZoom, tiles)
    ensures atMaxZoom == set i | 0 <= i < |features| && features[i] != []
  {
    hide BoundsOf, InTiles, TileFeatures, Vertices, AllVertices;
    tiles, atMaxZoom := map[], {};
    var whole := BoundsOfPoints(AllVertices(features));
    for zoom := minZoom to maxZoom + 1
      invariant NoEmptyBucket(tiles)
      invariant forall key: TileKey ::
        Bucket(tiles, key)
        == if minZoom <= key.0 < zoom then TileFeatures(projection, features, |features|, key) else []
      invariant atMaxZoom == if zoom <= maxZoom then {} else set i | 0 <= i < |features| && features[i] != []
    {
      var identities;
      tiles, identities := BucketZoom(projection, features, whole, zoom, tiles);
      if zoom == maxZoom {
        atMaxZoom := identities;
      }
    }
  }

  // ------------------------------------------------------------------ what the buckets promise

  lemma {:induction false} TileFeaturesExact(projection: Projection, features: seq<Feature>, n: nat, key: TileKey)
    requires n <= |features|
    ensures var t := TileFeatures(projection, features, n, key);
            && (forall a :: 0 <= a < |t| ==> t[a] < n)
            && (forall a, b :: 0 <= a < b < |t| ==> t[a] < t[b])
            && (forall i: nat :: i in t <==> i < n && Pushed(projection, features, i, key))
  {
    hide Pushed;
    if n > 0 {
      TileFeaturesExact(projection, features, n - 1, key);
    }
  }

  lemma {:induction false} FeatureVerticesIncluded(features: seq<Feature>, i: nat)
    requires i < |features|
    ensures forall v <- Vertices(features[i]) :: v in AllVertices(features)
    decreases |features|
  {
    hide Vertices;
    if i < |features| - 1 {
      FeatureVerticesIncluded(features[..|features| - 1], i);
    }
  }

  /** A feature's own box lies inside the box of all features. */
  lemma {:induction false} OwnBoxInWhole(features: seq<Feature>, i: nat)
    requires i < |features| && Vertices(features[i]) != []
    ensures var own, whole := BoundsOf(Vertices(features[i])), BoundsOf(AllVertices(features));
            && whole.min.x <= own.min.x && whole.min.y <= own.min.y
            && own.max.x <= whole.max.x && own.max.y <= whole.max.y
  {
    hide Vertices, AllVertices, Box;
    var points, all := Vertices(features[i]), AllVertices(features);
    FeatureVerticesIncluded(features, i);
    assert points[0] in points && points[0] in all;
    var l, w, r, h := BoxIsTight(points);
    var l', w', r', h' := BoxIsTight(all);
    assert Covers(Box(all).value, l) && Covers(Box(all).value, w)
           && Covers(Box(all).value, r) && Covers(Box(all).value, h);
  }

  lemma VertexCovered(feature: Feature, v: Point)
    requires v in Vertices(feature)
    ensures Covers(BoundsOf(Vertices(feature)), v)
  {
    hide Box;
    var l, w, r, h := BoxIsTight(Vertices(feature));
  }

  /**
   * The guards over the whole map never drop a feature that has vertices: it is in exactly the
   * tiles of its own rectangle, among them the tile of each of its vertices.
   */
  lemma GuardsNeverDrop(projection: Projection, features: seq<Feature>, i: nat, key: TileKey)
    requires Monotone(projection) && i < |features| && Vertices(features[i]) != []
    ensures Pushed(projection, features, i, key) <==> InTiles(projection, BoundsOf(Vertices(features[i])), key)
    ensures forall v <- Vertices(features[i]) ::
      Pushed(projection, features, i, (key.0, projection.column(v.x, key.0), projection.row(v.y, key.0)))
  {
    hide BoundsOf, Vertices, AllVertices;
    var own, whole := BoundsOf(Vertices(features[i])), BoundsOf(AllVertices(features));
    OwnBoxInWhole(features, i);
    forall v | v in Vertices(features[i])
      ensures Pushed(projection, features, i, (key.0, projection.column(v.x, key.0), projection.row(v.y, key.0)))
    {
      VertexCovered(features[i], v);
    }
  }

  /** The column and row lie between those of vertices on both sides. */
  ghost predicate BetweenVertices(projection: Projection, points: seq<Point>, key: TileKey) {
    && (exists v <- points :: projection.column(v.x, key.0) <= key.1)
    && (exists v <- points :: key.1 <= projection.column(v.x, key.0))
    && (exists v <- points :: projection.row(v.y, key.0) <= key.2)
    && (exists v <- points :: key.2 <= projection.row(v.y, key.0))
  }

  /** The tiles of a feature without its box: column and row lie between those of its vertices. */
  lemma {:induction false} PushedIffBetween(projection: Projection, features: seq<Feature>, i: nat, key: TileKey)
    requires Monotone(projection) && i < |features| && Vertices(features[i]) != []
    ensures Pushed(projection, features, i, key) <==> BetweenVertices(projection, Vertices(features[i]), key)
  {
    hide Vertices, AllVertices, Pushed, Box;
    var points := Vertices(features[i]);
    GuardsNeverDrop(projection, features, i, key);
    var left, low, right, high := BoxIsTight(points);
    forall v | v in points ensures left.x <= v.x <= right.x && low.y <= v.y <= high.y {
      VertexCovered(features[i], v);
    }
  }

  /** A tile exists exactly when some feature was pushed into it. */
  lemma {:induction false} KeyIffPushed(projection: Projection, features: seq<Feature>, minZoom: nat, maxZoom: nat,
                                        tiles: map<TileKey, seq<nat>>, key: TileKey)
    requires Bucketed(projection, features, minZoom, maxZoom, tiles)
    ensures key in tiles
            <==> minZoom <= key.0 <= maxZoom && exists i :: 0 <= i < |features| && Pushed(projection, features, i, key)
  {
    hide Pushed;
    TileFeaturesExact(projection, features, |features|, key);
    var t := TileFeatures(projection, features, |features|, key);
    assert Bucket(tiles, key) == if minZoom <= key.0 <= maxZoom then t else [];
    if t != [] {
      var first := t[0];
      assert first in t;
      assert first < |features|;
      assert Pushed(projection, features, first, key);
    }
    if i :| 0 <= i < |features| && Pushed(projection, features, i, key) {
      var n: nat := i;
      assert n in t;
    }
  }

  // ------------------------------------------------------------------ the coverage check

  /** The tile at longitude and latitude zero lies among the tiles of the whole map. */
  predicate OriginInside(projection: Projection, features: seq<Feature>, zoom: nat) {
    InTiles(projection, BoundsOf(AllVertices(features)),
            (zoom, projection.column(0.0, zoom), projection.row(0.0, zoom)))
  }

  ghost predicate InSomeTile(projection: Projection, features: seq<Feature>, i: nat, zoom: nat)
    requires i < |features|
  {
    exists x: nat, y: nat :: Pushed(projection, features, i, (zoom, x, y))
  }

  /** A feature is in a tile exactly when it has a vertex or the tile of the origin lies inside the map. */
  lemma {:induction false} InSomeTileIff(projection: Projection, features: seq<Feature>, i: nat, zoom: nat)
    requires Monotone(projection) && i < |features|
    ensures InSomeTile(projection, features, i, zoom)
            <==> Vertices(features[i]) != [] || OriginInside(projection, features, zoom)
  {
    hide Vertices, AllVertices;
    var x, y := projection.column(0.0, zoom), projection.row(0.0, zoom);
    if Vertices(features[i]) != [] {
      var v := Vertices(features[i])[0];
      GuardsNeverDrop(projection, features, i, (zoom, x, y));
      assert Pushed(projection, features, i, (zoom, projection.column(v.x, zoom), projection.row(v.y, zoom)));
    } else {
      assert BoundsOf(Vertices(features[i])) == Bounds(Point(0.0, 0.0), Point(0.0, 0.0));
      assert forall a: nat, b: nat :: Pushed(projection, features, i, (zoom, a, b)) ==> a == x && b == y;
      assert Pushed(projection, features, i, (zoom, x, y)) <==> OriginInside(projection, features, zoom);
    }
  }

  function Below(n: nat): (r: set<nat>)
    ensures |r| == n && forall i: nat :: i in r <==> i < n
  {
    if n == 0 then {} else Below(n - 1) + {n - 1}
  }

  lemma {:induction false} SubsetSize(a: set<nat>, b: set<nat>)
    requires a <= b
    ensures |a| <= |b|
    decreases |a|
  {
    if a != {} {
      var x :| x in a;
      SubsetSize(a - {x}, b - {x});
    }
  }

  /**
   * The coverage check compares the number of features with a ring against all features: it
   * passes exactly when no feature is without rings.
   */
  lemma {:induction false} CoverageCountsRings(features: seq<Feature>, atMaxZoom: set<nat>)
    requires atMaxZoom == set i | 0 <= i < |features| && features[i] != []
    ensures |atMaxZoom| == |features| <==> forall i :: 0 <= i < |features| ==> features[i] != []
  {
    var all := Below(|features|);
    if forall i :: 0 <= i < |features| ==> features[i] != [] {
      assert atMaxZoom == all;
    } else {
      var i :| 0 <= i < |features| && features[i] == [];
      assert atMaxZoom <= all - {i};
      SubsetSize(atMaxZoom, all - {i});
      assert |all - {i}| == |features| - 1;
    }
  }

  /**
   * So a passed check does not mean that every feature is in a tile of the deepest zoom: that
   * is so exactly when every feature also has a vertex, or the tile of the origin happens to lie
   * inside the map.
   */
  lemma {:induction false} CoverageMeansTilesIff(projection: Projection, features: seq<Feature>, zoom: nat,
                                                 atMaxZoom: set<nat>)
    requires Monotone(projection) && atMaxZoom == set i | 0 <= i < |features| && features[i] != []
    ensures (|atMaxZoom| == |features| ==> forall i :: 0 <= i < |features| ==>
      InSomeTile(projection, features, i, zoom))
            <==> || (exists i :: 0 <= i < |features| && features[i] == [])
                 || (forall i :: 0 <= i < |features| ==> Vertices(features[i]) != [])
                 || OriginInside(projection, features, zoom)
  {
    hide Vertices, AllVertices, InSomeTile, OriginInside;
    CoverageCountsRings(features, atMaxZoom);
    forall i | 0 <= i < |features|
      ensures InSomeTile(projection, features, i, zoom)
              <==> Vertices(features[i]) != [] || OriginInside(projection, features, zoom)
    {
      InSomeTileIff(projection, features, i, zoom);
    }
  }
}
