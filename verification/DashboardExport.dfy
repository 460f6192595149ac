/**
 * From bucketed tiles to a verified archive: the entry loop of `export_dashboard_pmtiles` and
 * `roundtrip_check` of crates/genegis-analysis/src/dashboard.rs.
 */
module DashboardExport {
  import opened Common
  import opened HilbertTileId
  import opened PmTilesDirectory
  import opened PmTilesArchive
  import opened DashboardTiles
  import opened TileFormulas
  import opened TileDrawing
  import opened RayCast
  import opened FloodZones

  /** `encode_polygon_tile`; an empty result means that nothing of the features lies in the tile. */
  type TileEncoder = (TileKey, seq<nat>) -> Bytes

  // ------------------------------------------------------------------ the entries

  function EntryOf(tiles: map<TileKey, seq<nat>>, encode: TileEncoder, key: TileKey): TileEntry
    requires key in tiles
  {
    TileEntry(key.0, key.1, key.2, encode(key, tiles[key]))
  }

  /** One entry per tile of `keys` that has something in it, and no others. */
  ghost predicate Collected(tiles: map<TileKey, seq<nat>>, encode: TileEncoder, keys: set<TileKey>,
                            entries: seq<TileEntry>)
    requires keys <= tiles.Keys
  {
    && DistinctTiles(entries)
    && forall e :: e in entries
                   <==> (e.z, e.x, e.y) in keys && e == EntryOf(tiles, encode, (e.z, e.x, e.y)) && e.bytes != []
  }

  method CollectEntries(tiles: map<TileKey, seq<nat>>, encode: TileEncoder) returns (entries: seq<TileEntry>)
    ensures Collected(tiles, encode, tiles.Keys, entries)
  {
    entries := [];
    var rest := tiles.Keys;
    while rest != {}
      invariant rest <= tiles.Keys
      invariant Collected(tiles, encode, tiles.Keys - rest, entries)
      decreases |rest|
    {
      var key :| key in rest;
      var bytes := encode(key, tiles[key]);
      if bytes != [] {
        var e := TileEntry(key.0, key.1, key.2, bytes);
        forall k | 0 <= k < |entries| ensures (entries[k].z, entries[k].x, entries[k].y) != key {
          assert entries[k] in entries;
        }
        entries := entries + [e];
      }
      rest := rest - {key};
    }
    assert tiles.Keys - {} == tiles.Keys;
  }

  predicate TileInGrid(key: TileKey) {
    key.0 <= 31 && InGrid(key.0, key.1, key.2)
  }

  /** The writer accepts the collected entries exactly when no tile outside the grid has anything in it. */
  lemma {:induction false} CollectedAcceptableIff(tiles: map<TileKey, seq<nat>>, encode: TileEncoder,
                                                  entries: seq<TileEntry>)
    requires Collected(tiles, encode, tiles.Keys, entries)
    ensures DistinctTiles(entries)
    ensures AllAcceptable(entries) <==> forall key <- tiles :: encode(key, tiles[key]) != [] ==> TileInGrid(key)
    ensures entries == [] <==> forall key <- tiles :: encode(key, tiles[key]) == []
  {
    hide InGrid, DistinctTiles;
    forall key | key in tiles && encode(key, tiles[key]) != []
      ensures EntryOf(tiles, encode, key) in entries
    {
    }
    forall k | 0 <= k < |entries|
      ensures (entries[k].z, entries[k].x, entries[k].y) in tiles
              && (Acceptable(entries[k]) <==> TileInGrid((entries[k].z, entries[k].x, entries[k].y)))
    {
      assert entries[k] in entries;
    }
    if AllAcceptable(entries) {
      forall key | key in tiles && encode(key, tiles[key]) != [] ensures TileInGrid(key) {
        assert EntryOf(tiles, encode, key) in entries;
      }
    }
    if entries != [] {
      assert entries[0] in entries;
    }
  }

  /** All vertices lie on the map of a zoom; up to zoom 15, west of 180 degrees and inside the square. */
  predicate AllOnMap(mercator: Mercator, features: seq<Feature>, z: nat) {
    forall v <- AllVertices(features) :: OnMap(mercator, v, z)
  }

  lemma {:induction false} NoVertices(features: seq<Feature>)
    requires forall i :: 0 <= i < |features| ==> Vertices(features[i]) == []
    ensures AllVertices(features) == []
  {
    hide Vertices;
    if features != [] {
      NoVertices(features[..|features| - 1]);
    }
  }

  lemma {:induction false} OriginPushed(projection: Projection, features: seq<Feature>, key: TileKey)
    requires features != [] && Vertices(features[0]) == [] && AllVertices(features) == []
    requires key == (key.0, projection.column(0.0, key.0), projection.row(0.0, key.0))
    ensures Pushed(projection, features, 0, key)
  {
    hide Vertices, AllVertices;
  }

  /** Every zoom of the range has a tile. */
  lemma {:induction false} SomeTile(mercator: Mercator, features: seq<Feature>, minZoom: nat, maxZoom: nat,
                                    tiles: map<TileKey, seq<nat>>, z: nat) returns (key: TileKey)
    requires IsMercator(mercator) && features != [] && minZoom <= z <= maxZoom
    requires Bucketed(WebMercator(mercator), features, minZoom, maxZoom, tiles)
    ensures key in tiles && key.0 == z
  {
    hide Bucketed, Vertices, Pushed;
    var projection := WebMercator(mercator);
    WebMercatorMonotone(mercator);
    if i :| 0 <= i < |features| && Vertices(features[i]) != [] {
      var v := Vertices(features[i])[0];
      key := (z, projection.column(v.x, z), projection.row(v.y, z));
      GuardsNeverDrop(projection, features, i, key);
      assert Pushed(projection, features, i, key);
      KeyIffPushed(projection, features, minZoom, maxZoom, tiles, key);
    } else {
      NoVertices(features);
      key := (z, projection.column(0.0, z), projection.row(0.0, z));
      OriginPushed(projection, features, key);
      KeyIffPushed(projection, features, minZoom, maxZoom, tiles, key);
    }
  }

  /**
   * All bucketed tiles lie in their grids exactly when the deepest zoom is one the writer knows
   * and every vertex is on the map of the shallowest zoom.
   */
  lemma {:induction false} BucketsInGridIff(mercator: Mercator, features: seq<Feature>, minZoom: nat, maxZoom: nat,
                                            tiles: map<TileKey, seq<nat>>)
    requires IsMercator(mercator) && features != [] && minZoom <= maxZoom
    requires Bucketed(WebMercator(mercator), features, minZoom, maxZoom, tiles)
    ensures (forall key <- tiles :: TileInGrid(key)) <==> maxZoom <= 31 && AllOnMap(mercator, features, minZoom)
  {
    hide InGrid, OnMap, Bucketed, Pushed, AllVertices, WebMercator, IsMercator;
    var projection := WebMercator(mercator);
    if maxZoom <= 31 && AllOnMap(mercator, features, minZoom) {
      forall key: TileKey | key in tiles ensures TileInGrid(key) {
        KeyIffPushed(projection, features, minZoom, maxZoom, tiles, key);
        forall v | v in AllVertices(features) ensures OnMap(mercator, v, key.0) {
          OnMapDeeper(mercator, v, minZoom, key.0);
        }
        TilesInGridIff(mercator, features, key.0);
        var i: nat :| i < |features| && Pushed(projection, features, i, key);
        var (z, x, y) := key;
        assert Pushed(projection, features, i, (z, x, y));
      }
    }
    if forall key <- tiles :: TileInGrid(key) {
      var deepest := SomeTile(mercator, features, minZoom, maxZoom, tiles, maxZoom);
      assert maxZoom <= 31;
      forall i: nat, x: nat, y: nat | i < |features| && Pushed(projection, features, i, (minZoom, x, y))
        ensures InGrid(minZoom, x, y)
      {
        KeyIffPushed(projection, features, minZoom, maxZoom, tiles, (minZoom, x, y));
        assert TileInGrid((minZoom, x, y));
      }
      TilesInGridIff(mercator, features, minZoom);
    }
  }

  /**
   * The export over the whole zoom range: with every vertex on the map of the shallowest zoom
   * the writer refuses no tile, and when every tile encodes to something it refuses one otherwise.
   */
  lemma {:induction false} CollectedIsAcceptable(mercator: Mercator, features: seq<Feature>, minZoom: nat, maxZoom: nat,
                                                 tiles: map<TileKey, seq<nat>>, encode: TileEncoder,
                                                 entries: seq<TileEntry>)
    requires IsMercator(mercator) && features != [] && minZoom <= maxZoom
    requires Bucketed(WebMercator(mercator), features, minZoom, maxZoom, tiles)
    requires Collected(tiles, encode, tiles.Keys, entries)
    ensures DistinctTiles(entries)
    ensures maxZoom <= 31 && AllOnMap(mercator, features, minZoom) ==> AllAcceptable(entries)
    ensures (forall key <- tiles :: encode(key, tiles[key]) != []) ==>
      (AllAcceptable(entries) <==> maxZoom <= 31 && AllOnMap(mercator, features, minZoom))
  {
    hide Bucketed, AllOnMap, TileInGrid, Collected, AllAcceptable, DistinctTiles;
    BucketsInGridIff(mercator, features, minZoom, maxZoom, tiles);
    CollectedAcceptableIff(tiles, encode, entries);
  }

  /**
   * A vertex on longitude 180: its tile is past the last column at every zoom up to 15, and as
   * soon as anything of the map is drawn there the whole archive is refused.
   */
  lemma {:induction false} AntimeridianRefused(mercator: Mercator, features: seq<Feature>, minZoom: nat, maxZoom: nat,
                                               tiles: map<TileKey, seq<nat>>, encode: TileEncoder,
                                               entries: seq<TileEntry>,
                                               v: Point)
    requires IsMercator(mercator) && minZoom <= maxZoom && minZoom <= 15
    requires Bucketed(WebMercator(mercator), features, minZoom, maxZoom, tiles)
    requires Collected(tiles, encode, tiles.Keys, entries)
    requires v in AllVertices(features) && v.x == 180.0
    ensures var key := (minZoom, Pow2(minZoom), LatToTileY(mercator, v.y, minZoom));
            key in tiles && (encode(key, tiles[key]) != [] ==> !AllAcceptable(entries))
  {
    hide Bucketed, Collected, Vertices, AllVertices, LatToTileY, LonToTileX, AllAcceptable, Pushed, DistinctTiles;
    var projection := WebMercator(mercator);
    var key := (minZoom, Pow2(minZoom), LatToTileY(mercator, v.y, minZoom));
    WebMercatorMonotone(mercator);
    AntimeridianOffGrid(minZoom, key.2);
    var i := VertexHasFeature(features, v);
    GuardsNeverDrop(projection, features, i, key);
    assert Pushed(projection, features, i, (minZoom, projection.column(v.x, minZoom), projection.row(v.y, minZoom)));
    KeyIffPushed(projection, features, minZoom, maxZoom, tiles, key);
    CollectedAcceptableIff(tiles, encode, entries);
  }

  /** The encoder leaves a tile empty exactly when none of its features is drawn in it. */
  ghost predicate Draws(mercator: Mercator, features: seq<Feature>, encode: TileEncoder) {
    forall key: TileKey, indices: seq<nat> :: encode(key, indices) != [] <==> Drawn(mercator, features, key, indices)
  }

  lemma FirstPartDrawn(mercator: Mercator, feature: Feature, key: TileKey)
    requires feature != [] && |ProjectRing(mercator, feature[0].coords, key)| >= 3
    ensures FeatureDrawn(mercator, feature, key)
  {
    hide ProjectRing;
    assert feature[0] in feature;
  }

  lemma {:induction false} PushedIsListed(projection: Projection, features: seq<Feature>, minZoom: nat, maxZoom: nat,
                                          tiles: map<TileKey, seq<nat>>, key: TileKey, i: nat)
    requires Bucketed(projection, features, minZoom, maxZoom, tiles) && key in tiles
    requires i < |features| && Pushed(projection, features, i, key)
    ensures i in tiles[key]
  {
    hide Pushed;
    TileFeaturesExact(projection, features, |features|, key);
    assert DashboardTiles.Bucket(tiles, key) == tiles[key];
    assert tiles[key] != [];
  }

  lemma {:induction false} RowOfTile(mercator: Mercator, lat: real, z: nat, row: nat)
    requires InRow(mercator, lat, z, row) && z <= 15 && row < Pow2(z)
    ensures LatToTileY(mercator, lat, z) == row
  {
    hide TilesPerAxis, Scaled, ClampedLatitude, Pow2;
    SideFitsU32(z);
  }

  /**
   * A failing map: three vertices on longitude 180, in one tile row of the shallowest zoom but in
   * different pixel rows.  The tile past the last column is drawn, and the archive is refused.
   */
  lemma {:induction false} AntimeridianTriangleRefused(mercator: Mercator, features: seq<Feature>, minZoom: nat,
                                                       maxZoom: nat,
                                                       tiles: map<TileKey, seq<nat>>, encode: TileEncoder,
                                                       entries: seq<TileEntry>, i: nat, a: real, b: real, c: real,
                                                       row: nat)
    requires IsMercator(mercator) && minZoom <= maxZoom && minZoom <= 15
    requires Bucketed(WebMercator(mercator), features, minZoom, maxZoom, tiles)
    requires Collected(tiles, encode, tiles.Keys, entries) && Draws(mercator, features, encode)
    requires i < |features| && features[i] == [PolygonRing(Meridian(a, b, c), [])] && row < Pow2(minZoom)
    requires InRow(mercator, a, minZoom, row) && InRow(mercator, b, minZoom, row) && InRow(mercator, c, minZoom, row)
    requires var pixel := (lat: real) => PixelRow(mercator, lat, minZoom, row);
             pixel(a) != pixel(b) && pixel(b) != pixel(c) && pixel(a) != pixel(c)
    ensures !AllAcceptable(entries)
  {
    hide Bucketed, Collected, Vertices, AllVertices, LatToTileY, LonToTileX, AllAcceptable, Pushed, DistinctTiles;
    hide ProjectRing, TileFeatures, InRow, PixelRow, Pow2;
    var projection := WebMercator(mercator);
    var key := (minZoom, Pow2(minZoom), row);
    WebMercatorMonotone(mercator);
    AntimeridianOffGrid(minZoom, row);
    RowOfTile(mercator, a, minZoom, row);
    OneRing(Meridian(a, b, c));
    var v := Point(180.0, a);
    assert v in Vertices(features[i]) by {
      assert v == Meridian(a, b, c)[0];
    }
    GuardsNeverDrop(projection, features, i, key);
    assert Pushed(projection, features, i, (minZoom, projection.column(v.x, minZoom), projection.row(v.y, minZoom)));
    KeyIffPushed(projection, features, minZoom, maxZoom, tiles, key);
    PushedIsListed(projection, features, minZoom, maxZoom, tiles, key, i);
    MeridianDrawn(mercator, a, b, c, minZoom, row);
    FirstPartDrawn(mercator, features[i], key);
    CollectedAcceptableIff(tiles, encode, entries);
  }

  // ------------------------------------------------------------------ the sampled round trip

  function SampleSize(requested: nat, count: nat): nat {
    MinInt(MaxInt(requested, 1), count)
  }

  function Stride(count: nat, size: nat): nat
    requires size > 0
  {
    MaxInt(count / size, 1)
  }

  /** As many samples as asked for, at least one and at most all, spread evenly over the list. */
  lemma {:induction false} SamplesSpread(requested: nat, count: nat)
    requires count > 0
    ensures var size := SampleSize(requested, count);
            && 1 <= size <= count && (1 <= requested <= count ==> size == requested)
            && (requested == 0 ==> size == 1) && (requested > count ==> size == count)
            && Stride(count, size) * size <= count < (Stride(count, size) + 1) * size
  {
    var size := SampleSize(requested, count);
    var stride := count / size;
    assert count == stride * size + count % size;
    assert (stride + 1) * size == stride * size + size;
  }

  lemma ProductGrows(a: nat, b: nat, c: nat)
    requires a <= b
    ensures 0 <= a * c <= b * c
  {
    assert b * c == a * c + (b - a) * c;
  }

  /** Every sample lies inside the list, so the check compares as many tiles as it set out to. */
  lemma SampleInRange(count: nat, size: nat, k: nat)
    requires 0 < size <= count && k < size
    ensures 0 <= k * Stride(count, size) < count
  {
    var stride := count / size;
    assert stride * size <= count;
    ProductGrows(k, size - 1, stride);
    assert (size - 1) * stride == size * stride - stride;
  }

  predicate SampleReadsBack(codec: Codec, archive: Archive, entries: seq<TileEntry>, size: nat, k: nat)
    requires 0 < size <= |entries| && k < size
  {
    SampleInRange(|entries|, size, k);
    var e := entries[k * Stride(|entries|, size)];
    ReadPayload(codec, archive, e.z, e.x, e.y) == Ok(e.bytes)
  }

  ghost predicate SamplesReadBack(codec: Codec, archive: Archive, entries: seq<TileEntry>, size: nat)
    requires 0 < size <= |entries|
  {
    forall k: nat :: k < size ==> SampleReadsBack(codec, archive, entries, size, k)
  }

  /** Read every stride-th tile back and compare; an unreadable payload counts as empty. */
  method RoundtripCheck(codec: Codec, archive: Archive, entries: seq<TileEntry>, requested: nat)
    returns (passed: bool, compared: nat, mismatches: seq<nat>)
    requires entries != [] && forall e <- entries :: e.bytes != []
    ensures compared == SampleSize(requested, |entries|)
    ensures passed <==> SamplesReadBack(codec, archive, entries, SampleSize(requested, |entries|))
  {
    hide ReadTile, Unpacked;
    var size := SampleSize(requested, |entries|);
    var stride := Stride(|entries|, size);
    compared, mismatches := 0, [];
    var at: nat := 0;
    while at < |entries| && compared < size
      invariant compared <= size && at == compared * stride
      invariant mismatches == [] <==> forall k: nat :: k < compared ==>
        SampleReadsBack(codec, archive, entries, size, k)
      decreases size - compared
    {
      var e := entries[at];
      assert e in entries;
      ghost var before := mismatches;
      match ReadTile(codec, archive, e.z, e.x, e.y) {
        case Err(_) =>
          mismatches := mismatches + [at];
        case Ok(bytes) =>
          var decoded := if archive.header.compressed then Unpacked(codec, bytes).GetOr([]) else bytes;
          if decoded != e.bytes {
            mismatches := mismatches + [at];
          }
      }
      assert SampleReadsBack(codec, archive, entries, size, compared) <==> mismatches == before;
      assert (compared + 1) * stride == compared * stride + stride;
      compared := compared + 1;
      at := at + stride;
    }
    if compared < size {
      SampleInRange(|entries|, size, compared);
    }
    passed := compared > 0 && mismatches == [];
  }

  predicate SamplePayloadReadable(codec: Codec, compress: bool, entries: seq<TileEntry>, size: nat, k: nat)
    requires 0 < size <= |entries| && k < size
  {
    SampleInRange(|entries|, size, k);
    PayloadReadable(codec, compress, entries[k * Stride(|entries|, size)])
  }

  /** What a passed check says about a written archive. */
  lemma {:induction false} CheckPassesIff(codec: Codec, compress: bool, entries: seq<TileEntry>, metadata: Bytes,
                                          archive: Archive, size: nat)
    requires Written(codec, compress, entries, metadata, archive) && 0 < size <= |entries|
    ensures SamplesReadBack(codec, archive, entries, size)
            <==> && DirectoryReadable(codec, SortTiles(codec, compress, entries))
                 && forall k: nat :: k < size ==> SamplePayloadReadable(codec, compress, entries, size, k)
  {
    hide ReadPayload, DirectoryReadable, PayloadReadable, SortTiles, DirectoryOf, Writable;
    forall k: nat | k < size
      ensures SampleReadsBack(codec, archive, entries, size, k)
              <==> DirectoryReadable(codec, SortTiles(codec, compress, entries))
                   && SamplePayloadReadable(codec, compress, entries, size, k)
    {
      SampleInRange(|entries|, size, k);
      WrittenTileReadsBack(codec, compress, entries, metadata, archive, entries[k * Stride(|entries|, size)]);
    }
    assert SamplesReadBack(codec, archive, entries, size) ==> SampleReadsBack(codec, archive, entries, size, 0);
  }

  /** A passed sample vouches for the rest: any other tile fails to read back only by its own size. */
  lemma {:induction false} PassedCheckCoversAll(codec: Codec, compress: bool, entries: seq<TileEntry>,
                                                metadata: Bytes, archive: Archive,
                             size: nat, e: TileEntry)
    requires Written(codec, compress, entries, metadata, archive) && 0 < size <= |entries| && e in entries
    requires SamplesReadBack(codec, archive, entries, size)
    ensures ReadPayload(codec, archive, e.z, e.x, e.y) == Ok(e.bytes) <==> PayloadReadable(codec, compress, e)
  {
    hide ReadPayload, DirectoryReadable, PayloadReadable, Written, SamplesReadBack;
    CheckPassesIff(codec, compress, entries, metadata, archive, size);
    WrittenTileReadsBack(codec, compress, entries, metadata, archive, e);
  }
}
