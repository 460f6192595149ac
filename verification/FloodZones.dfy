/**
 * The uniform-grid index over flood zones: crates/genegis-analysis/src/zone_index.rs.
 *
 * `Build` fills the buckets with nested loops and `DepthAt` filters one bucket by bounding
 * box.  Both are tied to functions of the zone list, and those are compared with the scan of
 * every polygon that the index replaces.
 */
module FloodZones {
  import opened Common
  import opened RayCast

  datatype FloodZone = FloodZone(zoneId: string, name: string, depthClassM: real, rings: seq<PolygonRing>)

  type Cell = (int, int)

  datatype ZoneIndex = ZoneIndex(zones: seq<FloodZone>, bounds: seq<Bounds>, buckets: map<Cell, seq<nat>>)

  /** Bucket edge in degrees. */
  const CELL_DEG: real := 0.01

  function CellOf(value: real): int {
    (value / CELL_DEG).Floor
  }

  function CellOfPoint(p: Point): Cell {
    (CellOf(p.x), CellOf(p.y))
  }

  lemma CellOfMonotone(a: real, b: real)
    requires a <= b
    ensures CellOf(a) <= CellOf(b)
  {
    assert a / CELL_DEG <= b / CELL_DEG;
  }

  /** Cells are a hundredth of a degree wide. */
  lemma CellIff(value: real, c: int)
    ensures CellOf(value) == c <==> c as real * 0.01 <= value < (c as real + 1.0) * 0.01
  {}

  // ------------------------------------------------------------------ bounding boxes

  /** All exterior vertices of a zone's parts, in order. */
  function Vertices(rings: seq<PolygonRing>): seq<Point> {
    if rings == [] then [] else Vertices(rings[..|rings| - 1]) + rings[|rings| - 1].coords
  }

  method RingBounds(rings: seq<PolygonRing>) returns (box: Option<Bounds>)
    ensures box == Box(Vertices(rings))
  {
    hide Grow, Box;
    box := None;
    BoxOfNothing();
    ghost var seen: seq<Point> := [];
    for i := 0 to |rings|
      invariant seen == Vertices(rings[..i])
      invariant box == Box(seen)
    {
      var ring := rings[i].coords;
      ghost var before := seen;
      for j := 0 to |ring|
        invariant seen == before + ring[..j]
        invariant box == Box(seen)
      {
        box := Grow(box, ring[j]);
        BoxOfOneMore(seen, ring[j]);
        seen := seen + [ring[j]];
      }
      assert rings[..i + 1][..i] == rings[..i];
      assert ring[..|ring|] == ring;
    }
    assert rings[..|rings|] == rings;
  }

  // ------------------------------------------------------------------ what the index holds

  function ZoneBox(zone: FloodZone): Option<Bounds> {
    Box(Vertices(zone.rings))
  }

  predicate InCells(key: Cell, b: Bounds) {
    CellOf(b.min.x) <= key.0 <= CellOf(b.max.x) && CellOf(b.min.y) <= key.1 <= CellOf(b.max.y)
  }

  predicate CoversCell(zone: FloodZone, key: Cell) {
    ZoneBox(zone).Some? && InCells(key, ZoneBox(zone).value)
  }

  /** The cell lies between those of exterior vertices on all four sides. */
  ghost predicate BetweenVertices(points: seq<Point>, key: Cell) {
    && (exists v <- points :: CellOf(v.x) <= key.0) && (exists v <- points :: key.0 <= CellOf(v.x))
    && (exists v <- points :: CellOf(v.y) <= key.1) && (exists v <- points :: key.1 <= CellOf(v.y))
  }

  /** A zone covers the cells between those of its vertices. */
  lemma {:induction false} CoversCellIff(zone: FloodZone, key: Cell)
    ensures CoversCell(zone, key) <==> BetweenVertices(Vertices(zone.rings), key)
  {
    hide Vertices, CellOf, Box;
    var points := Vertices(zone.rings);
    if points != [] {
      var left, low, right, high := BoxIsTight(points);
      forall v | v in points
        ensures CellOf(left.x) <= CellOf(v.x) <= CellOf(right.x) && CellOf(low.y) <= CellOf(v.y) <= CellOf(high.y)
      {
        assert Covers(Box(points).value, v);
        CellOfMonotone(left.x, v.x);
        CellOfMonotone(v.x, right.x);
        CellOfMonotone(low.y, v.y);
        CellOfMonotone(v.y, high.y);
      }
    }
  }

  /** The zones whose box covers the cell: every index once, in order. */
  function Covering(zones: seq<FloodZone>, key: Cell): seq<nat> {
    if zones == [] then []
    else
      var last := |zones| - 1;
      Covering(zones[..last], key) + if CoversCell(zones[last], key) then [last] else []
  }

  /** The boxes in zone order; a zone without vertices leaves no box behind. */
  function AllBounds(zones: seq<FloodZone>): seq<Bounds> {
    if zones == [] then []
    else
      var last := |zones| - 1;
      match ZoneBox(zones[last])
      case None => AllBounds(zones[..last])
      case Some(b) => AllBounds(zones[..last]) + [b]
  }

  function Bucket(buckets: map<Cell, seq<nat>>, key: Cell): seq<nat> {
    if key in buckets then buckets[key] else []
  }

  ghost predicate Holds(index: ZoneIndex, zones: seq<FloodZone>) {
    && index.zones == zones
    && index.bounds == AllBounds(zones)
    && forall key: Cell :: Bucket(index.buckets, key) == Covering(zones, key)
  }

  lemma {:induction false} CoveringIsExact(zones: seq<FloodZone>, key: Cell)
    ensures var c := Covering(zones, key);
            && (forall k :: 0 <= k < |c| ==> c[k] < |zones| && CoversCell(zones[c[k]], key))
            && (forall j, k :: 0 <= j < k < |c| ==> c[j] < c[k])
            && (forall i :: 0 <= i < |zones| && CoversCell(zones[i], key) ==> i in c)
  {
    hide CoversCell;
    if zones != [] {
      CoveringIsExact(zones[..|zones| - 1], key);
    }
  }

  lemma BoxIsOrdered(zone: FloodZone)
    requires ZoneBox(zone).Some?
    ensures Covers(ZoneBox(zone).value, ZoneBox(zone).value.min)
  {
    var left, low, right, high := BoxIsTight(Vertices(zone.rings));
  }

  lemma {:induction false} NothingBuilt(zones: seq<FloodZone>)
    ensures AllBounds(zones[..0]) == [] && forall key: Cell :: Bucket(map[], key) == Covering(zones[..0], key)
  {}

  lemma {:induction false} BoundsOfOneMore(zones: seq<FloodZone>, n: nat)
    requires n < |zones|
    ensures var box := Box(Vertices(zones[n].rings));
            AllBounds(zones[..n + 1]) == AllBounds(zones[..n]) + if box.Some? then [box.value] else []
  {
    hide Box, Vertices;
    assert zones[..n + 1][..n] == zones[..n];
  }

  lemma {:induction false} CoveringOfOneMore(zones: seq<FloodZone>, n: nat, key: Cell)
    requires n < |zones|
    ensures var box := Box(Vertices(zones[n].rings));
            Covering(zones[..n + 1], key)
            == Covering(zones[..n], key) + if box.Some? && InCells(key, box.value) then [n] else []
  {
    hide Box, Vertices, InCells;
    assert zones[..n + 1][..n] == zones[..n];
  }

  /** The two inner loops of `build`: append the zone to every bucket its box covers. */
  method PushCells(buckets0: map<Cell, seq<nat>>, box: Bounds, index: nat)
    returns (buckets: map<Cell, seq<nat>>)
    requires CellOf(box.min.x) <= CellOf(box.max.x) && CellOf(box.min.y) <= CellOf(box.max.y)
    ensures forall key: Cell ::
      Bucket(buckets, key) == Bucket(buckets0, key) + if InCells(key, box) then [index] else []
  {
    buckets := buckets0;
    var minX, maxX := CellOf(box.min.x), CellOf(box.max.x);
    var minY, maxY := CellOf(box.min.y), CellOf(box.max.y);
    for cellX := minX to maxX + 1
      invariant forall key: Cell ::
        Bucket(buckets, key)
        == Bucket(buckets0, key) + if InCells(key, box) && key.0 < cellX then [index] else []
    {
      for cellY := minY to maxY + 1
        invariant forall key: Cell ::
          Bucket(buckets, key)
          == Bucket(buckets0, key)
             + if InCells(key, box) && (key.0 < cellX || (key.0 == cellX && key.1 < cellY)) then [index] else []
      {
        var key := (cellX, cellY);
        buckets := buckets[key := Bucket(buckets, key) + [index]];
      }
    }
  }

  method Build(zones: seq<FloodZone>) returns (r: Result<ZoneIndex, string>)
    ensures r.Err? <==> zones == []
    ensures r.Ok? ==> Holds(r.value, zones)
  {
    if |zones| == 0 {
      return Err("flood zone layer is empty");
    }
    hide Covering, AllBounds, Bucket, CellOf, Box, Vertices, Covers;
    var buckets: map<Cell, seq<nat>> := map[];
    var bounds: seq<Bounds> := [];
    NothingBuilt(zones);
    for index := 0 to |zones|
      invariant bounds == AllBounds(zones[..index])
      invariant forall key: Cell :: Bucket(buckets, key) == Covering(zones[..index], key)
    {
      var zoneBounds := RingBounds(zones[index].rings);
      BoundsOfOneMore(zones, index);
      ghost var before := buckets;
      if zoneBounds.Some? {
        BoxIsOrdered(zones[index]);
        CellOfMonotone(zoneBounds.value.min.x, zoneBounds.value.max.x);
        CellOfMonotone(zoneBounds.value.min.y, zoneBounds.value.max.y);
        buckets := PushCells(buckets, zoneBounds.value, index);
        bounds := bounds + [zoneBounds.value];
      }
      forall key: Cell ensures Bucket(buckets, key) == Covering(zones[..index + 1], key) {
        assert Bucket(before, key) == Covering(zones[..index], key);
        CoveringOfOneMore(zones, index, key);
      }
    }
    assert zones[..|zones|] == zones;
    return Ok(ZoneIndex(zones, bounds, buckets));
  }

  // ------------------------------------------------------------------ looking a point up

  /** The candidate scan; None where the original indexes past the end of `bounds`. */
  function Deepest(index: ZoneIndex, p: Point, candidates: seq<nat>): Option<real> {
    if candidates == [] then Some(0.0)
    else
      var i := candidates[|candidates| - 1];
      match Deepest(index, p, candidates[..|candidates| - 1])
      case None => None
      case Some(deepest) =>
        if i >= |index.bounds| || i >= |index.zones| then None
        else if !Covers(index.bounds[i], p) then Some(deepest)
        else if index.zones[i].depthClassM > deepest && PartsContain(p, index.zones[i].rings)
        then Some(index.zones[i].depthClassM)
        else Some(deepest)
  }

  function Lookup(index: ZoneIndex, p: Point): Option<real> {
    Deepest(index, p, Bucket(index.buckets, CellOfPoint(p)))
  }

  lemma {:induction false} DeepestFailsFrom(index: ZoneIndex, p: Point, candidates: seq<nat>, k: nat)
    requires k <= |candidates| && Deepest(index, p, candidates[..k]).None?
    ensures Deepest(index, p, candidates).None?
    decreases |candidates|
  {
    if k == |candidates| {
      assert candidates[..k] == candidates;
    } else {
      var init := candidates[..|candidates| - 1];
      assert init[..k] == candidates[..k];
      DeepestFailsFrom(index, p, init, k);
    }
  }

  method DepthAt(index: ZoneIndex, p: Point) returns (r: Option<real>)
    ensures r == Lookup(index, p)
  {
    hide PartsContain, Contains;
    var key := CellOfPoint(p);
    if key !in index.buckets {
      return Some(0.0);
    }
    var candidates := index.buckets[key];
    var deepest := 0.0;
    for k := 0 to |candidates|
      invariant Deepest(index, p, candidates[..k]) == Some(deepest)
    {
      assert candidates[..k + 1][..k] == candidates[..k];
      var i := candidates[k];
      if i >= |index.bounds| || i >= |index.zones| {
        DeepestFailsFrom(index, p, candidates, k + 1);
        return None;
      }
      var bounds := index.bounds[i];
      if p.x < bounds.min.x || p.x > bounds.max.x || p.y < bounds.min.y || p.y > bounds.max.y {
        continue;
      }
      var zone := index.zones[i];
      if zone.depthClassM > deepest {
        var inside := PointInPolygonParts(p, zone.rings);
        if inside {
          deepest := zone.depthClassM;
        }
      }
    }
    assert candidates[..|candidates|] == candidates;
    return Some(deepest);
  }

  lemma {:induction false} DeepestAtLeastZero(index: ZoneIndex, p: Point, candidates: seq<nat>)
    ensures Deepest(index, p, candidates).Some? ==> Deepest(index, p, candidates).value >= 0.0
  {
    hide PartsContain, Covers;
    if candidates != [] {
      DeepestAtLeastZero(index, p, candidates[..|candidates| - 1]);
    }
  }

  /** What the index of a layer answers, told by the layer alone; None where the lookup overruns. */
  function IndexedDepth(zones: seq<FloodZone>, p: Point): (depth: Option<real>)
    ensures depth.Some? ==> depth.value >= 0.0
  {
    var index := ZoneIndex(zones, AllBounds(zones), map[]);
    var depth := Deepest(index, p, Covering(zones, CellOfPoint(p)));
    assert depth.Some? ==> depth.value >= 0.0 by {
      DeepestAtLeastZero(index, p, Covering(zones, CellOfPoint(p)));
    }
    depth
  }

  /** The scan reads zones and boxes only. */
  lemma {:induction false} SameLayerSameDepth(a: ZoneIndex, b: ZoneIndex, p: Point, candidates: seq<nat>)
    requires a.zones == b.zones && a.bounds == b.bounds
    ensures Deepest(a, p, candidates) == Deepest(b, p, candidates)
  {
    hide PartsContain, Covers;
    if candidates != [] {
      SameLayerSameDepth(a, b, p, candidates[..|candidates| - 1]);
    }
  }

  lemma {:induction false} LookupIsIndexedDepth(index: ZoneIndex, zones: seq<FloodZone>, p: Point)
    requires Holds(index, zones)
    ensures Lookup(index, p) == IndexedDepth(zones, p)
  {
    hide Deepest, Covering, AllBounds, CellOfPoint;
    SameLayerSameDepth(index, ZoneIndex(zones, AllBounds(zones), map[]), p, Covering(zones, CellOfPoint(p)));
  }

  /** No lookup exceeds the deepest zone, whatever the boxes are. */
  lemma {:induction false} DeepestBounded(index: ZoneIndex, p: Point, candidates: seq<nat>, top: real)
    requires top >= 0.0 && forall zone <- index.zones :: zone.depthClassM <= top
    ensures Deepest(index, p, candidates).Some? ==> Deepest(index, p, candidates).value <= top
  {
    hide PartsContain, Covers;
    if candidates != [] {
      DeepestBounded(index, p, candidates[..|candidates| - 1], top);
    }
  }

  lemma {:induction false} IndexedDepthBounded(zones: seq<FloodZone>, p: Point, top: real)
    requires top >= 0.0 && forall zone <- zones :: zone.depthClassM <= top
    ensures IndexedDepth(zones, p).Some? ==> IndexedDepth(zones, p).value <= top
  {
    hide Deepest, Covering, AllBounds, CellOfPoint;
    DeepestBounded(ZoneIndex(zones, AllBounds(zones), map[]), p, Covering(zones, CellOfPoint(p)), top);
  }

  // ------------------------------------------------------------------ the scan it replaces

  /** Scan every polygon: the maximum of zero and the depths of the zones holding the point. */
  function ScanDepth(zones: seq<FloodZone>, p: Point): (depth: real)
    ensures depth >= 0.0
    ensures forall zone <- zones :: PartsContain(p, zone.rings) ==> zone.depthClassM <= depth
    ensures depth == 0.0 || exists zone <- zones :: PartsContain(p, zone.rings) && zone.depthClassM == depth
  {
    if zones == [] then 0.0
    else
      var init, zone := zones[..|zones| - 1], zones[|zones| - 1];
      assert zones == init + [zone];
      if PartsContain(p, zone.rings) then Max(ScanDepth(init, p), zone.depthClassM) else ScanDepth(init, p)
  }

  lemma {:induction false} PartVerticesIncluded(rings: seq<PolygonRing>, k: nat)
    requires k < |rings|
    ensures forall v <- rings[k].coords :: v in Vertices(rings)
  {
    if k < |rings| - 1 {
      PartVerticesIncluded(rings[..|rings| - 1], k);
    }
  }

  /** A point whose cell the zone does not cover, or outside the zone's box, is not in the zone. */
  lemma NotInBoxNotInZone(zone: FloodZone, p: Point)
    requires ZoneBox(zone).Some? ==> !Covers(ZoneBox(zone).value, p)
    ensures !PartsContain(p, zone.rings)
  {
    hide Covers, Contains;
    forall k | 0 <= k < |zone.rings| ensures !PartContains(p, zone.rings[k]) {
      var ring := zone.rings[k].coords;
      EmptyRingContainsNothing(p);
      PartVerticesIncluded(zone.rings, k);
      if ring != [] {
        assert ring[0] in Vertices(zone.rings);
        var left, low, right, high := BoxIsTight(Vertices(zone.rings));
        var b := ZoneBox(zone).value;
        assert Bounding(b, ring);
        OutsideBoundsNotContained(p, ring, b);
      }
    }
  }

  lemma InBoxInCells(b: Bounds, p: Point)
    requires Covers(b, p)
    ensures InCells(CellOfPoint(p), b)
  {
    CellOfMonotone(b.min.x, p.x);
    CellOfMonotone(p.x, b.max.x);
    CellOfMonotone(b.min.y, p.y);
    CellOfMonotone(p.y, b.max.y);
  }

  /** No zone without exterior vertices comes before a zone that has some. */
  predicate Aligned(zones: seq<FloodZone>) {
    forall i, j :: 0 <= i < j < |zones| && ZoneBox(zones[j]).Some? ==> ZoneBox(zones[i]).Some?
  }

  lemma {:induction false} AlignedBounds(zones: seq<FloodZone>, i: nat)
    requires Aligned(zones) && i < |zones| && ZoneBox(zones[i]).Some?
    ensures i < |AllBounds(zones)| && AllBounds(zones)[i] == ZoneBox(zones[i]).value
    ensures ZoneBox(zones[|zones| - 1]).Some? ==> |AllBounds(zones)| == |zones|
    decreases |zones|
  {
    hide ZoneBox;
    var last := |zones| - 1;
    var init := zones[..last];
    if last > 0 {
      assert Aligned(init);
      if ZoneBox(zones[last]).Some? {
        AlignedBounds(init, last - 1);
      }
      if i < last {
        AlignedBounds(init, i);
      }
    }
  }

  lemma DeepestOfOneMore(index: ZoneIndex, p: Point, before: seq<nat>, i: nat, deepest: real)
    requires Deepest(index, p, before) == Some(deepest)
    requires i < |index.bounds| && i < |index.zones|
    ensures Deepest(index, p, before + [i])
            == if Covers(index.bounds[i], p) && PartsContain(p, index.zones[i].rings)
               then Some(Max(deepest, index.zones[i].depthClassM))
               else Some(deepest)
  {
    hide PartsContain;
    assert (before + [i])[..|before|] == before;
  }

  lemma DeepestOfNone(index: ZoneIndex, p: Point)
    ensures Deepest(index, p, []) == Some(0.0)
  {}

  lemma {:induction false} ScanOfPrefix(index: ZoneIndex, zones: seq<FloodZone>, p: Point, n: nat)
    requires index.zones == zones && index.bounds == AllBounds(zones) && Aligned(zones) && n <= |zones|
    ensures Deepest(index, p, Covering(zones[..n], CellOfPoint(p))) == Some(ScanDepth(zones[..n], p))
    decreases n
  {
    hide PartsContain, Box, InCells, CellOfPoint, Deepest, AllBounds, Covers;
    if n == 0 {
      DeepestOfNone(index, p);
    } else {
      var key, zone := CellOfPoint(p), zones[n - 1];
      ScanOfPrefix(index, zones, p, n - 1);
      assert zones[..n][..n - 1] == zones[..n - 1];
      var before := Covering(zones[..n - 1], key);
      assert before + [] == before;
      if ZoneBox(zone).Some? && Covers(ZoneBox(zone).value, p) {
        InBoxInCells(ZoneBox(zone).value, p);
      } else {
        NotInBoxNotInZone(zone, p);
      }
      if ZoneBox(zone).Some? {
        AlignedBounds(zones, n - 1);
        DeepestOfOneMore(index, p, before, n - 1, ScanDepth(zones[..n - 1], p));
      }
    }
  }

  /** On an aligned layer neither the bucket lookup nor the box filter loses a zone. */
  lemma {:induction false} LookupIsScan(index: ZoneIndex, zones: seq<FloodZone>, p: Point)
    requires Holds(index, zones) && Aligned(zones)
    ensures Lookup(index, p) == Some(ScanDepth(zones, p))
  {
    hide PartsContain, Box, Deepest, Covering, ScanDepth;
    ScanOfPrefix(index, zones, p, |zones|);
    assert zones[..|zones|] == zones;
  }

  /** The same without an index at hand. */
  lemma {:induction false} AlignedIndexedDepth(zones: seq<FloodZone>, p: Point)
    requires Aligned(zones)
    ensures IndexedDepth(zones, p) == Some(ScanDepth(zones, p))
  {
    hide PartsContain, Box, Deepest, Covering, ScanDepth;
    ScanOfPrefix(ZoneIndex(zones, AllBounds(zones), map[]), zones, p, |zones|);
    assert zones[..|zones|] == zones;
  }

  // ------------------------------------------------------------------ point by point

  predicate Boxed(index: ZoneIndex, i: nat) {
    i < |index.bounds| && i < |index.zones|
  }

  /** Zone i passes the box filter and holds the point: a depth the candidate scan can report. */
  predicate Counts(index: ZoneIndex, p: Point, i: nat) {
    Boxed(index, i) && Covers(index.bounds[i], p) && PartsContain(p, index.zones[i].rings)
  }

  /** The candidate scan is the maximum over the candidates that pass; it overruns on any without a box. */
  lemma {:induction false} DeepestIsMaximum(index: ZoneIndex, p: Point, candidates: seq<nat>)
    ensures Deepest(index, p, candidates).Some?
            <==> forall i <- candidates :: Boxed(index, i)
    ensures Deepest(index, p, candidates).Some? ==>
      var depth := Deepest(index, p, candidates).value;
      && (forall i <- candidates :: Counts(index, p, i) ==> index.zones[i].depthClassM <= depth)
      && (depth == 0.0 || exists i <- candidates :: Counts(index, p, i) && index.zones[i].depthClassM == depth)
  {
    hide PartsContain, Covers;
    if candidates != [] {
      var init, last := candidates[..|candidates| - 1], candidates[|candidates| - 1];
      assert candidates == init + [last];
      assert (forall i <- candidates :: Boxed(index, i))
             <==> (forall i <- init :: Boxed(index, i)) && Boxed(index, last);
      DeepestIsMaximum(index, p, init);
    }
  }

  /** A zone whose stored box covers the point and which holds the point at the depth of the scan. */
  ghost predicate DeepestPasses(zones: seq<FloodZone>, p: Point) {
    exists i :: 0 <= i < |zones| && i < |AllBounds(zones)| && Covers(AllBounds(zones)[i], p)
                && PartsContain(p, zones[i].rings) && zones[i].depthClassM == ScanDepth(zones, p)
  }

  /** What the index needs at a point, over boxes that may have slipped. */
  ghost predicate AnsweredExactly(zones: seq<FloodZone>, p: Point) {
    && (forall i <- Covering(zones, CellOfPoint(p)) :: i < |AllBounds(zones)|)
    && (ScanDepth(zones, p) == 0.0 || DeepestPasses(zones, p))
  }

  /** A zone that holds the point is among the candidates of its cell. */
  lemma {:induction false} HoldingZoneIsCandidate(zones: seq<FloodZone>, p: Point, i: nat)
    requires i < |zones| && PartsContain(p, zones[i].rings)
    ensures i in Covering(zones, CellOfPoint(p))
  {
    hide PartsContain, Covers, CellOfPoint, ZoneBox, Covering, InCells;
    CoveringIsExact(zones, CellOfPoint(p));
    if ZoneBox(zones[i]).None? || !Covers(ZoneBox(zones[i]).value, p) {
      NotInBoxNotInZone(zones[i], p);
    } else {
      InBoxInCells(ZoneBox(zones[i]).value, p);
    }
  }

  lemma {:induction false} CandidatesInRange(zones: seq<FloodZone>, key: Cell)
    ensures forall i <- Covering(zones, key) :: i < |zones|
  {
    hide Covering, CoversCell;
    CoveringIsExact(zones, key);
    var c := Covering(zones, key);
    forall i | i in c ensures i < |zones| {
      var k :| 0 <= k < |c| && c[k] == i;
      assert c[k] < |zones|;
    }
  }

  /** A depth that is the maximum over the candidates that pass is the scan's when a deepest zone passes. */
  lemma {:induction false} DepthIsScanIff(zones: seq<FloodZone>, p: Point, depth: real)
    requires var index, candidates := ZoneIndex(zones, AllBounds(zones), map[]), Covering(zones, CellOfPoint(p));
             && (forall i <- candidates :: Counts(index, p, i) ==> zones[i].depthClassM <= depth)
             && (depth == 0.0 || exists i <- candidates :: Counts(index, p, i) && zones[i].depthClassM == depth)
             && depth >= 0.0
    ensures depth == ScanDepth(zones, p) <==> ScanDepth(zones, p) == 0.0 || DeepestPasses(zones, p)
  {
    hide PartsContain, Covers, AllBounds, CellOfPoint, ScanDepth, Covering;
    var index, candidates := ZoneIndex(zones, AllBounds(zones), map[]), Covering(zones, CellOfPoint(p));
    var scan := ScanDepth(zones, p);
    if depth != 0.0 {
      var i :| i in candidates && Counts(index, p, i) && zones[i].depthClassM == depth;
      assert zones[i] in zones;
      assert depth <= scan;
      assert depth == scan ==> DeepestPasses(zones, p);
    }
    if DeepestPasses(zones, p) {
      var i: nat :| i < |zones| && i < |AllBounds(zones)| && Covers(AllBounds(zones)[i], p)
                    && PartsContain(p, zones[i].rings) && zones[i].depthClassM == scan;
      HoldingZoneIsCandidate(zones, p, i);
      assert Counts(index, p, i);
      assert scan <= depth;
    }
  }

  /**
   * Point by point, on any layer: the index answers with the depth of the scan exactly when
   * every candidate has a box, and some deepest zone at the point, if it is not dry, passes the
   * box that is stored under its number.
   */
  lemma {:induction false} IndexedDepthIsScanIff(zones: seq<FloodZone>, p: Point)
    ensures IndexedDepth(zones, p) == Some(ScanDepth(zones, p)) <==> AnsweredExactly(zones, p)
  {
    hide PartsContain, Covers, Deepest, AllBounds, CellOfPoint, ScanDepth, Covering, DeepestPasses;
    var index, candidates := ZoneIndex(zones, AllBounds(zones), map[]), Covering(zones, CellOfPoint(p));
    assert IndexedDepth(zones, p) == Deepest(index, p, candidates);
    DeepestIsMaximum(index, p, candidates);
    CandidatesInRange(zones, CellOfPoint(p));
    assert (forall i <- candidates :: Boxed(index, i)) <==> (forall i <- candidates :: i < |AllBounds(zones)|);
    if forall i <- candidates :: Boxed(index, i) {
      DepthIsScanIff(zones, p, IndexedDepth(zones, p).value);
    }
  }

  // A layer that is answered wrongly without any overrun.

  function Rectangle(b: Bounds): Ring {
    [b.min, Point(b.max.x, b.min.y), b.max, Point(b.min.x, b.max.y)]
  }

  const NEAR: Bounds := Bounds(Point(0.0, 0.0), Point(1.0, 1.0))
  const FAR: Bounds := Bounds(Point(2.0, 2.0), Point(3.0, 3.0))
  const NO_VERTICES: FloodZone := FloodZone("a", "no vertices", 1.0, [])
  const NEAR_ZONE: FloodZone := FloodZone("b", "near", 5.0, [PolygonRing(Rectangle(NEAR), [])])
  const FAR_ZONE: FloodZone := FloodZone("c", "far", 2.0, [PolygonRing(Rectangle(FAR), [])])
  const SLIPPED: seq<FloodZone> := [NO_VERTICES, NEAR_ZONE, FAR_ZONE]

  lemma {:induction false} OneRing(ring: Ring)
    ensures Vertices([PolygonRing(ring, [])]) == ring
  {
    var part := PolygonRing(ring, []);
    assert [part][..0] == [] && [] + ring == ring;
  }

  lemma {:induction false} RectangleBox(b: Bounds)
    requires b.min.x <= b.max.x && b.min.y <= b.max.y
    ensures Box(Rectangle(b)) == Some(b)
  {
    hide Box;
    var left, low, right, high := BoxIsTight(Rectangle(b));
    var box := Box(Rectangle(b)).value;
    assert Covers(box, Rectangle(b)[0]) && Covers(box, Rectangle(b)[2]);
    assert forall v <- Rectangle(b) :: Covers(b, v);
  }

  lemma {:induction false} BoundsOfThree(a: FloodZone, b: FloodZone, c: FloodZone)
    requires ZoneBox(a).None? && ZoneBox(b).Some? && ZoneBox(c).Some?
    ensures AllBounds([a, b, c]) == [ZoneBox(b).value, ZoneBox(c).value]
  {
    hide ZoneBox;
    assert [a, b, c][..2] == [a, b] && [a, b][..1] == [a] && [a][..0] == [];
    assert AllBounds([a]) == [];
    assert AllBounds([a, b]) == [ZoneBox(b).value];
  }

  lemma {:induction false} NoRings()
    ensures Vertices([]) == [] && Box([]) == None
  {}

  /** The middle of the near square is five metres deep, and the index calls it dry. */
  lemma {:induction false} SilentlyDry()
    ensures IndexedDepth(SLIPPED, Point(0.5, 0.5)) == Some(0.0) && ScanDepth(SLIPPED, Point(0.5, 0.5)) == 5.0
  {
    hide Deepest, Covering, AllBounds, ScanDepth, Vertices, Contains, Box;
    var layer, p := SLIPPED, Point(0.5, 0.5);
    OneRing(Rectangle(NEAR));
    OneRing(Rectangle(FAR));
    RectangleBox(NEAR);
    RectangleBox(FAR);
    assert ZoneBox(NO_VERTICES).None? by { NoRings(); }
    BoundsOfThree(NO_VERTICES, NEAR_ZONE, FAR_ZONE);
    RectangleIsHalfOpen(p, NEAR);
    assert PartContains(p, NEAR_ZONE.rings[0]);
    assert PartsContain(p, layer[1].rings) && !PartsContain(p, layer[0].rings) && layer[1] in layer;
    var index, candidates := ZoneIndex(layer, AllBounds(layer), map[]), Covering(layer, CellOfPoint(p));
    DeepestIsMaximum(index, p, candidates);
    CoveringIsExact(layer, CellOfPoint(p));
    forall i | i in candidates ensures Boxed(index, i) && !Counts(index, p, i) {
      var k :| 0 <= k < |candidates| && candidates[k] == i;
      assert CoversCell(layer[i], CellOfPoint(p));
    }
  }

  lemma {:induction false} BoundsCount(zones: seq<FloodZone>)
    ensures |AllBounds(zones)| <= |zones|
    ensures (exists i :: 0 <= i < |zones| && ZoneBox(zones[i]).None?) ==> |AllBounds(zones)| < |zones|
  {
    hide ZoneBox;
    if zones != [] {
      BoundsCount(zones[..|zones| - 1]);
    }
  }

  lemma {:induction false} BoundsOfVertexlessTail(zones: seq<FloodZone>, n: nat)
    requires n <= |zones| && forall i :: n <= i < |zones| ==> ZoneBox(zones[i]).None?
    ensures AllBounds(zones) == AllBounds(zones[..n])
    decreases |zones|
  {
    hide ZoneBox;
    if n < |zones| {
      var init := zones[..|zones| - 1];
      assert init[..n] == zones[..n];
      BoundsOfVertexlessTail(init, n);
    } else {
      assert zones[..n] == zones;
    }
  }

  lemma LastWithVertices(zones: seq<FloodZone>, j: nat) returns (last: nat)
    requires j < |zones| && ZoneBox(zones[j]).Some?
    ensures j <= last < |zones| && ZoneBox(zones[last]).Some?
    ensures forall i :: last < i < |zones| ==> ZoneBox(zones[i]).None?
    decreases |zones| - j
  {
    if k :| j < k < |zones| && ZoneBox(zones[k]).Some? {
      last := LastWithVertices(zones, k);
    } else {
      last := j;
    }
  }

  /** A candidate without a box makes the whole scan fail, wherever it stands in the bucket. */
  lemma {:induction false} MissingBoundsFail(index: ZoneIndex, p: Point, candidates: seq<nat>, i: nat)
    requires i in candidates && i >= |index.bounds|
    ensures Deepest(index, p, candidates).None?
    decreases |candidates|
  {
    var last := candidates[|candidates| - 1];
    if i != last {
      assert candidates == candidates[..|candidates| - 1] + [last];
      MissingBoundsFail(index, p, candidates[..|candidates| - 1], i);
    }
  }

  lemma MisalignedLayerFails(index: ZoneIndex, zones: seq<FloodZone>) returns (p: Point)
    requires Holds(index, zones) && !Aligned(zones)
    ensures Lookup(index, p).None?
  {
    hide PartsContain, Box, CellOfPoint, Covers, InCells, AllBounds, Covering;
    var i, j :| 0 <= i < j < |zones| && ZoneBox(zones[j]).Some? && ZoneBox(zones[i]).None?;
    var last := LastWithVertices(zones, j);
    BoundsOfVertexlessTail(zones, last + 1);
    assert zones[..last + 1][i] == zones[i];
    BoundsCount(zones[..last + 1]);
    var b := ZoneBox(zones[last]).value;
    p := b.min;
    BoxIsOrdered(zones[last]);
    InBoxInCells(b, p);
    CoveringIsExact(zones, CellOfPoint(p));
    MissingBoundsFail(index, p, Covering(zones, CellOfPoint(p)), last);
  }

  /**
   * A vertex-less zone is skipped before its box is pushed, which shifts every later box.  The
   * index therefore answers like the full scan for every point exactly when no such zone
   * precedes a zone with vertices; otherwise some lookup runs past the end of `bounds`.
   */
  lemma {:induction false} IndexIsExactIffAligned(index: ZoneIndex, zones: seq<FloodZone>)
    requires Holds(index, zones)
    ensures (forall p :: Lookup(index, p) == Some(ScanDepth(zones, p))) <==> Aligned(zones)
  {
    hide Lookup, ScanDepth, Holds, Aligned;
    if Aligned(zones) {
      forall p ensures Lookup(index, p) == Some(ScanDepth(zones, p)) {
        LookupIsScan(index, zones, p);
      }
    } else {
      var p := MisalignedLayerFails(index, zones);
    }
  }
}
