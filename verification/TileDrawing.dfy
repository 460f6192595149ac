/**
 * What a vector tile draws: `clip_ring`, `project_ring` and `prepare_ring` of
 * crates/genegis-tile/src/mvt.rs, as far as they decide whether a tile is empty.
 *
 * Rings are projected into the tile's own pixels, clipped edge by edge, rounded, and dropped with
 * fewer than three different pixels in a row.
 */
module TileDrawing {
  import opened Common
  import opened RayCast
  import opened HilbertTileId
  import opened DashboardTiles
  import opened TileFormulas

  const EXTENT: nat := 4096

  // ------------------------------------------------------------------ clipping at one edge

  datatype ClipEdge = MinX(value: real) | MaxX(value: real) | MinY(value: real) | MaxY(value: real)

  predicate InsideEdge(edge: ClipEdge, p: Point) {
    match edge
    case MinX(value) => p.x >= value
    case MaxX(value) => p.x <= value
    case MinY(value) => p.y >= value
    case MaxY(value) => p.y <= value
  }

  /** The coordinate that an edge limits. */
  function Along(edge: ClipEdge, p: Point): real {
    if edge.MinX? || edge.MaxX? then p.x else p.y
  }

  function ClampedShare(t: real): real {
    Max(0.0, Min(1.0, t))
  }

  function Advance(from: real, to: real, t: real): real {
    from + t * (to - from)
  }

  /** Where a segment that changes sides meets the edge. */
  function EdgeCrossing(edge: ClipEdge, from: Point, to: Point): Point
    requires InsideEdge(edge, from) != InsideEdge(edge, to)
  {
    var t := ClampedShare((edge.value - Along(edge, from)) / (Along(edge, to) - Along(edge, from)));
    Point(Advance(from.x, to.x, t), Advance(from.y, to.y, t))
  }

  /** What one vertex contributes, coming from the one before. */
  function ClipStep(edge: ClipEdge, previous: Point, p: Point): seq<Point> {
    (if InsideEdge(edge, p) != InsideEdge(edge, previous) then [EdgeCrossing(edge, previous, p)] else [])
    + (if InsideEdge(edge, p) then [p] else [])
  }

  /** The rest of one pass, coming from a previous vertex. */
  function ClipFrom(edge: ClipEdge, previous: Point, points: seq<Point>): seq<Point>
    decreases |points|
  {
    if points == [] then []
    else ClipStep(edge, previous, points[0]) + ClipFrom(edge, points[0], points[1..])
  }

  lemma {:induction false} ClipFromStep(edge: ClipEdge, previous: Point, ring: seq<Point>, k: nat)
    requires k < |ring|
    ensures ClipFrom(edge, previous, ring[k..])
            == ClipStep(edge, previous, ring[k]) + ClipFrom(edge, ring[k], ring[k + 1..])
  {
    hide ClipStep;
    assert ring[k..][0] == ring[k] && ring[k..][1..] == ring[k + 1..];
  }

  function ClipPass(edge: ClipEdge, ring: seq<Point>): seq<Point> {
    if |ring| < 3 then [] else ClipFrom(edge, ring[|ring| - 1], ring)
  }

  lemma NothingClipped(edge: ClipEdge, previous: Point, ring: seq<Point>)
    ensures ClipFrom(edge, previous, ring[|ring|..]) == []
  {}

  method ClipAt(edge: ClipEdge, ring: seq<Point>) returns (output: seq<Point>)
    ensures output == ClipPass(edge, ring)
  {
    hide InsideEdge, EdgeCrossing, ClipFrom;
    if |ring| < 3 {
      return [];
    }
    output := [];
    var previous := ring[|ring| - 1];
    assert ring[0..] == ring && [] + ClipFrom(edge, previous, ring) == ClipFrom(edge, previous, ring);
    for k := 0 to |ring|
      invariant previous == if k == 0 then ring[|ring| - 1] else ring[k - 1]
      invariant output + ClipFrom(edge, previous, ring[k..]) == ClipPass(edge, ring)
    {
      var p := ring[k];
      ghost var before := output;
      if InsideEdge(edge, p) != InsideEdge(edge, previous) {
        output := output + [EdgeCrossing(edge, previous, p)];
      }
      if InsideEdge(edge, p) {
        output := output + [p];
      }
      assert output == before + ClipStep(edge, previous, p);
      ClipFromStep(edge, previous, ring, k);
      AppendAssociates(before, ClipStep(edge, previous, p), ClipFrom(edge, p, ring[k + 1..]));
      previous := p;
    }
    NothingClipped(edge, previous, ring);
    assert output + [] == output;
  }

  function EdgesOf(extent: real): seq<ClipEdge> {
    [MinX(0.0), MaxX(extent), MinY(0.0), MaxY(extent)]
  }

  /** The first n passes. */
  function ClipPasses(ring: seq<Point>, edges: seq<ClipEdge>, n: nat): seq<Point>
    requires n <= |edges|
  {
    if n == 0 then ring else ClipPass(edges[n - 1], ClipPasses(ring, edges, n - 1))
  }

  function Clipped(ring: seq<Point>, extent: real): seq<Point> {
    var output := ClipPasses(ring, EdgesOf(extent), 4);
    if |output| < 3 then [] else output
  }

  method ClipRing(ring: seq<Point>, extent: real) returns (output: seq<Point>)
    ensures output == Clipped(ring, extent)
  {
    hide ClipPass;
    var edges := EdgesOf(extent);
    output := ring;
    for n := 0 to |edges|
      invariant output == ClipPasses(ring, edges, n)
    {
      output := ClipAt(edges[n], output);
    }
    if |output| < 3 {
      output := [];
    }
  }

  // ------------------------------------------------------------------ what clipping keeps

  lemma AdvanceBetween(from: real, to: real, t: real)
    requires 0.0 <= t <= 1.0
    ensures Min(from, to) <= Advance(from, to, t) <= Max(from, to)
  {
    if from <= to {
      NonNegativeProduct(t, to - from);
      NonNegativeProduct(1.0 - t, to - from);
      assert (1.0 - t) * (to - from) == (to - from) - t * (to - from);
    } else {
      NonNegativeProduct(t, from - to);
      NonNegativeProduct(1.0 - t, from - to);
      assert (1.0 - t) * (from - to) == (from - to) - t * (from - to);
      assert t * (to - from) == -(t * (from - to));
    }
  }

  lemma ShareInUnit(u: real, d: real, t: real)
    requires 0.0 <= u <= d && d > 0.0 && t * d == u
    ensures 0.0 <= t <= 1.0
  {
    ProductOrdered(t, 0.0, d, u, 0.0);
    ProductOrdered(1.0, t, d, d, u);
  }

  /** The crossing lies on the edge, and on every other edge's side on which both ends lie. */
  lemma {:induction false} CrossingOnEdge(edge: ClipEdge, from: Point, to: Point)
    requires InsideEdge(edge, from) != InsideEdge(edge, to)
    ensures Along(edge, EdgeCrossing(edge, from, to)) == edge.value
  {
    var u, d := edge.value - Along(edge, from), Along(edge, to) - Along(edge, from);
    var t := u / d;
    assert t * d == u;
    if d > 0.0 {
      ShareInUnit(u, d, t);
    } else {
      assert t * (-d) == -u;
      ShareInUnit(-u, -d, t);
    }
  }

  /** On the edge and on the line through the two ends. */
  predicate IsCrossing(edge: ClipEdge, from: Point, to: Point, q: Point) {
    Along(edge, q) == edge.value && (q.x - from.x) * (to.y - from.y) == (q.y - from.y) * (to.x - from.x)
  }

  lemma InProportion(x: real, y: real, t: real, dx: real, dy: real)
    requires x == t * dx && y == t * dy
    ensures x * dy == y * dx
  {}

  lemma OneCrossing(w: real, dx: real, dy: real, p: real, q: real)
    requires dx != 0.0 && w * dy == p * dx && w * dy == q * dx
    ensures p == q
  {
    assert (p - q) * dx == 0.0;
  }

  lemma {:induction false} CrossingOnLine(edge: ClipEdge, from: Point, to: Point)
    requires InsideEdge(edge, from) != InsideEdge(edge, to)
    ensures IsCrossing(edge, from, to, EdgeCrossing(edge, from, to))
  {
    var c := EdgeCrossing(edge, from, to);
    CrossingOnEdge(edge, from, to);
    var t := ClampedShare((edge.value - Along(edge, from)) / (Along(edge, to) - Along(edge, from)));
    InProportion(c.x - from.x, c.y - from.y, t, to.x - from.x, to.y - from.y);
  }

  lemma {:induction false} CrossingUnique(edge: ClipEdge, from: Point, to: Point, p: Point, q: Point)
    requires InsideEdge(edge, from) != InsideEdge(edge, to)
    requires IsCrossing(edge, from, to, p) && IsCrossing(edge, from, to, q)
    ensures p == q
  {
    if edge.MinX? || edge.MaxX? {
      OneCrossing(p.x - from.x, to.x - from.x, to.y - from.y, p.y - from.y, q.y - from.y);
    } else {
      OneCrossing(p.y - from.y, to.y - from.y, to.x - from.x, p.x - from.x, q.x - from.x);
    }
  }

  /** A segment that changes sides has exactly one crossing. */
  lemma {:induction false} CrossingIff(edge: ClipEdge, from: Point, to: Point, q: Point)
    requires InsideEdge(edge, from) != InsideEdge(edge, to)
    ensures IsCrossing(edge, from, to, q) <==> q == EdgeCrossing(edge, from, to)
  {
    hide EdgeCrossing, IsCrossing;
    CrossingOnLine(edge, from, to);
    if IsCrossing(edge, from, to, q) {
      CrossingUnique(edge, from, to, q, EdgeCrossing(edge, from, to));
    }
  }

  /** What a pass may leave of the segment from `a` to `b`: its far end and its crossing. */
  predicate Leaves(edge: ClipEdge, a: Point, b: Point, q: Point) {
    (InsideEdge(edge, b) && q == b) || (InsideEdge(edge, a) != InsideEdge(edge, b) && IsCrossing(edge, a, b, q))
  }

  /** One vertex: it is kept when it is inside, after the crossing of the segment that leads to it. */
  lemma {:induction false} OneVertexClipped(edge: ClipEdge, previous: Point, p: Point, q: Point)
    ensures InsideEdge(edge, previous) && InsideEdge(edge, p) ==> ClipFrom(edge, previous, [p]) == [p]
    ensures !InsideEdge(edge, previous) && !InsideEdge(edge, p) ==> ClipFrom(edge, previous, [p]) == []
    ensures InsideEdge(edge, previous) && !InsideEdge(edge, p) && IsCrossing(edge, previous, p, q) ==>
      ClipFrom(edge, previous, [p]) == [q]
    ensures !InsideEdge(edge, previous) && InsideEdge(edge, p) && IsCrossing(edge, previous, p, q) ==>
      ClipFrom(edge, previous, [p]) == [q, p]
  {
    hide EdgeCrossing, InsideEdge, IsCrossing;
    assert [p][1..] == [] && ClipFrom(edge, p, []) == [];
    if InsideEdge(edge, previous) != InsideEdge(edge, p) {
      CrossingIff(edge, previous, p, q);
    }
  }

  /** A path is clipped piece by piece. */
  lemma {:induction false} ClippedInPieces(edge: ClipEdge, previous: Point, a: seq<Point>, b: seq<Point>)
    requires a != []
    ensures ClipFrom(edge, previous, a + b) == ClipFrom(edge, previous, a) + ClipFrom(edge, a[|a| - 1], b)
    decreases |a|
  {
    hide ClipStep;
    HeadAndTail(a, b);
    if |a| == 1 {
      assert a[1..] + b == b && ClipFrom(edge, a[0], []) == [];
      assert ClipStep(edge, previous, a[0]) + [] == ClipStep(edge, previous, a[0]);
    } else {
      ClippedInPieces(edge, a[0], a[1..], b);
      AppendAssociates(ClipStep(edge, previous, a[0]), ClipFrom(edge, a[0], a[1..]), ClipFrom(edge, a[|a| - 1], b));
    }
  }

  /** The vertex before the given one, around the ring. */
  function Before(ring: seq<Point>, i: nat): Point
    requires i < |ring|
  {
    if i == 0 then ring[|ring| - 1] else ring[i - 1]
  }

  lemma {:induction false} StepLeaves(edge: ClipEdge, a: Point, b: Point, q: Point)
    ensures q in ClipStep(edge, a, b) <==> Leaves(edge, a, b, q)
  {
    hide EdgeCrossing, InsideEdge, IsCrossing;
    if InsideEdge(edge, a) != InsideEdge(edge, b) {
      CrossingIff(edge, a, b, q);
    }
  }

  lemma {:induction false} RestLeaves(edge: ClipEdge, ring: seq<Point>, k: nat, q: Point)
    requires ring != [] && k <= |ring|
    ensures q in ClipFrom(edge, if k == 0 then ring[|ring| - 1] else ring[k - 1], ring[k..])
            <==> exists i :: k <= i < |ring| && Leaves(edge, Before(ring, i), ring[i], q)
    decreases |ring| - k
  {
    hide ClipStep, Leaves;
    if k < |ring| {
      RestLeaves(edge, ring, k + 1, q);
      ClipFromStep(edge, Before(ring, k), ring, k);
      StepLeaves(edge, Before(ring, k), ring[k], q);
    }
  }

  /** A pass leaves the vertices inside its edge and the crossings of the sides that change sides, nothing else. */
  lemma {:induction false} PassLeaves(edge: ClipEdge, ring: seq<Point>, q: Point)
    requires |ring| >= 3
    ensures q in ClipPass(edge, ring) <==> exists i :: 0 <= i < |ring| && Leaves(edge, Before(ring, i), ring[i], q)
  {
    hide ClipFrom, Leaves;
    assert ring[0..] == ring;
    RestLeaves(edge, ring, 0, q);
  }

  lemma {:induction false} CrossingStaysInside(edge: ClipEdge, other: ClipEdge, from: Point, to: Point)
    requires InsideEdge(edge, from) != InsideEdge(edge, to) && InsideEdge(other, from) && InsideEdge(other, to)
    ensures InsideEdge(other, EdgeCrossing(edge, from, to))
  {
    hide Advance;
    var t := ClampedShare((edge.value - Along(edge, from)) / (Along(edge, to) - Along(edge, from)));
    AdvanceBetween(from.x, to.x, t);
    AdvanceBetween(from.y, to.y, t);
  }

  lemma OnEdgeIsInside(edge: ClipEdge, p: Point)
    requires Along(edge, p) == edge.value
    ensures InsideEdge(edge, p)
  {}

  /** One pass leaves only points inside its edge, and keeps every other edge that all points respected. */
  lemma {:induction false} PassInside(edge: ClipEdge, other: ClipEdge, previous: Point, points: seq<Point>)
    ensures forall p <- ClipFrom(edge, previous, points) :: InsideEdge(edge, p)
    ensures InsideEdge(other, previous) && (forall p <- points :: InsideEdge(other, p)) ==>
      forall p <- ClipFrom(edge, previous, points) :: InsideEdge(other, p)
    decreases |points|
  {
    hide EdgeCrossing, InsideEdge;
    if points != [] {
      var p, rest := points[0], points[1..];
      assert points == [p] + rest;
      PassInside(edge, other, p, rest);
      if InsideEdge(edge, p) != InsideEdge(edge, previous) {
        CrossingOnEdge(edge, previous, p);
        OnEdgeIsInside(edge, EdgeCrossing(edge, previous, p));
        if InsideEdge(other, previous) && InsideEdge(other, p) {
          CrossingStaysInside(edge, other, previous, p);
        }
      }
    }
  }

  lemma {:induction false} PassesInside(ring: seq<Point>, edges: seq<ClipEdge>, n: nat, k: nat)
    requires k < n <= |edges|
    ensures forall p <- ClipPasses(ring, edges, n) :: InsideEdge(edges[k], p)
    decreases n
  {
    hide InsideEdge, ClipFrom;
    var input := ClipPasses(ring, edges, n - 1);
    if |input| >= 3 {
      if k < n - 1 {
        PassesInside(ring, edges, n - 1, k);
      }
      PassInside(edges[n - 1], edges[k], input[|input| - 1], input);
    }
  }

  predicate InTile(p: Point, extent: real) {
    0.0 <= p.x <= extent && 0.0 <= p.y <= extent
  }

  /** Every vertex of a clipped ring lies in the tile. */
  lemma {:induction false} ClippedInTile(ring: seq<Point>, extent: real)
    ensures forall p <- Clipped(ring, extent) :: InTile(p, extent)
  {
    hide ClipPasses;
    var edges := EdgesOf(extent);
    PassesInside(ring, edges, 4, 0);
    PassesInside(ring, edges, 4, 1);
    PassesInside(ring, edges, 4, 2);
    PassesInside(ring, edges, 4, 3);
  }

  lemma {:induction false} PassesKeep(ring: seq<Point>, edges: seq<ClipEdge>, n: nat, other: ClipEdge)
    requires n <= |edges| && forall p <- ring :: InsideEdge(other, p)
    ensures forall p <- ClipPasses(ring, edges, n) :: InsideEdge(other, p)
    decreases n
  {
    hide InsideEdge, ClipFrom;
    if n > 0 {
      PassesKeep(ring, edges, n - 1, other);
      var input := ClipPasses(ring, edges, n - 1);
      if |input| >= 3 {
        assert input[|input| - 1] in input;
        PassInside(edges[n - 1], other, input[|input| - 1], input);
      }
    }
  }

  /** Beyond one side of the tile. */
  predicate Beyond(other: ClipEdge, extent: real) {
    match other
    case MaxX(value) => value < 0.0
    case MinX(value) => value > extent
    case MaxY(value) => value < 0.0
    case MinY(value) => value > extent
  }

  /** Of a ring that lies wholly beyond one side of the tile nothing is left. */
  lemma {:induction false} BeyondIsClipped(ring: seq<Point>, extent: real, other: ClipEdge)
    requires Beyond(other, extent) && forall p <- ring :: InsideEdge(other, p)
    ensures Clipped(ring, extent) == []
  {
    hide ClipPasses;
    if Clipped(ring, extent) != [] {
      assert Clipped(ring, extent)[0] in Clipped(ring, extent);
      ClippedInTile(ring, extent);
      PassesKeep(ring, EdgesOf(extent), 4, other);
    }
  }

  lemma {:induction false} PassUnchanged(edge: ClipEdge, previous: Point, points: seq<Point>)
    requires InsideEdge(edge, previous) && forall p <- points :: InsideEdge(edge, p)
    ensures ClipFrom(edge, previous, points) == points
    decreases |points|
  {
    hide InsideEdge, EdgeCrossing;
    if points != [] {
      assert points == [points[0]] + points[1..];
      PassUnchanged(edge, points[0], points[1..]);
    }
  }

  lemma {:induction false} PassesUnchanged(ring: seq<Point>, edges: seq<ClipEdge>, n: nat)
    requires n <= |edges| && |ring| >= 3
    requires forall k, p :: 0 <= k < n && p in ring ==> InsideEdge(edges[k], p)
    ensures ClipPasses(ring, edges, n) == ring
  {
    hide InsideEdge, ClipFrom;
    if n > 0 {
      PassesUnchanged(ring, edges, n - 1);
      assert ring[|ring| - 1] in ring;
      forall p | p in ring ensures InsideEdge(edges[n - 1], p) {
        var k := n - 1;
        assert InsideEdge(edges[k], p);
      }
      PassUnchanged(edges[n - 1], ring[|ring| - 1], ring);
    }
  }

  /** A ring inside the tile is left as it is. */
  lemma {:induction false} ClippedUnchanged(ring: seq<Point>, extent: real)
    requires |ring| >= 3 && forall p <- ring :: InTile(p, extent)
    ensures Clipped(ring, extent) == ring
  {
    hide ClipPasses;
    PassesUnchanged(ring, EdgesOf(extent), 4);
  }

  // ------------------------------------------------------------------ pixels

  type Pixel = (int, int)

  /** Rounding half away from zero, clamped to the tile. */
  function ToPixel(x: real): int {
    var rounded := if x >= 0.0 then (x + 0.5).Floor else -((0.5 - x).Floor);
    MaxInt(0, MinInt(EXTENT, rounded))
  }

  /** A pixel takes what is nearest to it in the tile, a half rounding up; what is beyond goes to the border. */
  lemma ToPixelIff(x: real, n: int)
    ensures 0.0 <= x <= 4096.0 ==> (ToPixel(x) == n <==> n as real - 0.5 <= x < n as real + 0.5)
    ensures x <= 0.0 ==> ToPixel(x) == 0
    ensures x >= 4096.0 ==> ToPixel(x) == 4096
  {}

  function PixelOf(p: Point): Pixel {
    (ToPixel(p.x), ToPixel(p.y))
  }

  /** A vertex in the tile's own pixels. */
  function Projected(mercator: Mercator, v: Point, key: TileKey): Point {
    Point((Scaled((v.x + 180.0) / 360.0, TilesPerAxis(key.0)) - key.1 as real) * EXTENT as real,
          (Scaled(mercator(ClampedLatitude(v.y)), TilesPerAxis(key.0)) - key.2 as real) * EXTENT as real)
  }

  /** The pixel of a point in the tile is the nearest one on both axes. */
  lemma PixelIsNearest(p: Point, pixel: Pixel)
    requires InTile(p, 4096.0)
    ensures PixelOf(p) == pixel
            <==> && pixel.0 as real - 0.5 <= p.x < pixel.0 as real + 0.5
                 && pixel.1 as real - 0.5 <= p.y < pixel.1 as real + 0.5
  {
    hide ToPixel;
    ToPixelIff(p.x, pixel.0);
    ToPixelIff(p.y, pixel.1);
  }

  /** A longitude is placed in proportion between the two edges of its tile column. */
  lemma ProjectedColumn(mercator: Mercator, v: Point, key: TileKey)
    ensures Projected(mercator, v, key).x * 360.0
            == ((v.x + 180.0) * TilesPerAxis(key.0) as real - 360.0 * key.1 as real) * 4096.0
  {
    hide TilesPerAxis;
    var n := TilesPerAxis(key.0) as real;
    assert (v.x + 180.0) / 360.0 * n * 360.0 == (v.x + 180.0) * n;
  }

  /** Drop repetitions of the pixel before. */
  function Deduplicated(pixels: seq<Pixel>): seq<Pixel> {
    if |pixels| < 2 then pixels
    else
      var init, last := pixels[..|pixels| - 1], pixels[|pixels| - 1];
      if init[|init| - 1] == last then Deduplicated(init) else Deduplicated(init) + [last]
  }

  ghost predicate NoRepetition(pixels: seq<Pixel>) {
    forall i, j :: 0 <= i && j == i + 1 && j < |pixels| ==> pixels[i] != pixels[j]
  }

  /** No pixel follows itself, every pixel is still there, and nothing is dropped without need. */
  lemma {:induction false} DeduplicatedMeans(pixels: seq<Pixel>)
    ensures NoRepetition(Deduplicated(pixels))
    ensures forall p :: p in Deduplicated(pixels) <==> p in pixels
    ensures NoRepetition(pixels) ==> Deduplicated(pixels) == pixels
    ensures pixels != [] ==>
      Deduplicated(pixels) != []
      && Deduplicated(pixels)[|Deduplicated(pixels)| - 1] == pixels[|pixels| - 1]
    decreases |pixels|
  {
    if |pixels| >= 2 {
      var init, last := pixels[..|pixels| - 1], pixels[|pixels| - 1];
      assert pixels == init + [last];
      DeduplicatedMeans(init);
    }
  }

  function WithoutClosing(pixels: seq<Pixel>): seq<Pixel> {
    if |pixels| > 1 && pixels[0] == pixels[|pixels| - 1] then pixels[..|pixels| - 1] else pixels
  }

  /** The last pixel goes exactly when it repeats the first of a ring. */
  lemma {:induction false} ClosingPixelDropped(pixels: seq<Pixel>, p: Pixel)
    ensures pixels != [] && pixels[0] == p ==> WithoutClosing(pixels + [p]) == pixels
    ensures pixels == [] || pixels[0] != p ==> WithoutClosing(pixels + [p]) == pixels + [p]
  {}

  function ProjectRing(mercator: Mercator, ring: Ring, key: TileKey): seq<Pixel> {
    var local := seq(|ring|, k requires 0 <= k < |ring| => Projected(mercator, ring[k], key));
    var clipped := Clipped(local, EXTENT as real);
    Deduplicated(WithoutClosing(seq(|clipped|, k requires 0 <= k < |clipped| => PixelOf(clipped[k]))))
  }

  /** A feature leaves something in the tile when one of its exteriors keeps three pixels. */
  predicate FeatureDrawn(mercator: Mercator, feature: Feature, key: TileKey) {
    exists part <- feature :: |ProjectRing(mercator, part.coords, key)| >= 3
  }

  /** A ring of two pixels or fewer draws nothing; three draw. */
  lemma {:induction false} DrawnFromThreePixels(mercator: Mercator, feature: Feature, key: TileKey)
    ensures (forall part <- feature :: |ProjectRing(mercator, part.coords, key)| <= 2)
            <==> !FeatureDrawn(mercator, feature, key)
  {
    hide ProjectRing;
  }

  predicate Drawn(mercator: Mercator, features: seq<Feature>, key: TileKey, indices: seq<nat>) {
    exists i <- indices :: i < |features| && FeatureDrawn(mercator, features[i], key)
  }

  // ------------------------------------------------------------------ a triangle on the antimeridian

  function Meridian(a: real, b: real, c: real): Ring {
    [Point(180.0, a), Point(180.0, b), Point(180.0, c)]
  }

  /** Pixel row of a latitude in a tile row. */
  function PixelRow(mercator: Mercator, lat: real, z: nat, row: nat): int {
    ToPixel((Scaled(mercator(ClampedLatitude(lat)), TilesPerAxis(z)) - row as real) * EXTENT as real)
  }

  /** The latitude lies in the tile row. */
  predicate InRow(mercator: Mercator, lat: real, z: nat, row: nat) {
    row as real <= Scaled(mercator(ClampedLatitude(lat)), TilesPerAxis(z)) < row as real + 1.0
  }

  lemma {:induction false} OnWestEdge(mercator: Mercator, lat: real, z: nat, row: nat)
    requires z <= 15 && InRow(mercator, lat, z, row)
    ensures var local := Projected(mercator, Point(180.0, lat), (z, Pow2(z), row));
            local.x == 0.0 && InTile(local, EXTENT as real) && PixelOf(local).1 == PixelRow(mercator, lat, z, row)
  {
    hide Pow2, ClampedLatitude, ToPixel;
    assert Scaled((180.0 + 180.0) / 360.0, TilesPerAxis(z)) == Pow2(z) as real;
  }

  lemma {:induction false} ThreeDifferent(p: Pixel, q: Pixel, r: Pixel)
    requires p != q && q != r && p != r
    ensures Deduplicated(WithoutClosing([p, q, r])) == [p, q, r]
  {
    assert [p, q, r][..2] == [p, q] && [p, q][..1] == [p];
    assert Deduplicated([p]) == [p];
    assert Deduplicated([p, q]) == [p, q];
  }

  /** Three vertices on longitude 180 in different pixel rows are drawn in the column past the last. */
  lemma {:induction false} MeridianDrawn(mercator: Mercator, a: real, b: real, c: real, z: nat, row: nat)
    requires z <= 15 && InRow(mercator, a, z, row) && InRow(mercator, b, z, row) && InRow(mercator, c, z, row)
    requires PixelRow(mercator, a, z, row) != PixelRow(mercator, b, z, row)
    requires PixelRow(mercator, b, z, row) != PixelRow(mercator, c, z, row)
    requires PixelRow(mercator, a, z, row) != PixelRow(mercator, c, z, row)
    ensures |ProjectRing(mercator, Meridian(a, b, c), (z, Pow2(z), row))| == 3
  {
    hide Clipped, Pow2, Scaled, ToPixel, ClampedLatitude, Deduplicated;
    var key, ring := (z, Pow2(z), row), Meridian(a, b, c);
    var local := seq(|ring|, k requires 0 <= k < |ring| => Projected(mercator, ring[k], key));
    OnWestEdge(mercator, a, z, row);
    OnWestEdge(mercator, b, z, row);
    OnWestEdge(mercator, c, z, row);
    ClippedUnchanged(local, EXTENT as real);
    var p, q, r := PixelOf(local[0]), PixelOf(local[1]), PixelOf(local[2]);
    assert seq(|local|, k requires 0 <= k < |local| => PixelOf(local[k])) == [p, q, r];
    ThreeDifferent(p, q, r);
  }
}
