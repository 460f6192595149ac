/**
 * Random block packing of the district showcase: the generator and the building placement loops
 * of `build_scene` in crates/genegis-analysis/src/district3d.rs.
 *
 * What the loops place is a function of the generator and its state.  The footprints are proved
 * apart for every generator of fractions; the 64-bit linear congruential one is an instance.
 */
module BlockPacking {
  import opened Common

  const U64_MODULUS: int := 0x1_0000_0000_0000_0000

  type U64 = n: int | 0 <= n < U64_MODULUS

  type Fraction = x: real | 0.0 <= x < 1.0

  /** Any source of randomness: the state after a draw, and the draw it stands for. */
  datatype Generator = Generator(next: U64 -> U64, unit: U64 -> Fraction)

  /** One wrapping step. */
  function Next(state: U64): U64 {
    (state * 6364136223846793005 + 1442695040888963407) % U64_MODULUS
  }

  /** The top 53 bits as a fraction. */
  function Unit(state: U64): Fraction {
    (state / 2048) as real / 9007199254740992.0
  }

  const LCG: Generator := Generator(Next, Unit)

  function Scale(w: real, u: Fraction): (r: real)
    requires w > 0.0
    ensures 0.0 <= r < w
  {
    NonNegativeProduct(w, u);
    PositiveFactor(1.0 - u, w);
    assert (1.0 - u) * w == w - w * u;
    w * u
  }

  function Ranged(g: Generator, state: U64, low: real, high: real): (x: real)
    requires low < high
    ensures low <= x < high
  {
    low + Scale(high - low, g.unit(state))
  }

  /** The draw divides the range as the generator's fraction divides one. */
  lemma RangedInProportion(g: Generator, state: U64, low: real, high: real)
    requires low < high
    ensures Ranged(g, state, low, high) - low == (high - low) * g.unit(state)
    ensures high - Ranged(g, state, low, high) == (high - low) * (1.0 - g.unit(state))
  {}

  /** The step multiplies and adds modulo two to the 64th, `k` being what is carried away. */
  lemma LcgSteps(state: U64) returns (k: int)
    ensures state * 6364136223846793005 + 1442695040888963407 == k * 0x1_0000_0000_0000_0000 + Next(state)
    ensures k >= 0
  {
    k := (state * 6364136223846793005 + 1442695040888963407) / 0x1_0000_0000_0000_0000;
  }

  /** The fraction is the state without its eleven lowest bits, as a part of two to the 64th. */
  lemma UnitTruncates(state: U64)
    ensures state as real - 2048.0 < Unit(state) * 18446744073709551616.0 <= state as real
    ensures Unit(state / 2048 * 2048) == Unit(state)
  {}

  class Lcg {
    var state: U64

    constructor (seed: U64)
      ensures state == seed
    {
      state := seed;
    }

    method NextF64() returns (x: Fraction)
      modifies this
      ensures state == LCG.next(old(state)) && x == LCG.unit(state)
    {
      state := (state * 6364136223846793005 + 1442695040888963407) % U64_MODULUS;
      x := (state / 2048) as real / 9007199254740992.0;
    }

    method Range(low: real, high: real) returns (x: real)
      requires low < high
      modifies this
      ensures state == LCG.next(old(state)) && x == Ranged(LCG, state, low, high)
    {
      hide Next, Unit;
      var unit := NextF64();
      x := low + Scale(high - low, unit);
    }
  }

  // ------------------------------------------------------------------ footprints

  datatype Building = Building(x0: real, y0: real, x1: real, y1: real, baseZ: real, height: real)

  type Terrain = (real, real) -> real

  /** At least half a metre of free ground along one axis. */
  predicate Apart(a: Building, b: Building) {
    a.x1 + 0.5 <= b.x0 || b.x1 + 0.5 <= a.x0 || a.y1 + 0.5 <= b.y0 || b.y1 + 0.5 <= a.y0
  }

  ghost predicate AllApart(buildings: seq<Building>) {
    forall i, j :: 0 <= i < j < |buildings| ==> Apart(buildings[i], buildings[j])
  }

  predicate Sized(b: Building) {
    7.0 <= b.x1 - b.x0 < 13.0 && 7.5 <= b.y1 - b.y0 < 11.0 && 3.0 <= b.height < 21.0
  }

  datatype Block = Block(xLo: real, xHi: real, yLo: real, yHi: real)

  /** A footprint may overhang the far sides of its block by less than its jitter. */
  predicate InBlock(b: Building, block: Block) {
    block.xLo <= b.x0 && b.x1 < block.xHi + 1.5 && block.yLo <= b.y0 && b.y1 < block.yHi + 1.5
  }

  // ------------------------------------------------------------------ what the loops place

  /** Heights: mostly low houses, a few towers. */
  function Height(g: Generator, sample: real, state: U64): (height: real)
    ensures 3.0 <= height < 21.0
  {
    if sample < 0.58 then Ranged(g, state, 3.0, 5.5)
    else if sample < 0.85 then Ranged(g, state, 5.5, 9.0)
    else if sample < 0.97 then Ranged(g, state, 9.0, 15.0)
    else Ranged(g, state, 15.0, 21.0)
  }

  /** The sample decides the storeys, and the next draw divides the band: up to 5.5, 9, 15 and 21 metres. */
  lemma HeightBands(g: Generator, sample: real, state: U64)
    ensures sample < 0.58 ==> Height(g, sample, state) == 3.0 + 2.5 * g.unit(state) < 5.5
    ensures 0.58 <= sample < 0.85 ==> 5.5 <= Height(g, sample, state) == 5.5 + 3.5 * g.unit(state) < 9.0
    ensures 0.85 <= sample < 0.97 ==> 9.0 <= Height(g, sample, state) == 9.0 + 6.0 * g.unit(state) < 15.0
    ensures 0.97 <= sample ==> 15.0 <= Height(g, sample, state) == 15.0 + 6.0 * g.unit(state) < 21.0
  {}

  /** One building; the four draws follow `s0`. */
  function Place(g: Generator, s0: U64, x: real, y: real, width: real, depth: real, terrain: Terrain): Building {
    var s1 := g.next(s0);
    var s2 := g.next(s1);
    var s3 := g.next(s2);
    var s4 := g.next(s3);
    var left, low := x + Ranged(g, s1, 0.0, 1.5), y + Ranged(g, s2, 0.0, 1.5);
    Building(left, low, left + width, low + depth, terrain(left + width / 2.0, low + depth / 2.0) - 0.25,
             Height(g, g.unit(s3), s4))
  }

  /**
   * The footprint has the drawn size, and the next two draws offset it by up to a metre and a
   * half; two more draw the height; the base lies a quarter metre below the ground at its centre.
   */
  lemma {:induction false} PlaceStands(g: Generator, s: U64, x: real, y: real, width: real, depth: real,
                                       terrain: Terrain)
    ensures var b := Place(g, s, x, y, width, depth, terrain);
            && b.x1 - b.x0 == width && b.y1 - b.y0 == depth
            && 0.0 <= b.x0 - x == 1.5 * g.unit(g.next(s)) < 1.5
            && 0.0 <= b.y0 - y == 1.5 * g.unit(g.next(g.next(s))) < 1.5
            && b.height == Height(g, g.unit(g.next(g.next(g.next(s)))), g.next(g.next(g.next(g.next(s)))))
            && b.baseZ + 0.25 == terrain((b.x0 + b.x1) / 2.0, (b.y0 + b.y1) / 2.0)
  {
    hide Ranged, Height;
    RangedInProportion(g, g.next(s), 0.0, 1.5);
    RangedInProportion(g, g.next(g.next(s)), 0.0, 1.5);
    var b := Place(g, s, x, y, width, depth, terrain);
    assert (b.x0 + b.x1) / 2.0 == b.x0 + width / 2.0 && (b.y0 + b.y1) / 2.0 == b.y0 + depth / 2.0;
  }

  function After4(g: Generator, s: U64): U64 {
    g.next(g.next(g.next(g.next(s))))
  }

  /** The rest of a row from `x` on, and the generator state behind it. */
  function Row(g: Generator, s: U64, x: real, xHi: real, y: real, depth: real, terrain: Terrain): (seq<Building>, U64)
    decreases xHi - x
  {
    if xHi - x <= 7.0 then ([], s)
    else
      var s1 := g.next(s);
      var width := Ranged(g, s1, 7.0, 13.0);
      if width > xHi - x then ([], s1)
      else
        var s2 := g.next(s1);
        var placed := g.unit(s2) > 0.18;
        var s3 := g.next(if placed then After4(g, s2) else s2);
        var (rest, end) := Row(g, s3, x + width + Ranged(g, s3, 2.0, 4.5), xHi, y, depth, terrain);
        (if placed then [Place(g, s2, x, y, width, depth, terrain)] + rest else rest, end)
  }

  /** The rest of a block from the row at `y` on. */
  function Rows(g: Generator, s: U64, y: real, block: Block, terrain: Terrain): (seq<Building>, U64)
    decreases block.yHi - y
  {
    if block.yHi - y <= 8.0 then ([], s)
    else
      var s1 := g.next(s);
      var depth := Ranged(g, s1, 7.5, 11.0);
      if depth > block.yHi - y then ([], s1)
      else
        var (row, s2) := Row(g, s1, block.xLo, block.xHi, y, depth, terrain);
        var s3 := g.next(s2);
        var (rest, end) := Rows(g, s3, y + depth + Ranged(g, s3, 2.0, 4.5), block, terrain);
        (row + rest, end)
  }

  const ROAD_HALF_WIDTH: real := 5.5
  const STREET_X: seq<real> := [-105.0, -35.0, 35.0, 105.0]
  const STREET_Y: seq<real> := [-105.0, 0.0, 105.0]

  function BlockAt(i: nat, j: nat): Block
    requires i < 3 && j < 2
  {
    Block(STREET_X[i] + ROAD_HALF_WIDTH + 4.0, STREET_X[i + 1] - ROAD_HALF_WIDTH - 4.0,
          STREET_Y[j] + ROAD_HALF_WIDTH + 4.0, STREET_Y[j + 1] - ROAD_HALF_WIDTH - 4.0)
  }

  function BlockBuildings(g: Generator, s: U64, block: Block, terrain: Terrain): (seq<Building>, U64) {
    if block.xHi - block.xLo < 10.0 || block.yHi - block.yLo < 10.0 then ([], s)
    else Rows(g, s, block.yLo, block, terrain)
  }

  /** The first n blocks, column by column of the street grid. */
  function Blocks(g: Generator, s: U64, n: nat, terrain: Terrain): (seq<Building>, U64)
    requires n <= 6
  {
    if n == 0 then ([], s)
    else
      var (before, s1) := Blocks(g, s, n - 1, terrain);
      var (block, s2) := BlockBuildings(g, s1, BlockAt((n - 1) / 2, (n - 1) % 2), terrain);
      (before + block, s2)
  }

  // ------------------------------------------------------------------ the loops

  method PlaceBuilding(rng: Lcg, x: real, y: real, width: real, depth: real, terrain: Terrain) returns (b: Building)
    modifies rng
    ensures b == Place(LCG, old(rng.state), x, y, width, depth, terrain) && rng.state == After4(LCG, old(rng.state))
  {
    hide Ranged;
    var dx := rng.Range(0.0, 1.5);
    var left := x + dx;
    var dy := rng.Range(0.0, 1.5);
    var low := y + dy;
    var sample := rng.NextF64();
    var height;
    if sample < 0.58 {
      height := rng.Range(3.0, 5.5);
    } else if sample < 0.85 {
      height := rng.Range(5.5, 9.0);
    } else if sample < 0.97 {
      height := rng.Range(9.0, 15.0);
    } else {
      height := rng.Range(15.0, 21.0);
    }
    var cx, cy := left + width / 2.0, low + depth / 2.0;
    b := Building(left, low, left + width, low + depth, terrain(cx, cy) - 0.25, height);
  }

  lemma {:induction false} RowEnds(g: Generator, s: U64, x: real, xHi: real, y: real, depth: real, terrain: Terrain)
    ensures xHi - x <= 7.0 ==> Row(g, s, x, xHi, y, depth, terrain) == ([], s)
    ensures xHi - x > 7.0 && Ranged(g, g.next(s), 7.0, 13.0) > xHi - x ==>
      Row(g, s, x, xHi, y, depth, terrain) == ([], g.next(s))
  {
    hide Ranged, Place, After4;
  }

  /** One turn: width, coin, perhaps a building, gap. */
  lemma {:induction false} RowTurn(g: Generator, s: U64, x: real, xHi: real, y: real, depth: real, terrain: Terrain)
    requires xHi - x > 7.0 && Ranged(g, g.next(s), 7.0, 13.0) <= xHi - x
    ensures var s1 := g.next(s);
            var s2 := g.next(s1);
            var width := Ranged(g, s1, 7.0, 13.0);
            var placed := g.unit(s2) > 0.18;
            var s3 := g.next(if placed then After4(g, s2) else s2);
            var rest := Row(g, s3, x + (width + Ranged(g, s3, 2.0, 4.5)), xHi, y, depth, terrain);
            var whole := Row(g, s, x, xHi, y, depth, terrain);
            && whole.0 == (if placed then [Place(g, s2, x, y, width, depth, terrain)] else []) + rest.0
            && whole.1 == rest.1
  {
    hide Ranged, Place, After4;
    assert forall rest: seq<Building> :: [] + rest == rest;
  }

  method PlaceRow(rng: Lcg, xLo: real, xHi: real, y: real, depth: real, terrain: Terrain) returns (row: seq<Building>)
    modifies rng
    ensures (row, rng.state) == Row(LCG, old(rng.state), xLo, xHi, y, depth, terrain)
  {
    hide LCG, Ranged, Place, After4, Row;
    row := [];
    var x := xLo;
    ghost var whole := Row(LCG, rng.state, xLo, xHi, y, depth, terrain);
    assert [] + whole.0 == whole.0;
    while xHi - x > 7.0
      invariant whole.0 == row + Row(LCG, rng.state, x, xHi, y, depth, terrain).0
      invariant whole.1 == Row(LCG, rng.state, x, xHi, y, depth, terrain).1
      decreases xHi - x
    {
      RowEnds(LCG, rng.state, x, xHi, y, depth, terrain);
      ghost var s, before := rng.state, row;
      var width := rng.Range(7.0, 13.0);
      if width > xHi - x {
        assert row + [] == row;
        return;
      }
      RowTurn(LCG, s, x, xHi, y, depth, terrain);
      var coin := rng.NextF64();
      ghost var turn: seq<Building> := [];
      if coin > 0.18 {
        var b := PlaceBuilding(rng, x, y, width, depth, terrain);
        row, turn := row + [b], [b];
      }
      var gap := rng.Range(2.0, 4.5);
      x := x + (width + gap);
      assert row == before + turn;
      AppendAssociates(before, turn, Row(LCG, rng.state, x, xHi, y, depth, terrain).0);
    }
    RowEnds(LCG, rng.state, x, xHi, y, depth, terrain);
    assert row + [] == row;
  }

  method PlaceBlock(rng: Lcg, block: Block, terrain: Terrain) returns (buildings: seq<Building>)
    modifies rng
    ensures (buildings, rng.state) == BlockBuildings(LCG, old(rng.state), block, terrain)
  {
    hide Ranged, Row;
    buildings := [];
    if block.xHi - block.xLo < 10.0 || block.yHi - block.yLo < 10.0 {
      return;
    }
    var y := block.yLo;
    ghost var whole := Rows(LCG, rng.state, y, block, terrain);
    while block.yHi - y > 8.0
      invariant whole.0 == buildings + Rows(LCG, rng.state, y, block, terrain).0
      invariant whole.1 == Rows(LCG, rng.state, y, block, terrain).1
      decreases block.yHi - y
    {
      var depth := rng.Range(7.5, 11.0);
      if depth > block.yHi - y {
        assert buildings + [] == buildings;
        return;
      }
      var row := PlaceRow(rng, block.xLo, block.xHi, y, depth, terrain);
      buildings := buildings + row;
      var gap := rng.Range(2.0, 4.5);
      y := y + (depth + gap);
    }
    assert buildings + [] == buildings;
  }

  // ------------------------------------------------------------------ which plots are built on

  /** A stretch of a row: the generator state behind its width, which is followed by its coin. */
  datatype Plot = Plot(x: real, state: U64)

  function Width(g: Generator, p: Plot): real {
    7.0 + 6.0 * g.unit(p.state)
  }

  function Coin(g: Generator, p: Plot): Fraction {
    g.unit(g.next(p.state))
  }

  /** The plots follow each other from `x` on, with gaps of 2 to 4.5 metres, and all fit. */
  ghost predicate Chained(g: Generator, plots: seq<Plot>, x: real, xHi: real) {
    && (plots != [] ==> plots[0].x == x)
    && (forall k :: 0 <= k < |plots| ==> plots[k].x + Width(g, plots[k]) <= xHi)
    && (forall k, n :: 0 <= k && n == k + 1 && n < |plots| ==>
          2.0 <= plots[n].x - (plots[k].x + Width(g, plots[k])) < 4.5)
  }

  /** Less than the widest building is left behind the last plot and its gap. */
  ghost predicate Full(g: Generator, plots: seq<Plot>, x: real, xHi: real) {
    if plots == [] then xHi - x < 13.0
    else xHi - (plots[|plots| - 1].x + Width(g, plots[|plots| - 1])) < 17.5
  }

  /** The building stands on the plot, within the jitter of a metre and a half, on ground at its centre. */
  predicate StandsOn(g: Generator, b: Building, p: Plot, y: real, depth: real, terrain: Terrain) {
    && b.x1 - b.x0 == Width(g, p) && b.y1 - b.y0 == depth
    && 0.0 <= b.x0 - p.x < 1.5 && 0.0 <= b.y0 - y < 1.5
    && b.baseZ + 0.25 == terrain((b.x0 + b.x1) / 2.0, (b.y0 + b.y1) / 2.0)
  }

  /** The plots whose coin exceeds 0.18. */
  function BuiltOn(g: Generator, plots: seq<Plot>): seq<Plot> {
    if plots == [] then []
    else (if Coin(g, plots[0]) > 0.18 then [plots[0]] else []) + BuiltOn(g, plots[1..])
  }

  /** The buildings stand, in order, on exactly the plots whose coin exceeds 0.18. */
  ghost predicate BuiltUp(g: Generator, row: seq<Building>, plots: seq<Plot>, y: real, depth: real,
                          terrain: Terrain) {
    && |row| == |BuiltOn(g, plots)|
    && forall k :: 0 <= k < |row| ==> StandsOn(g, row[k], BuiltOn(g, plots)[k], y, depth, terrain)
  }

  lemma {:induction false} PlotInFront(g: Generator, row: seq<Building>, plots: seq<Plot>, first: Plot, b: Building,
                                       y: real, depth: real, terrain: Terrain)
    requires BuiltUp(g, row, plots, y, depth, terrain)
    requires Coin(g, first) > 0.18 ==> StandsOn(g, b, first, y, depth, terrain)
    ensures Coin(g, first) > 0.18 ==> BuiltUp(g, [b] + row, [first] + plots, y, depth, terrain)
    ensures Coin(g, first) <= 0.18 ==> BuiltUp(g, row, [first] + plots, y, depth, terrain)
  {
    hide StandsOn, Coin;
    assert ([first] + plots)[1..] == plots;
    assert [] + BuiltOn(g, plots) == BuiltOn(g, plots);
  }

  lemma {:induction false} NoPlots(g: Generator, x: real, xHi: real, y: real, depth: real, terrain: Terrain)
    ensures Chained(g, [], x, xHi) && BuiltUp(g, [], [], y, depth, terrain)
    ensures xHi - x < 13.0 ==> Full(g, [], x, xHi)
  {}

  lemma {:induction false} PlaceStandsOn(g: Generator, p: Plot, s: U64, y: real, depth: real, terrain: Terrain)
    ensures StandsOn(g, Place(g, s, p.x, y, Width(g, p), depth, terrain), p, y, depth, terrain)
  {
    hide Place, Width;
    PlaceStands(g, s, p.x, y, Width(g, p), depth, terrain);
  }

  lemma {:induction false} PlotChained(g: Generator, plots: seq<Plot>, first: Plot, gap: real, xHi: real)
    requires 2.0 <= gap < 4.5 && first.x + Width(g, first) <= xHi
    requires var x := first.x + Width(g, first) + gap;
             Chained(g, plots, x, xHi) && Full(g, plots, x, xHi)
    ensures Chained(g, [first] + plots, first.x, xHi) && Full(g, [first] + plots, first.x, xHi)
  {
    hide Width;
    var all := [first] + plots;
    forall k, n | 0 <= k && n == k + 1 && n < |all|
      ensures 2.0 <= all[n].x - (all[k].x + Width(g, all[k])) < 4.5
    {
      if k > 0 {
        assert all[k] == plots[k - 1] && all[n] == plots[k];
      }
    }
  }

  /**
   * A row is a chain of plots that fills its stretch up to less than the widest building, and its
   * buildings stand on exactly the plots whose coin exceeds 0.18.
   */
  lemma {:induction false} RowIsBuiltUp(g: Generator, s: U64, x: real, xHi: real, y: real, depth: real,
                                        terrain: Terrain)
    returns (plots: seq<Plot>)
    ensures Chained(g, plots, x, xHi) && Full(g, plots, x, xHi)
    ensures BuiltUp(g, Row(g, s, x, xHi, y, depth, terrain).0, plots, y, depth, terrain)
    decreases xHi - x
  {
    hide Ranged, Place, BuiltUp, Chained, Full, StandsOn;
    plots := [];
    NoPlots(g, x, xHi, y, depth, terrain);
    if xHi - x > 7.0 {
      var first := Plot(x, g.next(s));
      RangedInProportion(g, first.state, 7.0, 13.0);
      if Width(g, first) <= xHi - x {
        var s2 := g.next(first.state);
        var s3 := g.next(if g.unit(s2) > 0.18 then After4(g, s2) else s2);
        var gap := Ranged(g, s3, 2.0, 4.5);
        var x' := x + Width(g, first) + gap;
        plots := RowIsBuiltUp(g, s3, x', xHi, y, depth, terrain);
        var rest, b := Row(g, s3, x', xHi, y, depth, terrain).0, Place(g, s2, x, y, Width(g, first), depth, terrain);
        PlaceStandsOn(g, first, s2, y, depth, terrain);
        PlotInFront(g, rest, plots, first, b, y, depth, terrain);
        PlotChained(g, plots, first, gap, xHi);
        plots := [first] + plots;
      }
    }
  }

  /** A strip of a block: its row starts behind the draw of its depth. */
  datatype Strip = Strip(y: real, state: U64)

  function Depth(g: Generator, p: Strip): real {
    7.5 + 3.5 * g.unit(p.state)
  }

  /** The buildings of the strips' rows, one strip after another. */
  function StripBuildings(g: Generator, strips: seq<Strip>, block: Block, terrain: Terrain): seq<Building> {
    if strips == [] then []
    else
      Row(g, strips[0].state, block.xLo, block.xHi, strips[0].y, Depth(g, strips[0]), terrain).0
      + StripBuildings(g, strips[1..], block, terrain)
  }

  /** The strips follow each other from `y` on, all fit, and less than a widest strip and its gap is left. */
  ghost predicate Stacked(g: Generator, strips: seq<Strip>, y: real, yHi: real) {
    && (strips != [] ==> strips[0].y == y)
    && (forall k :: 0 <= k < |strips| ==> strips[k].y + Depth(g, strips[k]) <= yHi)
    && (forall k, n :: 0 <= k && n == k + 1 && n < |strips| ==>
          2.0 <= strips[n].y - (strips[k].y + Depth(g, strips[k])) < 4.5)
    && (if strips == [] then yHi - y < 11.0
        else yHi - (strips[|strips| - 1].y + Depth(g, strips[|strips| - 1])) < 15.5)
  }

  lemma {:induction false} StripStacked(g: Generator, strips: seq<Strip>, first: Strip, gap: real, yHi: real)
    requires 2.0 <= gap < 4.5 && first.y + Depth(g, first) <= yHi
    requires Stacked(g, strips, first.y + Depth(g, first) + gap, yHi)
    ensures Stacked(g, [first] + strips, first.y, yHi)
  {
    hide Depth;
    var all := [first] + strips;
    forall k, n | 0 <= k && n == k + 1 && n < |all|
      ensures 2.0 <= all[n].y - (all[k].y + Depth(g, all[k])) < 4.5
    {
      if k > 0 {
        assert all[k] == strips[k - 1] && all[n] == strips[k];
      }
    }
  }

  lemma {:induction false} NoStrips(g: Generator, y: real, yHi: real, block: Block, terrain: Terrain)
    ensures StripBuildings(g, [], block, terrain) == []
    ensures yHi - y < 11.0 ==> Stacked(g, [], y, yHi)
  {}

  lemma {:induction false} StripInFront(g: Generator, first: Strip, strips: seq<Strip>, block: Block, terrain: Terrain)
    ensures StripBuildings(g, [first] + strips, block, terrain)
            == Row(g, first.state, block.xLo, block.xHi, first.y, Depth(g, first), terrain).0
               + StripBuildings(g, strips, block, terrain)
  {
    hide Row;
    assert ([first] + strips)[1..] == strips;
  }

  /** A block is a stack of strips up to less than the deepest one, and each strip holds its row. */
  lemma {:induction false} BlockIsStacked(g: Generator, s: U64, y: real, block: Block, terrain: Terrain)
    returns (strips: seq<Strip>)
    ensures Stacked(g, strips, y, block.yHi)
    ensures Rows(g, s, y, block, terrain).0 == StripBuildings(g, strips, block, terrain)
    decreases block.yHi - y
  {
    hide Ranged, Row, Stacked, StripBuildings;
    strips := [];
    NoStrips(g, y, block.yHi, block, terrain);
    if block.yHi - y > 8.0 {
      var first := Strip(y, g.next(s));
      RangedInProportion(g, first.state, 7.5, 11.0);
      if Depth(g, first) <= block.yHi - y {
        var s2 := Row(g, first.state, block.xLo, block.xHi, y, Depth(g, first), terrain).1;
        var s3 := g.next(s2);
        var gap := Ranged(g, s3, 2.0, 4.5);
        strips := BlockIsStacked(g, s3, y + Depth(g, first) + gap, block, terrain);
        StripStacked(g, strips, first, gap, block.yHi);
        StripInFront(g, first, strips, block, terrain);
        strips := [first] + strips;
      }
    }
  }

  /** The six blocks lie nine and a half metres inside the streets around them. */
  lemma {:induction false} BlocksBetweenStreets(i: nat, j: nat)
    requires i < 3 && j < 2
    ensures var block := BlockAt(i, j);
            && block.xLo == -95.5 + 70.0 * i as real && block.xHi == block.xLo + 51.0
            && block.yLo == -95.5 + 105.0 * j as real && block.yHi == block.yLo + 86.0
  {}

  /** A block less than ten metres wide or deep is left alone; none of the six is. */
  lemma {:induction false} SmallBlocksSkipped(g: Generator, s: U64, block: Block, terrain: Terrain)
    ensures block.xHi - block.xLo < 10.0 || block.yHi - block.yLo < 10.0 ==>
      BlockBuildings(g, s, block, terrain) == ([], s)
    ensures block.xHi - block.xLo >= 10.0 && block.yHi - block.yLo >= 10.0 ==>
      BlockBuildings(g, s, block, terrain) == Rows(g, s, block.yLo, block, terrain)
    ensures forall i: nat, j: nat :: i < 3 && j < 2 && block == BlockAt(i, j) ==>
      block.xHi - block.xLo >= 10.0 && block.yHi - block.yLo >= 10.0
  {
    hide Rows;
  }

  // ------------------------------------------------------------------ nothing overlaps

  /** A row's buildings stand left to right, each within its own stretch and in the row's depth. */
  lemma {:induction false} RowSpaced(g: Generator, s: U64, x: real, xHi: real, y: real, depth: real, terrain: Terrain)
    requires 7.5 <= depth < 11.0
    ensures var row := Row(g, s, x, xHi, y, depth, terrain).0;
            && AllApart(row)
            && (forall b <- row :: Sized(b) && x <= b.x0 && b.x1 < xHi + 1.5 && y <= b.y0 && b.y1 < y + depth + 1.5)
    decreases xHi - x
  {
    hide Ranged, Height;
    if xHi - x > 7.0 {
      var s1 := g.next(s);
      var width := Ranged(g, s1, 7.0, 13.0);
      if width <= xHi - x {
        var s2 := g.next(s1);
        var s3 := g.next(if g.unit(s2) > 0.18 then After4(g, s2) else s2);
        var x' := x + width + Ranged(g, s3, 2.0, 4.5);
        RowSpaced(g, s3, x', xHi, y, depth, terrain);
        var rest := Row(g, s3, x', xHi, y, depth, terrain).0;
        var b := Place(g, s2, x, y, width, depth, terrain);
        assert Sized(b) && b.x1 + 0.5 <= x';
        forall other <- rest ensures Apart(b, other) {}
      }
    }
  }

  lemma ApartAppend(a: seq<Building>, b: seq<Building>)
    requires AllApart(a) && AllApart(b)
    requires forall u, v :: u in a && v in b ==> Apart(u, v)
    ensures AllApart(a + b)
  {
    forall i, j | 0 <= i < j < |a + b| ensures Apart((a + b)[i], (a + b)[j]) {
      if i < |a| <= j {
        assert a[i] in a && b[j - |a|] in b;
      }
    }
  }

  /** Successive rows stay clear of each other. */
  lemma {:induction false} RowsSpaced(g: Generator, s: U64, y: real, block: Block, terrain: Terrain)
    requires block.yLo <= y
    ensures var buildings := Rows(g, s, y, block, terrain).0;
            AllApart(buildings) && forall b <- buildings :: Sized(b) && InBlock(b, block) && y <= b.y0
    decreases block.yHi - y
  {
    hide Ranged, Row;
    if block.yHi - y > 8.0 {
      var s1 := g.next(s);
      var depth := Ranged(g, s1, 7.5, 11.0);
      if depth <= block.yHi - y {
        var (row, s2) := Row(g, s1, block.xLo, block.xHi, y, depth, terrain);
        RowSpaced(g, s1, block.xLo, block.xHi, y, depth, terrain);
        var s3 := g.next(s2);
        var y' := y + depth + Ranged(g, s3, 2.0, 4.5);
        RowsSpaced(g, s3, y', block, terrain);
        ApartAppend(row, Rows(g, s3, y', block, terrain).0);
      }
    }
  }

  /** Clear of every road strip by more than two metres. */
  predicate OffRoads(b: Building) {
    && (forall i :: 0 <= i < |STREET_X| ==>
          b.x1 < STREET_X[i] - ROAD_HALF_WIDTH - 2.0 || b.x0 > STREET_X[i] + ROAD_HALF_WIDTH + 2.0)
    && (forall j :: 0 <= j < |STREET_Y| ==>
          b.y1 < STREET_Y[j] - ROAD_HALF_WIDTH - 2.0 || b.y0 > STREET_Y[j] + ROAD_HALF_WIDTH + 2.0)
  }

  lemma InBlockOffRoads(b: Building, i: nat, j: nat)
    requires i < 3 && j < 2 && InBlock(b, BlockAt(i, j)) && Sized(b)
    ensures OffRoads(b)
  {}

  lemma StreetsAscend(i: nat, k: nat)
    requires i < k < 3
    ensures STREET_X[i + 1] <= STREET_X[k]
  {}

  lemma DifferentBlocksApart(a: Building, b: Building, m: nat, n: nat)
    requires m < n < 6
    requires InBlock(a, BlockAt(m / 2, m % 2)) && InBlock(b, BlockAt(n / 2, n % 2))
    ensures Apart(a, b)
  {
    if m / 2 < n / 2 {
      StreetsAscend(m / 2, n / 2);
    } else {
      assert m % 2 == 0 && n % 2 == 1;
    }
  }

  lemma {:induction false} BlockSpaced(g: Generator, s: U64, block: Block, terrain: Terrain)
    ensures var buildings := BlockBuildings(g, s, block, terrain).0;
            AllApart(buildings) && forall b <- buildings :: Sized(b) && InBlock(b, block)
  {
    hide Rows;
    RowsSpaced(g, s, block.yLo, block, terrain);
  }

  /** Which of the first n blocks a building stands in. */
  lemma {:induction false} EveryBuildingInABlock(g: Generator, s: U64, n: nat, terrain: Terrain, b: Building)
    returns (m: nat)
    requires n <= 6 && b in Blocks(g, s, n, terrain).0
    ensures m < n && InBlock(b, BlockAt(m / 2, m % 2)) && Sized(b)
    decreases n
  {
    hide InBlock, BlockAt, Sized;
    var (before, s1) := Blocks(g, s, n - 1, terrain);
    if b in before {
      m := EveryBuildingInABlock(g, s, n - 1, terrain, b);
    } else {
      m := n - 1;
      BlockSpaced(g, s1, BlockAt(m / 2, m % 2), terrain);
    }
  }

  /** For every generator and state all footprints are pairwise apart and off every road. */
  lemma {:induction false} PackingIsClear(g: Generator, s: U64, n: nat, terrain: Terrain)
    requires n <= 6
    ensures AllApart(Blocks(g, s, n, terrain).0)
    ensures forall b <- Blocks(g, s, n, terrain).0 :: Sized(b) && OffRoads(b)
    decreases n
  {
    hide Apart, InBlock, OffRoads, BlockAt, BlockBuildings, Sized;
    forall b | b in Blocks(g, s, n, terrain).0 ensures Sized(b) && OffRoads(b) {
      var m := EveryBuildingInABlock(g, s, n, terrain, b);
      InBlockOffRoads(b, m / 2, m % 2);
    }
    if n > 0 {
      PackingIsClear(g, s, n - 1, terrain);
      var (before, s1) := Blocks(g, s, n - 1, terrain);
      var here := BlockAt((n - 1) / 2, (n - 1) % 2);
      var block := BlockBuildings(g, s1, here, terrain).0;
      BlockSpaced(g, s1, here, terrain);
      forall a, b | a in before && b in block ensures Apart(a, b) {
        var m := EveryBuildingInABlock(g, s, n - 1, terrain, a);
        DifferentBlocksApart(a, b, m, n - 1);
      }
      ApartAppend(before, block);
    }
  }

  method PlaceBuildings(rng: Lcg, terrain: Terrain) returns (buildings: seq<Building>)
    modifies rng
    ensures (buildings, rng.state) == Blocks(LCG, old(rng.state), 6, terrain)
    ensures AllApart(buildings)
    ensures forall b <- buildings :: Sized(b) && OffRoads(b)
  {
    hide BlockBuildings, BlockAt;
    buildings := [];
    ghost var s := rng.state;
    for i := 0 to |STREET_X| - 1
      invariant (buildings, rng.state) == Blocks(LCG, s, 2 * i, terrain)
    {
      for j := 0 to |STREET_Y| - 1
        invariant (buildings, rng.state) == Blocks(LCG, s, 2 * i + j, terrain)
      {
        var block := PlaceBlock(rng, BlockAt(i, j), terrain);
        buildings := buildings + block;
      }
    }
    PackingIsClear(LCG, s, 6, terrain);
  }
}
