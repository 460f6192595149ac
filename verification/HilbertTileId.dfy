/**
 * Hilbert tile identities: `zxy_to_tile_id` of crates/genegis-tile/src/pmtiles.rs (PMTiles
 * version 3 specification, tile IDs).
 *
 * The loop keeps full-width coordinates and flips all their bits; the reference recursion turns
 * one quadrant at a time.  The reference has an inverse, so identities never collide.
 */
module HilbertTileId {
  import opened Common

  function Pow2(k: nat): (r: nat)
    ensures r >= 1
  {
    if k == 0 then 1 else 2 * Pow2(k - 1)
  }

  /** Cells of a 2^k by 2^k square. */
  function Area(k: nat): (r: nat)
    ensures r >= 1
  {
    if k == 0 then 1 else 4 * Area(k - 1)
  }

  lemma {:induction false} AreaIsSquare(k: nat)
    ensures Area(k) == Pow2(k) * Pow2(k)
  {
    if k > 0 {
      AreaIsSquare(k - 1);
    }
  }

  type Tile = (nat, nat)

  /** Position of a quadrant along the curve: (3 * rx) xor ry. */
  function Quadrant(rx: nat, ry: nat): (q: nat)
    requires rx < 2 && ry < 2
    ensures q < 4
  {
    if rx == 0 then ry else 3 - ry
  }

  predicate Within(t: Tile, side: nat) {
    t.0 < side && t.1 < side
  }

  /** Reflect and swap a child square of the given side; undone by doing it again. */
  function Turn(t: Tile, side: nat, rx: nat, ry: nat): (r: Tile)
    requires Within(t, side)
    ensures Within(r, side)
  {
    if ry != 0 then t
    else if rx == 1 then (side - 1 - t.1, side - 1 - t.0)
    else (t.1, t.0)
  }

  /** The quadrant of a tile, and the tile's place in that quadrant's own curve. */
  function Enter(t: Tile, side: nat): (r: (nat, Tile))
    requires Within(t, 2 * side)
    ensures r.0 < 4 && Within(r.1, side)
  {
    var rx, ry := if t.0 < side then 0 else 1, if t.1 < side then 0 else 1;
    (Quadrant(rx, ry), Turn((if rx == 0 then t.0 else t.0 - side, if ry == 0 then t.1 else t.1 - side), side, rx, ry))
  }

  function Leave(q: nat, t: Tile, side: nat): (r: Tile)
    requires q < 4 && Within(t, side)
    ensures Within(r, 2 * side)
  {
    if q == 0 then Turn(t, side, 0, 0)
    else if q == 1 then (t.0, t.1 + side)
    else if q == 2 then (t.0 + side, t.1 + side)
    else var turned := Turn(t, side, 1, 0); (turned.0 + side, turned.1)
  }

  lemma EnterLeave(q: nat, t: Tile, side: nat)
    requires q < 4 && Within(t, side)
    ensures Enter(Leave(q, t, side), side) == (q, t)
  {}

  lemma LeaveEnter(t: Tile, side: nat)
    requires Within(t, 2 * side)
    ensures Leave(Enter(t, side).0, Enter(t, side).1, side) == t
  {}

  /** Distance covered before a quadrant is entered. */
  function Skipped(q: nat, area: nat): (d: nat)
    requires q < 4
    ensures d <= 3 * area
  {
    if q == 0 then 0 else if q == 1 then area else if q == 2 then 2 * area else 3 * area
  }

  function QuadrantAt(d: nat, area: nat): (q: nat)
    requires d < 4 * area
    ensures q < 4 && Skipped(q, area) <= d < Skipped(q, area) + area
  {
    if d < area then 0 else if d < 2 * area then 1 else if d < 3 * area then 2 else 3
  }

  /** Distance along the curve through a 2^k by 2^k square. */
  function Distance(k: nat, t: Tile): (d: nat)
    requires Within(t, Pow2(k))
    ensures d < Area(k)
  {
    if k == 0 then 0
    else
      var (q, child) := Enter(t, Pow2(k - 1));
      Skipped(q, Area(k - 1)) + Distance(k - 1, child)
  }

  /** The tile at a distance along the curve. */
  function TileAt(k: nat, d: nat): (t: Tile)
    requires d < Area(k)
    ensures Within(t, Pow2(k))
  {
    if k == 0 then (0, 0)
    else
      var q := QuadrantAt(d, Area(k - 1));
      Leave(q, TileAt(k - 1, d - Skipped(q, Area(k - 1))), Pow2(k - 1))
  }

  lemma {:induction false} CurveThroughQuarter(k: nat, t: Tile)
    requires Within(t, 2 * Pow2(k))
    ensures Within(t, Pow2(k + 1))
    ensures Distance(k + 1, t) == Skipped(Enter(t, Pow2(k)).0, Area(k)) + Distance(k, Enter(t, Pow2(k)).1)
  {
    hide Enter, Skipped;
  }

  /**
   * The curve through a square of twice the side: through the lower left quarter with the axes
   * swapped, the upper left and the upper right one as it is, and the lower right one mirrored.
   */
  lemma {:induction false} CurveByQuarters(k: nat, x: nat, y: nat)
    requires Within((x, y), Pow2(k))
    ensures Within((y, x), Pow2(k)) && Distance(k + 1, (x, y)) == Distance(k, (y, x))
    ensures Distance(k + 1, (x, y + Pow2(k))) == Area(k) + Distance(k, (x, y))
    ensures Distance(k + 1, (x + Pow2(k), y + Pow2(k))) == 2 * Area(k) + Distance(k, (x, y))
    ensures Distance(k + 1, (2 * Pow2(k) - 1 - y, Pow2(k) - 1 - x)) == 3 * Area(k) + Distance(k, (x, y))
  {
    hide Area, Distance;
    CurveThroughQuarter(k, (x, y));
    CurveThroughQuarter(k, (x, y + Pow2(k)));
    CurveThroughQuarter(k, (x + Pow2(k), y + Pow2(k)));
    CurveThroughQuarter(k, (2 * Pow2(k) - 1 - y, Pow2(k) - 1 - x));
  }

  lemma QuadrantAtUnique(q: nat, rest: nat, area: nat)
    requires q < 4 && rest < area
    ensures QuadrantAt(Skipped(q, area) + rest, area) == q
  {}

  /** A tile found through its quadrant. */
  lemma TileInQuadrant(k: nat, q: nat, rest: nat)
    requires k > 0 && q < 4 && rest < Area(k - 1)
    ensures Skipped(q, Area(k - 1)) + rest < Area(k)
    ensures TileAt(k, Skipped(q, Area(k - 1)) + rest) == Leave(q, TileAt(k - 1, rest), Pow2(k - 1))
  {
    hide Leave, QuadrantAt, Skipped;
    QuadrantAtUnique(q, rest, Area(k - 1));
  }

  lemma {:induction false} TileAtDistance(k: nat, t: Tile)
    requires Within(t, Pow2(k))
    ensures TileAt(k, Distance(k, t)) == t
    decreases k
  {
    hide Enter, Leave, Skipped, QuadrantAt, Quadrant;
    if k > 0 {
      var (q, child) := Enter(t, Pow2(k - 1));
      TileAtDistance(k - 1, child);
      QuadrantAtUnique(q, Distance(k - 1, child), Area(k - 1));
      LeaveEnter(t, Pow2(k - 1));
    }
  }

  lemma {:induction false} DistanceOfTileAt(k: nat, d: nat)
    requires d < Area(k)
    ensures Distance(k, TileAt(k, d)) == d
    decreases k
  {
    hide Enter, Leave, Skipped, QuadrantAt, Quadrant;
    if k > 0 {
      var q := QuadrantAt(d, Area(k - 1));
      var rest := d - Skipped(q, Area(k - 1));
      DistanceOfTileAt(k - 1, rest);
      EnterLeave(q, TileAt(k - 1, rest), Pow2(k - 1));
    }
  }

  // ------------------------------------------------------------------ the curve is continuous

  function Gap(a: nat, b: nat): nat {
    if a < b then b - a else a - b
  }

  predicate Neighbours(a: Tile, b: Tile) {
    Gap(a.0, b.0) + Gap(a.1, b.1) == 1
  }

  /** The first quadrant starts and the last one ends in a bottom corner of the square. */
  lemma OuterCorners(side: nat, area: nat)
    requires side > 0
    ensures Leave(0, (0, 0), side) == (0, 0) && Leave(3, (side - 1, 0), side) == (2 * side - 1, 0)
    ensures Skipped(0, area) == 0 && Skipped(3, area) == 3 * area
  {}

  lemma {:induction false} CurveEnds(k: nat)
    ensures TileAt(k, 0) == (0, 0) && TileAt(k, Area(k) - 1) == (Pow2(k) - 1, 0)
  {
    hide Leave, QuadrantAt, Skipped;
    if k > 0 {
      hide TileAt;
      var area, side := Area(k - 1), Pow2(k - 1);
      CurveEnds(k - 1);
      OuterCorners(side, area);
      TileInQuadrant(k, 0, 0);
      TileInQuadrant(k, 3, area - 1);
      assert Area(k) - 1 == 3 * area + (area - 1) && Pow2(k) == 2 * side;
    }
  }

  lemma LeaveKeepsNeighbours(q: nat, a: Tile, b: Tile, side: nat)
    requires q < 4 && Within(a, side) && Within(b, side) && Neighbours(a, b)
    ensures Neighbours(Leave(q, a, side), Leave(q, b, side))
  {}

  /** Where one quadrant's curve ends, the next one's begins beside it. */
  lemma QuadrantsJoin(q: nat, side: nat)
    requires q < 3 && side > 0
    ensures Neighbours(Leave(q, (side - 1, 0), side), Leave(q + 1, (0, 0), side))
  {}

  lemma NextQuadrant(q: nat, d: nat, area: nat)
    requires q < 4 && (q < 3 || d + 1 < 4 * area) && d + 1 == Skipped(q, area) + area
    ensures q < 3 && Skipped(q + 1, area) == d + 1
  {}

  lemma StepWithinQuadrant(k: nat, q: nat, rest: nat)
    requires k > 0 && q < 4 && rest + 1 < Area(k - 1) && Neighbours(TileAt(k - 1, rest), TileAt(k - 1, rest + 1))
    ensures Skipped(q, Area(k - 1)) + rest + 1 < Area(k)
    ensures Neighbours(TileAt(k, Skipped(q, Area(k - 1)) + rest), TileAt(k, Skipped(q, Area(k - 1)) + rest + 1))
  {
    hide *;
    TileInQuadrant(k, q, rest);
    TileInQuadrant(k, q, rest + 1);
    LeaveKeepsNeighbours(q, TileAt(k - 1, rest), TileAt(k - 1, rest + 1), Pow2(k - 1));
  }

  lemma {:induction false} StepIntoNextQuadrant(k: nat, q: nat)
    requires k > 0 && q < 3
    ensures Skipped(q + 1, Area(k - 1)) == Skipped(q, Area(k - 1)) + Area(k - 1) < Area(k)
    ensures Neighbours(TileAt(k, Skipped(q + 1, Area(k - 1)) - 1), TileAt(k, Skipped(q + 1, Area(k - 1))))
  {
    hide *;
    var area := Area(k - 1);
    CurveEnds(k - 1);
    NextQuadrant(q, Skipped(q, area) + area - 1, area);
    TileInQuadrant(k, q, area - 1);
    TileInQuadrant(k, q + 1, 0);
    QuadrantsJoin(q, Pow2(k - 1));
  }

  /** Consecutive identities of one zoom are edge-adjacent tiles: the locality the format relies on. */
  lemma {:induction false} CurveIsContinuous(k: nat, d: nat)
    requires d + 1 < Area(k)
    ensures Neighbours(TileAt(k, d), TileAt(k, d + 1))
    decreases k
  {
    hide Neighbours, Skipped, TileAt, QuadrantAt;
    if k > 0 {
      var area := Area(k - 1);
      var q := QuadrantAt(d, area);
      var rest := d - Skipped(q, area);
      if rest + 1 < area {
        CurveIsContinuous(k - 1, rest);
        StepWithinQuadrant(k, q, rest);
      } else {
        NextQuadrant(q, d, area);
        StepIntoNextQuadrant(k, q);
      }
    }
  }

  // ------------------------------------------------------------------ identities across zooms

  /** Tiles of all lower zooms: (4^z - 1) / 3. */
  function Base(z: nat): nat {
    if z == 0 then 0 else Base(z - 1) + Area(z - 1)
  }

  lemma {:induction false} BaseClosedForm(z: nat)
    ensures 3 * Base(z) == Area(z) - 1
  {
    if z > 0 {
      BaseClosedForm(z - 1);
    }
  }

  predicate InGrid(z: nat, x: nat, y: nat) {
    x < Pow2(z) && y < Pow2(z)
  }

  function TileId(z: nat, x: nat, y: nat): nat
    requires InGrid(z, x, y)
  {
    Base(z) + Distance(z, (x, y))
  }

  lemma {:induction false} LowerZoomsFirst(z: nat, higher: nat)
    requires z < higher
    ensures Base(z) + Area(z) <= Base(higher)
    decreases higher
  {
    if z + 1 < higher {
      LowerZoomsFirst(z, higher - 1);
    }
  }

  /** No two tiles of any zooms share an identity. */
  lemma TileIdInjective(z1: nat, x1: nat, y1: nat, z2: nat, x2: nat, y2: nat)
    requires InGrid(z1, x1, y1) && InGrid(z2, x2, y2) && TileId(z1, x1, y1) == TileId(z2, x2, y2)
    ensures z1 == z2 && x1 == x2 && y1 == y2
  {
    hide Distance, Area, Base;
    if z1 < z2 {
      LowerZoomsFirst(z1, z2);
    } else if z2 < z1 {
      LowerZoomsFirst(z2, z1);
    } else {
      TileAtDistance(z1, (x1, y1));
      TileAtDistance(z2, (x2, y2));
    }
  }

  // ------------------------------------------------------------------ the loop

  lemma Doubled(a: nat, b: nat)
    ensures 2 * (a * b) == (2 * a) * b
  {}

  lemma {:induction false} Pow2Splits(k: nat, z: nat)
    requires k <= z
    ensures Pow2(z) == Pow2(z - k) * Pow2(k)
    decreases z
  {
    if k < z {
      Pow2Splits(k, z - 1);
      Doubled(Pow2(z - 1 - k), Pow2(k));
    }
  }

  lemma {:induction false} DivModUnique(n: nat, q: int, s: nat, r: nat)
    requires r < s && n == q * s + r
    ensures n / s == q && n % s == r
  {
    var p := n / s;
    assert n == p * s + n % s;
    assert (q - p) * s == q * s - p * s && (p - q) * s == p * s - q * s;
    if q > p {
      AtLeastOnce(q - p, s);
    } else if q < p {
      AtLeastOnce(p - q, s);
    }
  }

  /** What lies below a power of two. */
  function Low(x: nat, s: nat): (r: nat)
    requires s > 0
    ensures r < s
  {
    x % s
  }

  /** The low k bits split into the next bit and the low k - 1 bits. */
  lemma {:induction false} LowBits(x: nat, s: nat)
    requires s > 0
    ensures Low(x, 2 * s) == Low(x, s) + if (x / s) % 2 == 1 then s else 0
  {
    var q, r := x / s, x % s;
    var h := q / 2;
    assert x == q * s + r;
    if q % 2 == 1 {
      assert q * s == (2 * h + 1) * s == h * (2 * s) + s;
      DivModUnique(x, h, 2 * s, s + r);
    } else {
      assert q * s == (2 * h) * s == h * (2 * s);
      DivModUnique(x, h, 2 * s, r);
    }
  }

  /** Flipping every bit of a full-width coordinate flips its low bits. */
  lemma {:induction false} FlippedLowBits(x: nat, m: nat, s: nat)
    requires s > 0 && x < m * s
    ensures Low(m * s - 1 - x, s) == s - 1 - Low(x, s)
  {
    var q, r := x / s, x % s;
    assert x == q * s + r;
    assert (m - 1 - q) * s == m * s - s - q * s;
    DivModUnique(m * s - 1 - x, m - 1 - q, s, s - 1 - r);
  }

  function LowTile(k: nat, x: nat, y: nat): (t: Tile)
    ensures Within(t, Pow2(k))
  {
    (Low(x, Pow2(k)), Low(y, Pow2(k)))
  }

  lemma LowTileIs(k: nat, x: nat, y: nat)
    ensures LowTile(k, x, y) == (Low(x, Pow2(k)), Low(y, Pow2(k)))
  {}

  /** One level of the curve, read off full-width coordinates. */
  lemma {:induction false} EnterLowBits(k: nat, x: nat, y: nat)
    requires k > 0
    ensures var side := Pow2(k - 1);
            var rx, ry := (x / side) % 2, (y / side) % 2;
            Enter(LowTile(k, x, y), side) == (Quadrant(rx, ry), Turn(LowTile(k - 1, x, y), side, rx, ry))
  {
    LowBits(x, Pow2(k - 1));
    LowBits(y, Pow2(k - 1));
  }

  /** Flipping and swapping full-width coordinates turns their low bits. */
  lemma {:induction false} TurnedLowBits(k: nat, x: nat, y: nat, n: nat, m: nat, rx: nat, ry: nat)
    requires x < n && y < n && (rx == 1 && ry == 0 ==> n == m * Pow2(k))
    ensures var (x', y') := if ry != 0 then (x, y) else if rx == 1 then (n - 1 - y, n - 1 - x) else (y, x);
            LowTile(k, x', y') == Turn(LowTile(k, x, y), Pow2(k), rx, ry)
  {
    hide Pow2, LowTile, Low;
    var s := Pow2(k);
    LowTileIs(k, x, y);
    if ry == 0 && rx == 1 {
      FlippedLowBits(x, m, s);
      FlippedLowBits(y, m, s);
      LowTileIs(k, n - 1 - y, n - 1 - x);
    } else {
      LowTileIs(k, y, x);
    }
  }

  /** What the loop does to a full-width coordinate pair at one level. */
  function Turned(x: nat, y: nat, n: nat, rx: nat, ry: nat): (r: Tile)
    requires x < n && y < n
    ensures r.0 < n && r.1 < n
  {
    if ry != 0 then (x, y) else if rx == 1 then (n - 1 - y, n - 1 - x) else (y, x)
  }

  lemma Doubles(k: nat)
    requires k > 0
    ensures Pow2(k) == 2 * Pow2(k - 1)
  {}

  lemma DistanceByLevel(k: nat, t: Tile)
    requires k > 0 && Within(t, 2 * Pow2(k - 1)) && Within(t, Pow2(k))
    ensures var (q, child) := Enter(t, Pow2(k - 1));
            Distance(k, t) == Skipped(q, Area(k - 1)) + Distance(k - 1, child)
  {
    hide Enter, Skipped;
  }

  lemma SkippedIsProduct(q: nat, area: nat)
    requires q < 4
    ensures Skipped(q, area) == area * q
  {}

  lemma {:induction false} LevelShare(k: nat, x: nat, y: nat, rx: nat, ry: nat)
    requires k > 0 && rx == (x / Pow2(k - 1)) % 2 && ry == (y / Pow2(k - 1)) % 2
    ensures Distance(k, LowTile(k, x, y))
            == Pow2(k - 1) * Pow2(k - 1) * Quadrant(rx, ry)
               + Distance(k - 1, Turn(LowTile(k - 1, x, y), Pow2(k - 1), rx, ry))
  {
    hide LowTile, Turn, Enter, Skipped, Quadrant, Area, Pow2;
    EnterLowBits(k, x, y);
    AreaIsSquare(k - 1);
    SkippedIsProduct(Quadrant(rx, ry), Area(k - 1));
    assert Pow2(k) == 2 * Pow2(k - 1) by { Doubles(k); }
    DistanceByLevel(k, LowTile(k, x, y));
  }

  /** At every scale the loop reads, either the grid splits into such squares or it is one tile. */
  lemma FullWidth(z: nat, k: nat, x: nat, n: nat)
    requires 0 < k <= MaxInt(z, 1) && n == Pow2(z) && x < n
    ensures z > 0 ==> n == Pow2(z - (k - 1)) * Pow2(k - 1)
    ensures z == 0 ==> (x / Pow2(k - 1)) % 2 == 0
  {
    if z > 0 {
      Pow2Splits(k - 1, z);
    } else {
      assert 0 / Pow2(k - 1) == 0;
    }
  }

  /** One turn of the loop: the level's share of the distance, and what is left to walk. */
  lemma {:induction false} OneLevel(z: nat, k: nat, x: nat, y: nat, rx: nat, ry: nat)
    requires 0 < k <= MaxInt(z, 1) && x < Pow2(z) && y < Pow2(z)
    requires rx == (x / Pow2(k - 1)) % 2 && ry == (y / Pow2(k - 1)) % 2
    ensures var (x', y') := Turned(x, y, Pow2(z), rx, ry);
            Distance(k, LowTile(k, x, y))
            == Pow2(k - 1) * Pow2(k - 1) * Quadrant(rx, ry) + Distance(k - 1, LowTile(k - 1, x', y'))
    ensures Turned(x, y, Pow2(z), rx, ry)
            == if ry != 0 then (x, y) else if rx == 1 then (Pow2(z) - 1 - y, Pow2(z) - 1 - x) else (y, x)
  {
    hide LowTile, Turn, Pow2, Distance, Quadrant, Within;
    var n := Pow2(z);
    FullWidth(z, k, x, n);
    TurnedLowBits(k - 1, x, y, n, if z == 0 then 1 else Pow2(z - (k - 1)), rx, ry);
    LevelShare(k, x, y, rx, ry);
  }

  lemma NothingBelowOneTile()
    ensures forall t: Tile :: Within(t, Pow2(0)) ==> Distance(0, t) == 0
  {}

  lemma Unreduced(x: nat, n: nat)
    requires x < n
    ensures Low(x, n) == x
  {}

  lemma {:induction false} StartOfLoop(z: nat, x: nat, y: nat)
    requires InGrid(z, x, y)
    ensures var k := if z == 0 then 1 else z;
            Distance(k, LowTile(k, x, y)) == Distance(z, (x, y))
  {
    if z == 0 {
      assert Pow2(1) == 2 && Pow2(0) == 1;
      assert LowTile(1, 0, 0) == (0, 0);
      assert Enter((0, 0), 1) == (0, (0, 0));
    } else {
      Unreduced(x, Pow2(z));
      Unreduced(y, Pow2(z));
    }
  }

  lemma HalfScale(k: nat)
    requires k > 0
    ensures Pow2(k - 1) / 2 == if k == 1 then 0 else Pow2(k - 2)
  {}

  method ZxyToTileId(z: nat, x0: nat, y0: nat) returns (r: Option<nat>)
    ensures r == if z <= 31 && InGrid(z, x0, y0) then Some(TileId(z, x0, y0)) else None
  {
    hide LowTile, Turn, Turned, Enter, Skipped, Area, Pow2, Base, Distance;
    if z > 31 || x0 >= Pow2(z) || y0 >= Pow2(z) {
      return None;
    }
    NothingBelowOneTile();
    BaseClosedForm(z);
    var base := (Area(z) - 1) / 3;
    var n := Pow2(z);
    var x, y, distance := x0, y0, 0;
    var scale := Pow2(if z == 0 then 0 else z - 1);
    ghost var k: nat := if z == 0 then 1 else z;
    StartOfLoop(z, x0, y0);
    while scale > 0
      invariant scale == (if k == 0 then 0 else Pow2(k - 1)) && k <= MaxInt(z, 1)
      invariant 0 <= x < n && 0 <= y < n
      invariant distance + Distance(k, LowTile(k, x, y)) == Distance(z, (x0, y0))
      decreases scale
    {
      var rx, ry := (x / scale) % 2, (y / scale) % 2;
      OneLevel(z, k, x, y, rx, ry);
      distance := distance + scale * scale * Quadrant(rx, ry);
      if ry == 0 {
        if rx == 1 {
          x := n - 1 - x;
          y := n - 1 - y;
        }
        x, y := y, x;
      }
      HalfScale(k);
      scale := scale / 2;
      k := k - 1;
    }
    r := Some(base + distance);
  }
}
