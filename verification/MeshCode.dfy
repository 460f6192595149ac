/**
 * Standard grid-square codes: `mesh_bounds` and `first_meshes` of scripts/fetch-estat-mesh.py
 * (JIS X 0410 primary, secondary, third-level and split quadrant squares).
 *
 * Decoding is compared with an independent encoding of points: the square of a code holds a
 * point exactly when the code is the point's own code at that level.
 */
module MeshCode {
  import opened Common

  type Digit = d: int | 0 <= d < 10

  type Code = seq<Digit>

  datatype Place = Place(lon: real, lat: real)

  /** South-west corner and extent in degrees. */
  datatype Square = Square(lon: real, lat: real, dlon: real, dlat: real)

  predicate Holds(s: Square, p: Place) {
    s.lon <= p.lon < s.lon + s.dlon && s.lat <= p.lat < s.lat + s.dlat
  }

  // ------------------------------------------------------------------ decoding

  /** Decimal value of a slice of at most two digits. */
  function Number(digits: Code): int {
    if digits == [] then 0 else Number(digits[..|digits| - 1]) * 10 + digits[|digits| - 1] as int
  }

  /** The square of the given extent, i steps north and j steps east of the corner. */
  function Cell(s: Square, dlon: real, dlat: real, i: int, j: int): Square {
    Square(s.lon + j as real * dlon, s.lat + i as real * dlat, dlon, dlat)
  }

  /** Cell (i, j), counted northward and eastward, of an n by n split. */
  function Child(s: Square, n: int, i: int, j: int): Square
    requires n > 0
  {
    Cell(s, s.dlon / n as real, s.dlat / n as real, i, j)
  }

  function Primary(p: int, u: int): Square {
    Square(u as real + 100.0, p as real / 1.5, 1.0, 2.0 / 3.0)
  }

  function Row(quadrant: Digit): int {
    if quadrant >= 3 then 1 else 0
  }

  function Column(quadrant: Digit): int {
    if quadrant == 2 || quadrant == 4 then 1 else 0
  }

  /** Quadrants: 1 south-west, 2 south-east, 3 north-west, 4 north-east. */
  function Quadrants(s: Square, quadrants: Code): Option<Square> {
    if quadrants == [] then Some(s)
    else
      var q := quadrants[|quadrants| - 1];
      match Quadrants(s, quadrants[..|quadrants| - 1])
      case None => None
      case Some(parent) =>
        if 1 <= q <= 4 then Some(Child(parent, 2, Row(q), Column(q))) else None
  }

  function Slice(code: Code, from: nat, to: nat): Code
    requires from <= to
  {
    if |code| <= from then [] else if |code| <= to then code[from..] else code[from..to]
  }

  /** None where the original raises: a missing leading number or an invalid quadrant. */
  function Decode(code: Code): Option<Square> {
    if Slice(code, 0, 2) == [] || Slice(code, 2, 4) == [] then None
    else
      var primary := Primary(Number(Slice(code, 0, 2)), Number(Slice(code, 2, 4)));
      var secondary := if |code| >= 6 then Child(primary, 8, code[4], code[5]) else primary;
      var third := if |code| >= 8 then Child(secondary, 10, code[6], code[7]) else secondary;
      Quadrants(third, if |code| >= 8 then code[8..] else [])
  }

  lemma CellParts(s: Square, dlon: real, dlat: real, i: int, j: int)
    ensures Cell(s, dlon, dlat, i, j) == Square(s.lon + j as real * dlon, s.lat + i as real * dlat, dlon, dlat)
  {}

  lemma PrimaryParts(p: int, u: int)
    ensures Primary(p, u) == Square(u as real + 100.0, p as real / 1.5, 1.0, 2.0 / 3.0)
  {}

  lemma ChildParts(s: Square, n: int, i: int, j: int)
    requires n > 0
    ensures Child(s, n, i, j) == Cell(s, s.dlon / n as real, s.dlat / n as real, i, j)
  {}

  lemma QuadrantParts(s: Square, q: Digit)
    ensures var dlon, dlat := s.dlon / 2.0, s.dlat / 2.0;
            Child(s, 2, Row(q), Column(q))
            == Square(if Column(q) == 1 then s.lon + dlon else s.lon, if Row(q) == 1 then s.lat + dlat else s.lat,
                      dlon, dlat)
  {
    ChildParts(s, 2, Row(q), Column(q));
    if q >= 3 {
      if q == 4 { CellParts(s, s.dlon / 2.0, s.dlat / 2.0, 1, 1); }
    } else if q == 2 {
      CellParts(s, s.dlon / 2.0, s.dlat / 2.0, 0, 1);
    }
  }

  lemma {:induction false} InvalidQuadrantFails(s: Square, quadrants: Code, k: nat)
    requires k <= |quadrants| && Quadrants(s, quadrants[..k]).None?
    ensures Quadrants(s, quadrants).None?
    decreases |quadrants|
  {
    if k == |quadrants| {
      assert quadrants[..k] == quadrants;
    } else {
      var init := quadrants[..|quadrants| - 1];
      assert init[..k] == quadrants[..k];
      InvalidQuadrantFails(s, init, k);
    }
  }

  /** The last loop of the decoder. */
  method SplitQuadrants(lon0: real, lat0: real, dlon0: real, dlat0: real, quadrants: Code)
    returns (r: Option<Square>)
    ensures r == Quadrants(Square(lon0, lat0, dlon0, dlat0), quadrants)
  {
    hide Child;
    var lon, lat, dlon, dlat := lon0, lat0, dlon0, dlat0;
    ghost var start := Square(lon0, lat0, dlon0, dlat0);
    for k := 0 to |quadrants|
      invariant Quadrants(start, quadrants[..k]) == Some(Square(lon, lat, dlon, dlat))
    {
      assert quadrants[..k + 1][..k] == quadrants[..k];
      var q := quadrants[k];
      if !(q == 1 || q == 2 || q == 3 || q == 4) {
        InvalidQuadrantFails(start, quadrants, k + 1);
        return None;
      }
      QuadrantParts(Square(lon, lat, dlon, dlat), q);
      dlat, dlon := dlat / 2.0, dlon / 2.0;
      if q >= 3 {
        lat := lat + dlat;
      }
      if q == 2 || q == 4 {
        lon := lon + dlon;
      }
    }
    assert quadrants[..|quadrants|] == quadrants;
    r := Some(Square(lon, lat, dlon, dlat));
  }

  method MeshBounds(code: Code) returns (r: Option<Square>)
    ensures r == Decode(code)
  {
    hide Number, Child, Primary, Cell;
    if |Slice(code, 0, 2)| == 0 || |Slice(code, 2, 4)| == 0 {
      return None;
    }
    var p, u := Number(Slice(code, 0, 2)), Number(Slice(code, 2, 4));
    var lat, lon := p as real / 1.5, u as real + 100.0;
    var dlat, dlon := 2.0 / 3.0, 1.0;
    ghost var s := Primary(p, u);
    PrimaryParts(p, u);
    if |code| >= 6 {
      ChildParts(s, 8, code[4], code[5]);
      dlat, dlon := dlat / 8.0, dlon / 8.0;
      CellParts(s, dlon, dlat, code[4], code[5]);
      lat := lat + code[4] as real * dlat;
      lon := lon + code[5] as real * dlon;
      s := Child(s, 8, code[4], code[5]);
    }
    assert s == Square(lon, lat, dlon, dlat);
    if |code| >= 8 {
      ChildParts(s, 10, code[6], code[7]);
      dlat, dlon := dlat / 10.0, dlon / 10.0;
      CellParts(s, dlon, dlat, code[6], code[7]);
      lat := lat + code[6] as real * dlat;
      lon := lon + code[7] as real * dlon;
      s := Child(s, 10, code[6], code[7]);
    }
    assert s == Square(lon, lat, dlon, dlat);
    r := SplitQuadrants(lon, lat, dlon, dlat, if |code| >= 8 then code[8..] else []);
  }

  // ------------------------------------------------------------------ splitting a square

  /** Which of the cells of width `step` from `low` on holds `v`. */
  function IndexOf(low: real, step: real, v: real): int
    requires step > 0.0
  {
    ((v - low) / step).Floor
  }

  lemma FloorIs(q: real, i: int)
    ensures q.Floor == i <==> i as real <= q < i as real + 1.0
  {}

  lemma IndexOfExact(low: real, step: real, v: real, i: int)
    requires step > 0.0
    ensures (low + i as real * step <= v < low + i as real * step + step) <==> IndexOf(low, step, v) == i
  {
    var q, start := (v - low) / step, i as real * step;
    ProductOrdered(q, i as real, step, v - low, start);
    ProductOrdered(q, i as real + 1.0, step, v - low, start + step);
    FloorIs(q, i);
  }

  lemma IndexOfInRange(low: real, step: real, n: int, v: real)
    requires step > 0.0 && n > 0
    ensures (low <= v < low + n as real * step) <==> 0 <= IndexOf(low, step, v) < n
  {
    var q := (v - low) / step;
    ProductOrdered(q, 0.0, step, v - low, 0.0);
    ProductOrdered(q, n as real, step, v - low, n as real * step);
  }

  function ChildRow(s: Square, n: int, p: Place): int
    requires n > 0 && s.dlat > 0.0
  {
    IndexOf(s.lat, s.dlat / n as real, p.lat)
  }

  function ChildColumn(s: Square, n: int, p: Place): int
    requires n > 0 && s.dlon > 0.0
  {
    IndexOf(s.lon, s.dlon / n as real, p.lon)
  }

  predicate Proper(s: Square) {
    s.dlon > 0.0 && s.dlat > 0.0
  }

  /** The same along one axis. */
  lemma PartsTile(low: real, span: real, n: int, i: int, v: real)
    requires n > 0 && span > 0.0 && 0 <= i < n
    ensures var step := span / n as real;
            && step > 0.0
            && (low + i as real * step <= v < low + i as real * step + step
                <==> low <= v < low + span && i == IndexOf(low, step, v))
            && (low <= v < low + span ==> 0 <= IndexOf(low, step, v) < n)
  {
    hide IndexOf;
    var step := span / n as real;
    assert step * n as real == span;
    IndexOfExact(low, step, v, i);
    IndexOfInRange(low, step, n, v);
  }

  /** The n by n cells are disjoint and tile exactly the square they split. */
  lemma ChildrenTile(s: Square, n: int, i: int, j: int, p: Place)
    requires n > 0 && Proper(s) && 0 <= i < n && 0 <= j < n
    ensures Proper(Child(s, n, i, j))
    ensures Holds(Child(s, n, i, j), p) <==> Holds(s, p) && i == ChildRow(s, n, p) && j == ChildColumn(s, n, p)
    ensures Holds(s, p) ==> 0 <= ChildRow(s, n, p) < n && 0 <= ChildColumn(s, n, p) < n
  {
    hide IndexOf;
    PartsTile(s.lat, s.dlat, n, i, p.lat);
    PartsTile(s.lon, s.dlon, n, j, p.lon);
  }

  // ------------------------------------------------------------------ the code of a point

  /** Level 0 has four digits, 1 six, 2 eight, and every further level one quadrant digit more. */
  function Digits(level: nat): nat {
    if level == 0 then 4 else if level == 1 then 6 else 6 + level
  }

  predicate Standard(code: Code, level: nat) {
    && |code| == Digits(level)
    && (level >= 1 ==> code[4] < 8 && code[5] < 8)
    && (forall k :: 8 <= k < |code| ==> 1 <= code[k] <= 4)
  }

  /** The region that two-digit primary numbers can name. */
  predicate InRegion(p: Place) {
    0.0 <= p.lat < 100.0 / 1.5 && 100.0 <= p.lon < 200.0
  }

  function Parent(code: Code, level: nat): Code
    requires level > 0 && |code| == Digits(level)
  {
    code[..Digits(level - 1)]
  }

  /** A standard code splits its parent's square. */
  lemma DecodeSplitsParent(code: Code, level: nat)
    requires Standard(code, level) && level > 0
    ensures Standard(Parent(code, level), level - 1)
    ensures Decode(Parent(code, level)).Some? ==>
      Decode(code) == Some(
        var s := Decode(Parent(code, level)).value;
        if level == 1 then Child(s, 8, code[4], code[5])
        else if level == 2 then Child(s, 10, code[6], code[7])
        else Child(s, 2, Row(code[|code| - 1]), Column(code[|code| - 1])))
  {
    hide Number, Child, Primary;
    var parent := Parent(code, level);
    assert Slice(code, 0, 2) == Slice(parent, 0, 2) && Slice(code, 2, 4) == Slice(parent, 2, 4);
    if level >= 3 {
      assert code[8..][..|code| - 9] == parent[8..];
    }
    if level == 2 {
      assert code[8..] == [];
    }
  }

  lemma {:induction false} StandardDecodes(code: Code, level: nat)
    requires Standard(code, level)
    ensures Decode(code).Some? && Proper(Decode(code).value)
    decreases level
  {
    if level > 0 {
      hide Decode;
      DecodeSplitsParent(code, level);
      StandardDecodes(Parent(code, level), level - 1);
      var s := Decode(Parent(code, level)).value;
      var anywhere := Place(s.lon, s.lat);
      if level == 1 {
        ChildrenTile(s, 8, code[4], code[5], anywhere);
      } else if level == 2 {
        ChildrenTile(s, 10, code[6], code[7], anywhere);
      } else {
        ChildrenTile(s, 2, Row(code[|code| - 1]), Column(code[|code| - 1]), anywhere);
      }
    }
  }

  function PrimaryCode(p: int, u: int): (code: Code)
    requires 0 <= p < 100 && 0 <= u < 100
    ensures |code| == 4
  {
    [p / 10, p % 10, u / 10, u % 10]
  }

  /** The digits a point adds to its parent code. */
  function LastDigits(s: Square, level: nat, p: Place): (digits: Code)
    requires level > 0 && Proper(s) && Holds(s, p)
    ensures |digits| == Digits(level) - Digits(level - 1)
    ensures level == 1 ==> digits[0] < 8 && digits[1] < 8
    ensures level >= 3 ==> 1 <= digits[0] <= 4
  {
    hide ChildRow, ChildColumn;
    var n := if level == 1 then 8 else if level == 2 then 10 else 2;
    ChildrenTile(s, n, 0, 0, p);
    var row, column := ChildRow(s, n, p), ChildColumn(s, n, p);
    if level <= 2 then [row, column] else [row * 2 + column + 1]
  }

  lemma TwoDigits(a: Digit, b: Digit)
    ensures Number([a, b]) == a as int * 10 + b as int
  {
    assert [a][..0] == [];
    assert Number([a]) == a;
    assert [a, b][..1] == [a];
  }

  lemma PrimaryDecodes(p: int, u: int)
    requires 0 <= p < 100 && 0 <= u < 100
    ensures Decode(PrimaryCode(p, u)) == Some(Primary(p, u))
  {
    var code := PrimaryCode(p, u);
    assert Slice(code, 0, 2) == [code[0], code[1]] && Slice(code, 2, 4) == [code[2], code[3]];
    TwoDigits(code[0], code[1]);
    TwoDigits(code[2], code[3]);
  }

  /** The two leading numbers of a code: degrees of longitude past 100, and latitude in thirds of two degrees. */
  lemma {:induction false} PrimaryForm(code: Code)
    requires |code| == 4
    ensures Decode(code)
            == Some(Square(100.0 + 10.0 * code[2] as real + code[3] as real,
                           (10.0 * code[0] as real + code[1] as real) * 2.0 / 3.0,
                           1.0, 2.0 / 3.0))
  {
    assert code == [code[0], code[1], code[2], code[3]];
    assert Slice(code, 0, 2) == [code[0], code[1]] && Slice(code, 2, 4) == [code[2], code[3]];
    TwoDigits(code[0], code[1]);
    TwoDigits(code[2], code[3]);
  }

  lemma {:induction false} DigitsAdd(code: Code, n: nat)
    requires |code| in {6, 8} && n == |code| - 2
    ensures var parent := Decode(code[..n]);
            && parent.Some?
            && Decode(code) == Some(Child(parent.value, if n == 4 then 8 else 10, code[n], code[n + 1]))
  {
    hide Child, Primary, Number;
    var init := code[..n];
    assert Slice(code, 0, 2) == Slice(init, 0, 2) == [code[0], code[1]];
    assert Slice(code, 2, 4) == Slice(init, 2, 4) == [code[2], code[3]];
    if n == 6 {
      assert init[4] == code[4] && init[5] == code[5] && code[8..] == [];
    }
  }

  /** The next two digits count twelfths of a degree northward and eighths of a degree eastward. */
  lemma {:induction false} SecondaryForm(code: Code)
    requires |code| == 6
    ensures Decode(code)
            == Some(Square(100.0 + 10.0 * code[2] as real + code[3] as real + code[5] as real / 8.0,
                           (10.0 * code[0] as real + code[1] as real) * 2.0 / 3.0 + code[4] as real / 12.0,
                           1.0 / 8.0, 1.0 / 12.0))
  {
    hide Decode;
    DigitsAdd(code, 4);
    PrimaryForm(code[..4]);
  }

  /** And the last two count 1/120 and 1/80 of a degree. */
  lemma {:induction false} ThirdForm(code: Code)
    requires |code| == 8
    ensures Decode(code)
            == Some(Square(100.0 + 10.0 * code[2] as real + code[3] as real + code[5] as real / 8.0
                           + code[7] as real / 80.0,
                           (10.0 * code[0] as real + code[1] as real) * 2.0 / 3.0 + code[4] as real / 12.0
                           + code[6] as real / 120.0,
                           1.0 / 80.0, 1.0 / 120.0))
  {
    hide Decode;
    DigitsAdd(code, 6);
    SecondaryForm(code[..6]);
  }

  lemma {:induction false} OneQuadrant(s: Square, q: Digit)
    requires 1 <= q <= 4
    ensures var east, north := q == 2 || q == 4, q >= 3;
            Quadrants(s, [q]) == Some(Square(if east then s.lon + s.dlon / 2.0 else s.lon,
                                             if north then s.lat + s.dlat / 2.0 else s.lat,
                                             s.dlon / 2.0, s.dlat / 2.0))
  {
    hide Child;
    assert [q][..0] == [];
    QuadrantParts(s, q);
  }

  /** One to four name the south-western, south-eastern, north-western and north-eastern quarter. */
  lemma {:induction false} QuadrantCompass(s: Square)
    ensures Quadrants(s, [1]) == Some(Square(s.lon, s.lat, s.dlon / 2.0, s.dlat / 2.0))
    ensures Quadrants(s, [2]) == Some(Square(s.lon + s.dlon / 2.0, s.lat, s.dlon / 2.0, s.dlat / 2.0))
    ensures Quadrants(s, [3]) == Some(Square(s.lon, s.lat + s.dlat / 2.0, s.dlon / 2.0, s.dlat / 2.0))
    ensures Quadrants(s, [4]) == Some(Square(s.lon + s.dlon / 2.0, s.lat + s.dlat / 2.0, s.dlon / 2.0, s.dlat / 2.0))
  {
    hide Child, Row, Column;
    OneQuadrant(s, 1);
    OneQuadrant(s, 2);
    OneQuadrant(s, 3);
    OneQuadrant(s, 4);
  }

  lemma PrimaryHolds(p: Place)
    requires InRegion(p)
    ensures 0 <= (p.lat * 1.5).Floor < 100 && 0 <= p.lon.Floor - 100 < 100
    ensures var code := PrimaryCode((p.lat * 1.5).Floor, p.lon.Floor - 100);
            Standard(code, 0) && Decode(code).Some? && Proper(Decode(code).value) && Holds(Decode(code).value, p)
  {
    PrimaryDecodes((p.lat * 1.5).Floor, p.lon.Floor - 100);
  }

  lemma CodeExtends(parent: Code, level: nat, p: Place)
    requires level > 0 && Standard(parent, level - 1) && Decode(parent).Some?
    requires Proper(Decode(parent).value) && Holds(Decode(parent).value, p)
    ensures var code := parent + LastDigits(Decode(parent).value, level, p);
            Standard(code, level) && Decode(code).Some? && Proper(Decode(code).value) && Holds(Decode(code).value, p)
  {
    hide Decode, ChildRow, ChildColumn, Child, Holds;
    var s := Decode(parent).value;
    var code := parent + LastDigits(s, level, p);
    assert Standard(code, level);
    assert Parent(code, level) == parent;
    DecodeSplitsParent(code, level);
    var n := if level == 1 then 8 else if level == 2 then 10 else 2;
    ChildrenTile(s, n, 0, 0, p);
    ChildrenTile(s, n, ChildRow(s, n, p), ChildColumn(s, n, p), p);
  }

  /** The code a point should have, read off its coordinates level by level. */
  function CodeOf(p: Place, level: nat): (code: Code)
    requires InRegion(p)
    ensures Standard(code, level)
    ensures Decode(code).Some? && Proper(Decode(code).value) && Holds(Decode(code).value, p)
    decreases level
  {
    if level == 0 then
      PrimaryHolds(p);
      PrimaryCode((p.lat * 1.5).Floor, p.lon.Floor - 100)
    else
      var parent := CodeOf(p, level - 1);
      var code := parent + LastDigits(Decode(parent).value, level, p);
      CodeExtends(parent, level, p);
      code
  }

  lemma CodeOfSplits(p: Place, level: nat)
    requires InRegion(p) && level > 0
    ensures var parent := CodeOf(p, level - 1);
            CodeOf(p, level) == parent + LastDigits(Decode(parent).value, level, p)
  {}

  lemma {:induction false} CodeOfPrimary(p: Place)
    requires InRegion(p)
    ensures 0 <= (p.lat * 1.5).Floor < 100 && 0 <= p.lon.Floor - 100 < 100
    ensures CodeOf(p, 0) == PrimaryCode((p.lat * 1.5).Floor, p.lon.Floor - 100)
  {
    hide Decode, Holds;
  }

  lemma PrimaryHoldsIff(a: int, b: int, p: Place)
    ensures Holds(Primary(a, b), p) <==> a == (p.lat * 1.5).Floor && b == p.lon.Floor - 100
  {}

  lemma PrimaryCodeTells(a: int, b: int, c: int, d: int)
    requires 0 <= a < 100 && 0 <= b < 100 && 0 <= c < 100 && 0 <= d < 100
    ensures PrimaryCode(a, b) == PrimaryCode(c, d) <==> a == c && b == d
  {}

  lemma {:induction false} PrimarySquareHoldsIffCode(code: Code, p: Place)
    requires Standard(code, 0) && InRegion(p)
    ensures Decode(code).Some? && (Holds(Decode(code).value, p) <==> code == CodeOf(p, 0))
  {
    hide Decode, Holds, CodeOf, Primary;
    var a: int, b: int := code[0] as int * 10 + code[1] as int, code[2] as int * 10 + code[3] as int;
    assert code == PrimaryCode(a, b);
    PrimaryDecodes(a, b);
    CodeOfPrimary(p);
    PrimaryHoldsIff(a, b, p);
    PrimaryCodeTells(a, b, (p.lat * 1.5).Floor, p.lon.Floor - 100);
  }

  /** One level down: a standard square is the part of its parent's that its last digits name. */
  lemma {:induction false} HoldsByParent(code: Code, level: nat, p: Place)
    requires Standard(code, level) && level > 0
    ensures var parent := Parent(code, level);
            && Standard(parent, level - 1) && Decode(code).Some? && Decode(parent).Some?
            && Proper(Decode(parent).value)
            && (Holds(Decode(code).value, p) ==> Holds(Decode(parent).value, p))
            && (Holds(Decode(parent).value, p) ==>
                  (Holds(Decode(code).value, p) <==> code[|parent|..] == LastDigits(Decode(parent).value, level, p)))
  {
    hide Decode, Child, Holds, ChildRow, ChildColumn;
    var parent := Parent(code, level);
    DecodeSplitsParent(code, level);
    StandardDecodes(parent, level - 1);
    var s := Decode(parent).value;
    if level == 1 {
      ChildrenTile(s, 8, code[4], code[5], p);
    } else if level == 2 {
      ChildrenTile(s, 10, code[6], code[7], p);
    } else {
      var q := code[|code| - 1];
      ChildrenTile(s, 2, Row(q), Column(q), p);
    }
  }

  lemma SplitCodes(a: Code, b: Code, n: nat)
    requires n <= |a| && n <= |b|
    ensures a == b <==> a[..n] == b[..n] && a[n..] == b[n..]
  {
    assert a == a[..n] + a[n..] && b == b[..n] + b[n..];
  }

  /**
   * Round trip at every depth: a standard code's square holds a point exactly when the code is
   * the point's own.  So the squares of one level are pairwise disjoint, tile the region, and
   * nest in the squares of the level above.
   */
  lemma {:induction false} SquareHoldsIffCode(code: Code, level: nat, p: Place)
    requires Standard(code, level) && InRegion(p)
    ensures Decode(code).Some? && (Holds(Decode(code).value, p) <==> code == CodeOf(p, level))
    decreases level
  {
    hide Decode, Holds, CodeOf, Proper, LastDigits, InRegion;
    if level == 0 {
      PrimarySquareHoldsIffCode(code, p);
    } else {
      var parent, own := Parent(code, level), CodeOf(p, level);
      HoldsByParent(code, level, p);
      SquareHoldsIffCode(parent, level - 1, p);
      CodeOfSplits(p, level);
      SplitCodes(code, own, |parent|);
      assert own[..|parent|] == CodeOf(p, level - 1);
    }
  }

  /** Two standard codes of one level share a point only when they are the same code. */
  lemma SquaresDisjoint(c1: Code, c2: Code, level: nat, p: Place)
    requires Standard(c1, level) && Standard(c2, level) && InRegion(p)
    requires Decode(c1).Some? && Decode(c2).Some? && Holds(Decode(c1).value, p) && Holds(Decode(c2).value, p)
    ensures c1 == c2
  {
    SquareHoldsIffCode(c1, level, p);
    SquareHoldsIffCode(c2, level, p);
  }

  // ------------------------------------------------------------------ what the decoder lets through

  /** The decoder never checks second-level digits: 8 and 9 reach into the neighbouring square. */
  lemma UncheckedDigitsOverlap()
    ensures Decode([5, 2, 3, 6, 8, 0]).Some? && Decode([5, 2, 3, 6, 8, 0]) == Decode([5, 3, 3, 6, 0, 0])
  {
    var c1: Code, c2: Code := [5, 2, 3, 6, 8, 0], [5, 3, 3, 6, 0, 0];
    assert Slice(c1, 0, 2) == [5, 2] && Slice(c1, 2, 4) == [3, 6];
    assert Slice(c2, 0, 2) == [5, 3] && Slice(c2, 2, 4) == [3, 6];
    TwoDigits(5, 2);
    TwoDigits(5, 3);
    TwoDigits(3, 6);
  }

  /** Nor does it check the length: a missing or a trailing digit is passed over. */
  lemma UncheckedLengthsAccepted()
    ensures Decode([5, 2, 3]).Some? && Decode([5, 2, 3]) == Decode([5, 2, 0, 3])
    ensures Decode([5, 2, 3, 6, 0]).Some? && Decode([5, 2, 3, 6, 0]) == Decode([5, 2, 3, 6])
    ensures Decode([5, 2, 3, 6, 0, 1, 7]).Some? && Decode([5, 2, 3, 6, 0, 1, 7]) == Decode([5, 2, 3, 6, 0, 1])
    ensures forall p: Place, level: nat :: InRegion(p) ==> |CodeOf(p, level)| !in {3, 5, 7}
  {
    hide Child, Primary;
    var c1: Code, c2: Code := [5, 2, 3], [5, 2, 0, 3];
    assert Slice(c1, 0, 2) == [5, 2] && Slice(c1, 2, 4) == [3];
    assert Slice(c2, 0, 2) == [5, 2] && Slice(c2, 2, 4) == [0, 3];
    TwoDigits(0, 3);
    assert [3][..0] == [];
    assert Number([3]) == 3;
    var c3: Code, c4: Code := [5, 2, 3, 6, 0], [5, 2, 3, 6];
    assert Slice(c3, 0, 2) == Slice(c4, 0, 2) && Slice(c3, 2, 4) == Slice(c4, 2, 4);
    var c5: Code, c6: Code := [5, 2, 3, 6, 0, 1, 7], [5, 2, 3, 6, 0, 1];
    assert Slice(c5, 0, 2) == Slice(c6, 0, 2) && Slice(c5, 2, 4) == Slice(c6, 2, 4);
  }

  /** The lengths the standard does not know, and the second-level digits it does not know. */
  predicate WellShaped(code: Code) {
    |code| !in {3, 5, 7} && (|code| >= 6 ==> code[4] < 8 && code[5] < 8)
  }

  lemma PrimaryInRegion(a: int, b: int, p: Place)
    requires 0 <= a < 100 && 0 <= b < 100 && Holds(Primary(a, b), p)
    ensures InRegion(p)
  {}

  /** Every point of a standard square lies in the region that standard codes cover. */
  lemma {:induction false} StandardHoldsInRegion(code: Code, level: nat, p: Place)
    requires Standard(code, level) && Decode(code).Some? && Holds(Decode(code).value, p)
    ensures InRegion(p)
    decreases level
  {
    if level == 0 {
      var a: int, b: int := code[0] as int * 10 + code[1] as int, code[2] as int * 10 + code[3] as int;
      assert code == PrimaryCode(a, b);
      PrimaryDecodes(a, b);
      PrimaryInRegion(a, b, p);
    } else {
      hide Decode, Holds, InRegion, LastDigits;
      HoldsByParent(code, level, p);
      StandardHoldsInRegion(Parent(code, level), level - 1, p);
    }
  }

  function DecodePrefix(code: Code): Square
    requires |code| >= 8
  {
    var primary := Primary(Number(Slice(code, 0, 2)), Number(Slice(code, 2, 4)));
    Child(Child(primary, 8, code[4], code[5]), 10, code[6], code[7])
  }

  lemma {:induction false} QuadrantsChecked(s: Square, quadrants: Code)
    ensures Quadrants(s, quadrants).Some? <==> forall k :: 0 <= k < |quadrants| ==> 1 <= quadrants[k] <= 4
    decreases |quadrants|
  {
    hide Child;
    if quadrants != [] {
      QuadrantsChecked(s, quadrants[..|quadrants| - 1]);
    }
  }

  /** A code that decodes and is well shaped is standard at the level of its length. */
  lemma WellShapedIsStandard(code: Code) returns (level: nat)
    requires Decode(code).Some? && WellShaped(code)
    ensures Standard(code, level)
  {
    hide Child, Primary, Number;
    level := if |code| == 4 then 0 else if |code| == 6 then 1 else |code| - 6;
    if |code| >= 8 {
      QuadrantsChecked(DecodePrefix(code), code[8..]);
      forall k | 8 <= k < |code| ensures 1 <= code[k] <= 4 {
        assert code[8..][k - 8] == code[k];
      }
    }
  }

  /**
   * Among all codes that decode, and for every point of the decoded square: the code is the
   * point's own at some level exactly when its length and its second-level digits are ones the
   * standard knows.
   */
  lemma AcceptedCodeIsOwnIff(code: Code, p: Place)
    requires Decode(code).Some? && Holds(Decode(code).value, p)
    ensures (InRegion(p) && exists level: nat :: code == CodeOf(p, level)) <==> WellShaped(code)
  {
    hide Decode, Holds, CodeOf, InRegion;
    if WellShaped(code) {
      var level := WellShapedIsStandard(code);
      StandardHoldsInRegion(code, level, p);
      SquareHoldsIffCode(code, level, p);
    }
  }

  // ------------------------------------------------------------------ the first-level files

  datatype Box = Box(west: real, south: real, east: real, north: real)

  predicate Within(p: Place, box: Box) {
    box.west <= p.lon <= box.east && box.south <= p.lat <= box.north
  }

  predicate NamedBox(box: Box) {
    InRegion(Place(box.west, box.south)) && InRegion(Place(box.east, box.north))
  }

  ghost predicate NoDuplicates(codes: seq<Code>) {
    forall a, b :: 0 <= a < b < |codes| ==> codes[a] != codes[b]
  }

  /** An earlier code in row-major order. */
  predicate Emitted(code: Code, p: int, u: int) {
    && |code| == 4
    && var a, b := code[0] as int * 10 + code[1] as int, code[2] as int * 10 + code[3] as int;
       a < p || (a == p && b < u)
  }

  lemma CodeInjective(p: int, u: int)
    requires 0 <= p < 100 && 0 <= u < 100
    ensures forall a: int, b: int :: 0 <= a < 100 && 0 <= b < 100 && PrimaryCode(a, b) == PrimaryCode(p, u) ==>
      a == p && b == u
    ensures Emitted(PrimaryCode(p, u), p, u + 1) && !Emitted(PrimaryCode(p, u), p, u)
  {}

  /** Row-major list of the first-level codes that a bounding box needs. */
  method FirstMeshes(box: Box) returns (out: seq<Code>)
    requires NamedBox(box)
    ensures NoDuplicates(out) && forall code <- out :: |code| == 4
    ensures forall p: int, u: int :: 0 <= p < 100 && 0 <= u < 100 ==>
      (PrimaryCode(p, u) in out
       <==> (box.south * 1.5).Floor <= p <= (box.north * 1.5).Floor
            && box.west.Floor - 100 <= u <= box.east.Floor - 100)
  {
    var p0, p1 := (box.south * 1.5).Floor, (box.north * 1.5).Floor;
    var u0, u1 := box.west.Floor - 100, box.east.Floor - 100;
    out := [];
    var p := p0;
    while p <= p1
      invariant p0 <= p <= MaxInt(p0, p1 + 1)
      invariant NoDuplicates(out)
      invariant forall a: int, b: int :: 0 <= a < 100 && 0 <= b < 100 ==>
        (PrimaryCode(a, b) in out <==> p0 <= a < p && u0 <= b <= u1)
      invariant forall k :: 0 <= k < |out| ==> Emitted(out[k], p, u0)
    {
      var u := u0;
      while u <= u1
        invariant u0 <= u <= MaxInt(u0, u1 + 1)
        invariant NoDuplicates(out)
        invariant forall a: int, b: int :: 0 <= a < 100 && 0 <= b < 100 ==>
          (PrimaryCode(a, b) in out <==> (p0 <= a < p && u0 <= b <= u1) || (a == p && u0 <= b < u))
        invariant forall k :: 0 <= k < |out| ==> Emitted(out[k], p, u)
      {
        CodeInjective(p, u);
        out := out + [PrimaryCode(p, u)];
        u := u + 1;
      }
      p := p + 1;
    }
  }

  /** The listed files hold every point of the box, and each of their squares meets the box. */
  lemma FirstMeshesExact(box: Box, out: seq<Code>)
    requires NamedBox(box) && box.west <= box.east && box.south <= box.north
    requires forall p: int, u: int :: 0 <= p < 100 && 0 <= u < 100 ==>
      (PrimaryCode(p, u) in out
       <==> (box.south * 1.5).Floor <= p <= (box.north * 1.5).Floor
            && box.west.Floor - 100 <= u <= box.east.Floor - 100)
    ensures forall p: Place :: Within(p, box) ==> InRegion(p) && CodeOf(p, 0) in out
    ensures forall p: int, u: int :: 0 <= p < 100 && 0 <= u < 100 && PrimaryCode(p, u) in out ==>
      exists place: Place :: Within(place, box) && Holds(Primary(p, u), place)
  {
    forall p: int, u: int | 0 <= p < 100 && 0 <= u < 100 && PrimaryCode(p, u) in out
      ensures exists place: Place :: Within(place, box) && Holds(Primary(p, u), place)
    {
      var place := Place(Max(box.west, u as real + 100.0), Max(box.south, p as real / 1.5));
      assert Within(place, box) && Holds(Primary(p, u), place);
    }
  }
}
