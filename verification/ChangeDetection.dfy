/**
 * Two-epoch point-cloud change detection: crates/genegis-analysis/src/change.rs.
 *
 * Points are bucketed into planimetric cells, each cell is summarised by its minimum and its
 * 90th-percentile height, and the difference of the two epochs is classified.
 */
module ChangeDetection {
  import opened Common

  const CELL_SIZE_M: real := 5.0
  const MIN_POINTS: nat := 3
  const BUILDING_DELTA_M: real := 4.0
  const VEGETATION_DELTA_M: real := 0.8
  const STABLE_TOLERANCE_M: real := 0.3

  datatype Point3 = Point3(x: real, y: real, z: real)

  type Cloud = seq<Point3>

  type Key = (int, int)

  function KeyOf(p: Point3): Key {
    ((p.x / CELL_SIZE_M).Floor, (p.y / CELL_SIZE_M).Floor)
  }

  /** A cell is the half-open square of five metres at its indices. */
  lemma CellOfPoint(p: Point3, key: Key)
    ensures KeyOf(p) == key
            <==> 5.0 * key.0 as real <= p.x < 5.0 * (key.0 as real + 1.0)
                 && 5.0 * key.1 as real <= p.y < 5.0 * (key.1 as real + 1.0)
  {}

  // ------------------------------------------------------------------ bucketing

  /** The heights that fall into one cell, in point order. */
  function Heights(points: Cloud, key: Key): seq<real> {
    if points == [] then []
    else
      var p := points[|points| - 1];
      Heights(points[..|points| - 1], key) + if KeyOf(p) == key then [p.z] else []
  }

  function Flatten(clouds: seq<Cloud>): Cloud {
    if clouds == [] then [] else Flatten(clouds[..|clouds| - 1]) + clouds[|clouds| - 1]
  }

  ghost predicate IsGrid(cells: map<Key, seq<real>>, points: Cloud) {
    forall key: Key :: (key in cells <==> Heights(points, key) != [])
                       && (key in cells ==> cells[key] == Heights(points, key))
  }

  lemma HeightsOfOneMore(points: Cloud, p: Point3, key: Key)
    ensures Heights(points + [p], key) == Heights(points, key) + if KeyOf(p) == key then [p.z] else []
  {
    assert (points + [p])[..|points|] == points;
  }

  /** The positions of the points at height `h` in the cell. */
  function At(points: Cloud, key: Key, h: real): set<int> {
    set i | 0 <= i < |points| && KeyOf(points[i]) == key && points[i].z == h
  }

  lemma {:induction false} AtOfOneMore(points: Cloud, p: Point3, key: Key, h: real)
    ensures |At(points + [p], key, h)| == |At(points, key, h)| + if KeyOf(p) == key && p.z == h then 1 else 0
  {
    hide KeyOf;
    assert At(points + [p], key, h)
        == At(points, key, h) + if KeyOf(p) == key && p.z == h then {|points|} else {};
  }

  /** A cell holds every height as often as the cloud has a point of that height there. */
  lemma {:induction false} HeightsExact(points: Cloud, key: Key, h: real)
    ensures multiset(Heights(points, key))[h] == |At(points, key, h)|
  {
    if points == [] {
      assert At(points, key, h) == {};
    } else {
      hide KeyOf, At;
      var init, p := points[..|points| - 1], points[|points| - 1];
      assert points == init + [p];
      HeightsExact(init, key, h);
      AtOfOneMore(init, p, key, h);
    }
  }

  lemma EmptyGrid()
    ensures IsGrid(map[], [])
  {}

  lemma GridOfOneMore(cells: map<Key, seq<real>>, points: Cloud, p: Point3)
    requires IsGrid(cells, points)
    ensures var key := KeyOf(p);
            IsGrid(cells[key := (if key in cells then cells[key] else []) + [p.z]], points + [p])
  {
    hide KeyOf;
    forall k: Key {
      HeightsOfOneMore(points, p, k);
    }
  }

  method Accumulate(clouds: seq<Cloud>) returns (cells: map<Key, seq<real>>)
    ensures IsGrid(cells, Flatten(clouds))
  {
    hide KeyOf, IsGrid;
    cells := map[];
    EmptyGrid();
    ghost var seen: Cloud := [];
    for i := 0 to |clouds|
      invariant seen == Flatten(clouds[..i]) && IsGrid(cells, seen)
    {
      ghost var before := seen;
      for j := 0 to |clouds[i]|
        invariant seen == before + clouds[i][..j] && IsGrid(cells, seen)
      {
        var p := clouds[i][j];
        var key := KeyOf(p);
        GridOfOneMore(cells, seen, p);
        cells := cells[key := (if key in cells then cells[key] else []) + [p.z]];
        seen := seen + [p];
      }
      assert clouds[..i + 1][..i] == clouds[..i];
    }
    assert clouds[..|clouds|] == clouds;
  }

  // ------------------------------------------------------------------ the cells in key order

  predicate KeyLess(a: Key, b: Key) {
    a.0 < b.0 || (a.0 == b.0 && a.1 < b.1)
  }

  ghost predicate Ascending(keys: seq<Key>) {
    forall i, j :: 0 <= i < j < |keys| ==> KeyLess(keys[i], keys[j])
  }

  /** Insert into an ascending list unless present. */
  function InsertKey(keys: seq<Key>, key: Key): (r: seq<Key>)
    requires Ascending(keys)
    ensures Ascending(r)
    ensures forall k :: k in r <==> k in keys || k == key
  {
    if keys == [] then [key]
    else
      var init, last := keys[..|keys| - 1], keys[|keys| - 1];
      assert keys == init + [last];
      if key == last then keys
      else if KeyLess(last, key) then keys + [key]
      else
        var r := InsertKey(init, key);
        assert forall k <- r :: KeyLess(k, last);
        r + [last]
  }

  /** The occupied cells in the ordered map's key order. */
  function KeysOf(points: Cloud): (keys: seq<Key>)
    ensures Ascending(keys)
    ensures forall k :: k in keys <==> exists p <- points :: KeyOf(p) == k
  {
    if points == [] then []
    else
      var init, p := points[..|points| - 1], points[|points| - 1];
      assert points == init + [p];
      InsertKey(KeysOf(init), KeyOf(p))
  }

  lemma {:induction false} HeightsNonEmpty(points: Cloud, key: Key)
    ensures Heights(points, key) != [] <==> exists p <- points :: KeyOf(p) == key
  {
    hide KeyOf;
    if points != [] {
      var init, p := points[..|points| - 1], points[|points| - 1];
      assert points == init + [p];
      HeightsNonEmpty(init, key);
    }
  }

  lemma SameLastKey(a: seq<Key>, b: seq<Key>)
    requires Ascending(a) && Ascending(b) && forall k :: k in a <==> k in b
    requires a != []
    ensures b != [] && a[|a| - 1] == b[|b| - 1]
  {
    assert a[0] in b;
    var la, lb := a[|a| - 1], b[|b| - 1];
    assert la in b && lb in a;
    var i :| 0 <= i < |b| && b[i] == la;
    var j :| 0 <= j < |a| && a[j] == lb;
  }

  lemma LastNotInInit(a: seq<Key>, k: Key)
    requires Ascending(a) && a != []
    ensures k in a[..|a| - 1] <==> k in a && k != a[|a| - 1]
  {
    assert a == a[..|a| - 1] + [a[|a| - 1]];
  }

  /** An ascending list is determined by its members. */
  lemma {:induction false} AscendingUnique(a: seq<Key>, b: seq<Key>)
    requires Ascending(a) && Ascending(b) && forall k :: k in a <==> k in b
    ensures a == b
    decreases |a|
  {
    hide KeyLess;
    if a != [] {
      SameLastKey(a, b);
      var ia, ib := a[..|a| - 1], b[..|b| - 1];
      forall k ensures k in ia <==> k in ib {
        LastNotInInit(a, k);
        LastNotInInit(b, k);
      }
      AscendingUnique(ia, ib);
      assert a == ia + [a[|a| - 1]] && b == ib + [b[|b| - 1]];
    } else if b != [] {
      SameLastKey(b, a);
    }
  }

  lemma {:induction false} LeastKey(keys: set<Key>)
    requires keys != {}
    ensures exists key :: key in keys && forall other <- keys :: other == key || KeyLess(key, other)
    decreases |keys|
  {
    var some :| some in keys;
    var rest := keys - {some};
    if rest == {} {
      assert keys == {some};
    } else {
      LeastKey(rest);
      var key :| key in rest && forall other <- rest :: other == key || KeyLess(key, other);
      var least := if KeyLess(some, key) then some else key;
      forall other | other in keys ensures other == least || KeyLess(least, other) {
        assert other == some || other in rest;
      }
      assert least in keys;
    }
  }

  /** Iterate the ordered map: repeatedly take the least remaining key. */
  method OrderedKeys(cells: map<Key, seq<real>>) returns (keys: seq<Key>)
    ensures Ascending(keys)
    ensures forall k :: k in keys <==> k in cells
  {
    keys := [];
    var rest := cells.Keys;
    while rest != {}
      invariant Ascending(keys)
      invariant forall k :: k in keys || k in rest <==> k in cells
      invariant forall k :: k in keys ==> k !in rest
      invariant forall a, b :: a in keys && b in rest ==> KeyLess(a, b)
      decreases rest
    {
      LeastKey(rest);
      var key :| key in rest && forall other <- rest :: other == key || KeyLess(key, other);
      keys := keys + [key];
      rest := rest - {key};
    }
  }

  // ------------------------------------------------------------------ cell statistics

  predicate SortedHeights(s: seq<real>) {
    forall i, j :: 0 <= i < j < |s| ==> s[i] <= s[j]
  }

  lemma AppendGreatest(r: seq<real>, init: seq<real>, h: real, last: real)
    requires SortedHeights(r) && SortedHeights(init + [last]) && h <= last
    requires multiset(r) == multiset(init) + multiset{h}
    ensures SortedHeights(r + [last])
  {
    forall i | 0 <= i < |r| ensures r[i] <= last {
      assert r[i] in multiset(r);
      if r[i] in init {
        var k :| 0 <= k < |init| && init[k] == r[i];
        assert (init + [last])[k] <= (init + [last])[|init|];
      }
    }
  }

  function InsertHeight(s: seq<real>, h: real): (r: seq<real>)
    requires SortedHeights(s)
    ensures SortedHeights(r) && multiset(r) == multiset(s) + multiset{h}
  {
    if s == [] || s[|s| - 1] <= h then s + [h]
    else
      assert s == s[..|s| - 1] + [s[|s| - 1]];
      var r := InsertHeight(s[..|s| - 1], h);
      assert SortedHeights(r + [s[|s| - 1]]) by { AppendGreatest(r, s[..|s| - 1], h, s[|s| - 1]); }
      r + [s[|s| - 1]]
  }

  /** The in-place sort of the cell's heights. */
  function SortHeights(s: seq<real>): (r: seq<real>)
    ensures SortedHeights(r) && multiset(r) == multiset(s) && |r| == |s|
  {
    if s == [] then []
    else
      assert s == s[..|s| - 1] + [s[|s| - 1]];
      var r := InsertHeight(SortHeights(s[..|s| - 1]), s[|s| - 1]);
      assert |multiset(r)| == |r| && |multiset(s)| == |s|;
      r
  }

  function Ceil(x: real): int {
    -((-x).Floor)
  }

  function RankIndex(n: nat): (index: int)
    requires n > 0
    ensures 0 <= index < n
    ensures 0.9 * (n - 1) as real <= index as real < 0.9 * (n - 1) as real + 1.0
  {
    MinInt(Ceil(0.9 * (n - 1) as real), n - 1)
  }

  datatype CellStats = CellStats(minZ: real, p90Z: real)

  function Stats(heights: seq<real>): Option<CellStats> {
    if |heights| < MIN_POINTS then None
    else
      var sorted := SortHeights(heights);
      Some(CellStats(sorted[0], sorted[RankIndex(|heights|)]))
  }

  function CountAtMost(s: seq<real>, h: real): nat {
    if s == [] then 0 else CountAtMost(s[..|s| - 1], h) + if s[|s| - 1] <= h then 1 else 0
  }

  function CountBelow(s: seq<real>, h: real): nat {
    if s == [] then 0 else CountBelow(s[..|s| - 1], h) + if s[|s| - 1] < h then 1 else 0
  }

  lemma {:induction false} CountsOfSorted(s: seq<real>, k: nat, n: nat)
    requires SortedHeights(s) && k < |s| && n <= |s|
    ensures CountAtMost(s[..n], s[k]) >= MinInt(n, k + 1)
    ensures CountBelow(s[..n], s[k]) <= MinInt(n, k)
    decreases n
  {
    if n > 0 {
      assert s[..n][..n - 1] == s[..n - 1];
      CountsOfSorted(s, k, n - 1);
    }
  }

  lemma {:induction false} CountSplit(l: seq<real>, r: seq<real>, h: real)
    ensures CountAtMost(l + r, h) == CountAtMost(l, h) + CountAtMost(r, h)
    ensures CountBelow(l + r, h) == CountBelow(l, h) + CountBelow(r, h)
    decreases |r|
  {
    if r == [] {
      assert l + r == l;
    } else {
      var init := r[..|r| - 1];
      CountSplit(l, init, h);
      assert (l + r)[..|l + r| - 1] == l + init;
    }
  }

  lemma CountsWithout(l: seq<real>, x: real, r: seq<real>, h: real)
    ensures CountAtMost(l + [x] + r, h) == CountAtMost(l + r, h) + CountAtMost([x], h)
    ensures CountBelow(l + [x] + r, h) == CountBelow(l + r, h) + CountBelow([x], h)
  {
    hide CountAtMost, CountBelow;
    CountSplit(l, r, h);
    CountSplit(l + [x], r, h);
    CountSplit(l, [x], h);
  }

  lemma {:induction false} CountsOfPermutation(a: seq<real>, b: seq<real>, h: real)
    requires multiset(a) == multiset(b)
    ensures CountAtMost(a, h) == CountAtMost(b, h) && CountBelow(a, h) == CountBelow(b, h)
    decreases |a|
  {
    hide CountAtMost, CountBelow;
    if a == [] {
      assert |multiset(b)| == 0;
    } else {
      var init, last := a[..|a| - 1], a[|a| - 1];
      assert a == init + [last];
      assert last in multiset(b);
      var i :| 0 <= i < |b| && b[i] == last;
      var l, r := b[..i], b[i + 1..];
      assert b == l + [last] + r;
      assert multiset(l + r) == multiset(b) - multiset{last};
      CountsOfPermutation(init, l + r, h);
      CountsWithout(l, last, r, h);
      CountSplit(init, [last], h);
    }
  }

  predicate IsMinimum(low: real, heights: seq<real>) {
    low in heights && forall h <- heights :: low <= h
  }

  lemma FirstIsMinimum(sorted: seq<real>, heights: seq<real>)
    requires SortedHeights(sorted) && multiset(sorted) == multiset(heights) && sorted != []
    ensures IsMinimum(sorted[0], heights)
  {
    assert sorted[0] in multiset(sorted);
    forall h | h in heights ensures sorted[0] <= h {
      assert h in multiset(sorted);
    }
  }

  function Below(s: seq<real>, h: real): set<int> {
    set i | 0 <= i < |s| && s[i] < h
  }

  function AtMost(s: seq<real>, h: real): set<int> {
    set i | 0 <= i < |s| && s[i] <= h
  }

  lemma {:induction false} BelowOfOneMore(s: seq<real>, x: real, h: real)
    ensures |Below(s + [x], h)| == |Below(s, h)| + if x < h then 1 else 0
  {
    assert Below(s + [x], h) == Below(s, h) + if x < h then {|s|} else {};
  }

  lemma {:induction false} AtMostOfOneMore(s: seq<real>, x: real, h: real)
    ensures |AtMost(s + [x], h)| == |AtMost(s, h)| + if x <= h then 1 else 0
  {
    assert AtMost(s + [x], h) == AtMost(s, h) + if x <= h then {|s|} else {};
  }

  lemma {:induction false} CountsAreCardinalities(s: seq<real>, h: real)
    ensures CountBelow(s, h) == |Below(s, h)| && CountAtMost(s, h) == |AtMost(s, h)|
  {
    if s == [] {
      assert Below(s, h) == {} && AtMost(s, h) == {};
    } else {
      hide Below, AtMost;
      var init, last := s[..|s| - 1], s[|s| - 1];
      assert s == init + [last];
      CountsAreCardinalities(init, h);
      BelowOfOneMore(init, last, h);
      AtMostOfOneMore(init, last, h);
    }
  }

  /** One of the heights, with nine tenths of the others at or below it and no more strictly below. */
  ghost predicate IsNinetieth(p: real, heights: seq<real>) {
    && p in heights
    && |Below(heights, p)| as real < 0.9 * (|heights| - 1) as real + 1.0 <= |AtMost(heights, p)| as real
  }

  lemma {:induction false} SubsetSmaller(a: set<int>, b: set<int>)
    requires a <= b
    ensures |a| <= |b|
  {
    assert b == a + (b - a);
  }

  /** There is only one such height. */
  lemma {:induction false} NinetiethUnique(p: real, q: real, heights: seq<real>)
    requires IsNinetieth(p, heights) && IsNinetieth(q, heights)
    ensures p == q
  {
    if p < q {
      SubsetSmaller(AtMost(heights, p), Below(heights, q));
    } else if q < p {
      SubsetSmaller(AtMost(heights, q), Below(heights, p));
    }
  }

  /**
   * What the statistics mean: they exist from three heights on, the minimum bounds every height,
   * and p90 is the height with nine tenths of the others at or below it.
   */
  lemma {:induction false} StatsAreRanks(heights: seq<real>)
    ensures Stats(heights).Some? <==> |heights| >= 3
    ensures Stats(heights).Some? ==>
      IsNinetieth(Stats(heights).value.p90Z, heights) && IsMinimum(Stats(heights).value.minZ, heights)
  {
    hide CountAtMost, CountBelow, SortHeights, IsMinimum, SortedHeights;
    if |heights| >= 3 {
      var sorted, k := SortHeights(heights), RankIndex(|heights|);
      FirstIsMinimum(sorted, heights);
      assert sorted[k] in multiset(sorted);
      CountsOfSorted(sorted, k, |sorted|);
      assert sorted[..|sorted|] == sorted;
      CountsOfPermutation(sorted, heights, sorted[k]);
      CountsAreCardinalities(heights, sorted[k]);
    }
  }

  lemma LastBoundsAll(a: seq<real>, h: real)
    requires SortedHeights(a) && h in multiset(a)
    ensures a != [] && h <= a[|a| - 1]
  {
    var i :| 0 <= i < |a| && a[i] == h;
  }

  lemma LastRemoved(a: seq<real>)
    requires a != []
    ensures multiset(a[..|a| - 1]) == multiset(a) - multiset{a[|a| - 1]}
  {
    assert a == a[..|a| - 1] + [a[|a| - 1]];
  }

  lemma SameGreatest(a: seq<real>, b: seq<real>)
    requires SortedHeights(a) && SortedHeights(b) && multiset(a) == multiset(b) && a != []
    ensures b != [] && a[|a| - 1] == b[|b| - 1]
    ensures multiset(a[..|a| - 1]) == multiset(b[..|b| - 1])
  {
    hide SortedHeights;
    assert a[|a| - 1] in multiset(a);
    LastBoundsAll(b, a[|a| - 1]);
    assert b[|b| - 1] in multiset(b);
    LastBoundsAll(a, b[|b| - 1]);
    LastRemoved(a);
    LastRemoved(b);
  }

  lemma {:induction false} SortedUnique(a: seq<real>, b: seq<real>)
    requires SortedHeights(a) && SortedHeights(b) && multiset(a) == multiset(b)
    ensures a == b
    decreases |a|
  {
    if a != [] {
      SameGreatest(a, b);
      SortedUnique(a[..|a| - 1], b[..|b| - 1]);
    } else {
      assert |multiset(b)| == |b|;
    }
  }

  /** The statistics of a cell do not depend on the order its points arrived in. */
  lemma StatsOfPermutation(a: seq<real>, b: seq<real>)
    requires multiset(a) == multiset(b)
    ensures Stats(a) == Stats(b)
  {
    assert |multiset(a)| == |a| && |multiset(b)| == |b|;
    SortedUnique(SortHeights(a), SortHeights(b));
  }

  // ------------------------------------------------------------------ classification

  datatype Class =
    BuildingAdded | BuildingRemoved | Stable | SubtleChange | VegetationGrowth | VegetationRemoval

  function Abs(x: real): real {
    if x < 0.0 then -x else x
  }

  function Classify(delta: real, ndsmA: real, ndsmB: real): Class {
    if Abs(delta) <= STABLE_TOLERANCE_M then Stable
    else if delta >= BUILDING_DELTA_M && ndsmB >= BUILDING_DELTA_M then BuildingAdded
    else if delta <= -BUILDING_DELTA_M && ndsmA >= BUILDING_DELTA_M then BuildingRemoved
    else if delta >= VEGETATION_DELTA_M then VegetationGrowth
    else if delta <= -VEGETATION_DELTA_M then VegetationRemoval
    else SubtleChange
  }

  /** The interval of deltas a class can hold. */
  predicate InBand(kind: Class, delta: real) {
    match kind
    case BuildingAdded => delta >= BUILDING_DELTA_M
    case BuildingRemoved => delta <= -BUILDING_DELTA_M
    case Stable => -STABLE_TOLERANCE_M <= delta <= STABLE_TOLERANCE_M
    case SubtleChange => -VEGETATION_DELTA_M < delta < VEGETATION_DELTA_M
    case VegetationGrowth => VEGETATION_DELTA_M <= delta < BUILDING_DELTA_M
    case VegetationRemoval => delta <= -VEGETATION_DELTA_M
  }

  datatype Change = Change(delta: real, ndsmA: real, ndsmB: real)

  /** The compared cell, when both epochs have enough points there. */
  function ChangeAt(a: seq<real>, b: seq<real>): Option<Change> {
    match (Stats(a), Stats(b))
    case (Some(sa), Some(sb)) =>
      var ndsmA, ndsmB := sa.p90Z - sa.minZ, sb.p90Z - sa.minZ;
      Some(Change(ndsmB - ndsmA, ndsmA, ndsmB))
    case _ => None
  }

  function ClassOf(c: Change): Class {
    Classify(c.delta, c.ndsmA, c.ndsmB)
  }

  /**
   * The comparison told by ranks: it needs three points in both epochs, and both heights are
   * taken above the lowest point of the first.
   */
  lemma {:induction false} ChangeByRanks(a: seq<real>, b: seq<real>, low: real, p: real, q: real)
    requires IsMinimum(low, a) && IsNinetieth(p, a) && IsNinetieth(q, b)
    ensures ChangeAt(a, b).Some? <==> |a| >= 3 && |b| >= 3
    ensures ChangeAt(a, b).Some? ==> ChangeAt(a, b) == Some(Change(q - p, p - low, q - low))
  {
    hide Stats, IsNinetieth;
    StatsAreRanks(a);
    StatsAreRanks(b);
    if |a| >= 3 && |b| >= 3 {
      NinetiethUnique(p, Stats(a).value.p90Z, a);
      NinetiethUnique(q, Stats(b).value.p90Z, b);
    }
  }

  // ------------------------------------------------------------------ raising an epoch

  function Raised(s: seq<real>, d: real): (r: seq<real>)
    ensures |r| == |s| && forall i :: 0 <= i < |s| ==> r[i] == s[i] + d
  {
    seq(|s|, i requires 0 <= i < |s| => s[i] + d)
  }

  lemma RaisedOfOneMore(s: seq<real>, h: real, d: real)
    ensures Raised(s + [h], d) == Raised(s, d) + [h + d]
  {}

  lemma RaisedSorted(s: seq<real>, d: real)
    requires SortedHeights(s)
    ensures SortedHeights(Raised(s, d))
  {}

  lemma {:induction false} RaisedCount(s: seq<real>, d: real, h: real)
    ensures multiset(Raised(s, d))[h + d] == multiset(s)[h]
    decreases |s|
  {
    if s != [] {
      var init, last := s[..|s| - 1], s[|s| - 1];
      assert s == init + [last];
      RaisedCount(init, d, h);
      RaisedOfOneMore(init, last, d);
      hide Raised;
      assert multiset(s) == multiset(init) + multiset{last};
      assert multiset(Raised(s, d)) == multiset(Raised(init, d)) + multiset{last + d};
    }
  }

  lemma {:induction false} SortRaised(s: seq<real>, d: real)
    ensures SortHeights(Raised(s, d)) == Raised(SortHeights(s), d)
  {
    hide SortHeights;
    var up, sorted := Raised(s, d), SortHeights(s);
    RaisedSorted(sorted, d);
    forall h: real ensures multiset(SortHeights(up))[h] == multiset(Raised(sorted, d))[h] {
      RaisedCount(s, d, h - d);
      RaisedCount(sorted, d, h - d);
    }
    SortedUnique(SortHeights(up), Raised(sorted, d));
  }

  lemma {:induction false} StatsRaised(s: seq<real>, d: real)
    ensures Stats(Raised(s, d)).Some? <==> Stats(s).Some?
    ensures Stats(s).Some? ==>
      Stats(Raised(s, d)) == Some(CellStats(Stats(s).value.minZ + d, Stats(s).value.p90Z + d))
  {
    hide SortHeights;
    SortRaised(s, d);
  }

  /** Raising the second epoch raises its height above the ground and the difference by as much. */
  lemma {:induction false} RaisingSecondEpoch(a: seq<real>, b: seq<real>, d: real)
    ensures ChangeAt(a, Raised(b, d)).Some? <==> ChangeAt(a, b).Some?
    ensures ChangeAt(a, b).Some? ==>
      var before, after := ChangeAt(a, b).value, ChangeAt(a, Raised(b, d)).value;
      after.delta == before.delta + d && after.ndsmA == before.ndsmA && after.ndsmB == before.ndsmB + d
  {
    hide Stats;
    StatsRaised(b, d);
  }

  /** Raising both epochs changes nothing. */
  lemma {:induction false} RaisingBothEpochs(a: seq<real>, b: seq<real>, d: real)
    ensures ChangeAt(Raised(a, d), Raised(b, d)) == ChangeAt(a, b)
  {
    hide Stats;
    StatsRaised(a, d);
    StatsRaised(b, d);
  }

  lemma NinetiethInside(p: real, heights: seq<real>)
    requires IsNinetieth(p, heights)
    ensures p in heights
  {}

  /** Level ground that rises by `d`: whatever the numbers of points, from three on. */
  lemma {:induction false} LevelGroundRises(a: seq<real>, b: seq<real>, h: real, d: real)
    requires |a| >= 3 && |b| >= 3
    requires (forall z <- a :: z == h) && (forall z <- b :: z == h + d)
    ensures ChangeAt(a, b) == Some(Change(d, 0.0, d))
  {
    hide RankIndex, IsNinetieth;
    StatsAreRanks(a);
    StatsAreRanks(b);
    assert a[0] in a;
    NinetiethInside(Stats(a).value.p90Z, a);
    NinetiethInside(Stats(b).value.p90Z, b);
  }

  /**
   * The six classes by thresholds.  Epoch A's own ground keeps its normalised height
   * non-negative, so a rise of four metres is always a new building; a fall of four metres is a
   * lost one only when it started that high.
   */
  lemma BuildingRules(a: seq<real>, b: seq<real>)
    requires ChangeAt(a, b).Some?
    ensures var c := ChangeAt(a, b).value;
            && c.ndsmA >= 0.0 && InBand(ClassOf(c), c.delta)
            && (ClassOf(c) == BuildingAdded <==> c.delta >= 4.0)
            && (ClassOf(c) == BuildingRemoved <==> c.delta <= -4.0 && c.ndsmA >= 4.0)
            && (ClassOf(c) == VegetationGrowth <==> 0.8 <= c.delta < 4.0)
            && (ClassOf(c) == VegetationRemoval <==> c.delta <= -0.8 && !(c.delta <= -4.0 && c.ndsmA >= 4.0))
            && (ClassOf(c) == Stable <==> -0.3 <= c.delta <= 0.3)
            && (ClassOf(c) == SubtleChange <==> -0.8 < c.delta < -0.3 || 0.3 < c.delta < 0.8)
  {
    hide Stats, IsNinetieth;
    StatsAreRanks(a);
    NinetiethInside(Stats(a).value.p90Z, a);
  }

  lemma EqualHeightsAreStable(a: seq<real>, b: seq<real>)
    requires multiset(a) == multiset(b) && |a| >= MIN_POINTS
    ensures ChangeAt(a, b).Some? && ChangeAt(a, b).value.delta == 0.0 && ClassOf(ChangeAt(a, b).value) == Stable
  {
    StatsOfPermutation(a, b);
  }

  // ------------------------------------------------------------------ the comparison loop

  type Tally = map<Class, (nat, real)>

  datatype Comparison = Comparison(classes: Tally, compared: nat, controlDeltas: seq<real>)

  /** The control rectangle, tested at the cell centre. */
  predicate InControlArea(key: Key) {
    var cx, cy := (key.0 as real + 0.5) * CELL_SIZE_M, (key.1 as real + 0.5) * CELL_SIZE_M;
    20.0 <= cx <= 80.0 && 20.0 <= cy <= 180.0
  }

  function Entry(classes: Tally, kind: Class): (nat, real) {
    if kind in classes then classes[kind] else (0, 0.0)
  }

  function Add(so: Comparison, key: Key, c: Change): Comparison {
    var entry := Entry(so.classes, ClassOf(c));
    Comparison(so.classes[ClassOf(c) := (entry.0 + 1, entry.1 + c.delta)], so.compared + 1,
               if InControlArea(key) then so.controlDeltas + [c.delta] else so.controlDeltas)
  }

  /** Fold the compared cells, in key order. */
  function Compare(a: Cloud, b: Cloud, keys: seq<Key>): Comparison {
    if keys == [] then Comparison(map[], 0, [])
    else
      var init, key := keys[..|keys| - 1], keys[|keys| - 1];
      match ChangeAt(Heights(a, key), Heights(b, key))
      case None => Compare(a, b, init)
      case Some(c) => Add(Compare(a, b, init), key, c)
  }

  function Analysis(a: Cloud, b: Cloud): Comparison {
    Compare(a, b, KeysOf(a))
  }

  /** One turn of the comparison loop. */
  method CompareCell(heightsA: seq<real>, heightsB: seq<real>, key: Key, so: Comparison) returns (r: Comparison)
    ensures r == match ChangeAt(heightsA, heightsB) case None => so case Some(c) => Add(so, key, c)
  {
    hide Classify, InControlArea, Entry, SortHeights, RankIndex;
    r := so;
    var statsA := Stats(heightsA);
    if statsA.None? {
      return;
    }
    var statsB := Stats(heightsB);
    if statsB.None? {
      return;
    }
    var ndsmA := statsA.value.p90Z - statsA.value.minZ;
    var ndsmB := statsB.value.p90Z - statsA.value.minZ;
    var delta := ndsmB - ndsmA;
    var kind := Classify(delta, ndsmA, ndsmB);
    var entry := Entry(so.classes, kind);
    r := Comparison(so.classes[kind := (entry.0 + 1, entry.1 + delta)], so.compared + 1, so.controlDeltas);
    if InControlArea(key) {
      r := r.(controlDeltas := r.controlDeltas + [delta]);
    }
  }

  lemma NoChangeWithoutPoints(a: seq<real>)
    ensures ChangeAt(a, []).None?
  {}

  lemma NothingCompared(a: Cloud, b: Cloud)
    ensures Compare(a, b, []) == Comparison(map[], 0, [])
  {}

  lemma {:induction false} StepOfCompare(a: Cloud, b: Cloud, keys: seq<Key>, i: nat)
    requires i < |keys|
    ensures Compare(a, b, keys[..i + 1])
            == match ChangeAt(Heights(a, keys[i]), Heights(b, keys[i]))
               case None => Compare(a, b, keys[..i])
               case Some(c) => Add(Compare(a, b, keys[..i]), keys[i], c)
  {
    assert keys[..i + 1][..i] == keys[..i];
  }

  lemma FlattenOne(a: Cloud)
    ensures Flatten([a]) == a
  {
    assert [a][..0] == [];
  }

  method DetectChanges(a: Cloud, b: Cloud) returns (r: Comparison)
    ensures r == Analysis(a, b)
  {
    hide Stats, Compare, Heights, Add, ChangeAt, KeysOf, Ascending;
    var cellsA := Accumulate([a]);
    var cellsB := Accumulate([b]);
    FlattenOne(a);
    FlattenOne(b);
    var keys := OrderedKeys(cellsA);
    forall k ensures k in keys <==> k in KeysOf(a) {
      HeightsNonEmpty(a, k);
    }
    AscendingUnique(keys, KeysOf(a));
    r := Comparison(map[], 0, []);
    NothingCompared(a, b);
    for i := 0 to |keys|
      invariant r == Compare(a, b, keys[..i])
    {
      var key := keys[i];
      assert key in keys;
      StepOfCompare(a, b, keys, i);
      if key in cellsB {
        r := CompareCell(cellsA[key], cellsB[key], key, r);
      } else {
        NoChangeWithoutPoints(Heights(a, key));
      }
    }
    assert keys[..|keys|] == keys;
  }

  /** The control cells are twelve columns of thirty-two. */
  lemma ControlCells(key: Key)
    ensures InControlArea(key) <==> 4 <= key.0 <= 15 && 4 <= key.1 <= 35
  {}

  /** A single compared cell is counted in its own class, with its difference, and in no other. */
  lemma {:induction false} OneCellCompared(a: Cloud, b: Cloud, key: Key, kind: Class)
    ensures var r, change := Compare(a, b, [key]), ChangeAt(Heights(a, key), Heights(b, key));
            && (change.None? ==> r == Comparison(map[], 0, []))
            && (change.Some? ==>
                  && r.compared == 1
                  && Entry(r.classes, kind)
                     == (if kind == ClassOf(change.value) then (1, change.value.delta) else (0, 0.0))
                  && r.controlDeltas
                     == if 4 <= key.0 <= 15 && 4 <= key.1 <= 35 then [change.value.delta] else [])
  {
    hide ChangeAt, Heights, ClassOf, InControlArea;
    ControlCells(key);
    assert [key][..0] == [];
  }

  /** One report is the sum of two others. */
  ghost predicate Sums(r: Comparison, so: Comparison, t: Comparison, kind: Class) {
    && r.compared == so.compared + t.compared && r.controlDeltas == so.controlDeltas + t.controlDeltas
    && Entry(r.classes, kind).0 == Entry(so.classes, kind).0 + Entry(t.classes, kind).0
    && Entry(r.classes, kind).1 == Entry(so.classes, kind).1 + Entry(t.classes, kind).1
  }

  lemma {:induction false} AddKeepsSum(r: Comparison, so: Comparison, t: Comparison, kind: Class, key: Key, c: Change)
    requires Sums(r, so, t, kind)
    ensures Sums(Add(r, key, c), so, Add(t, key, c), kind)
  {
    hide ClassOf, InControlArea;
  }

  /** What is reported for a list of cells is what is reported for its two parts, added up. */
  lemma {:induction false} ComparisonAdds(a: Cloud, b: Cloud, k: seq<Key>, l: seq<Key>, kind: Class)
    ensures Sums(Compare(a, b, k + l), Compare(a, b, k), Compare(a, b, l), kind)
    decreases |l|
  {
    if l == [] {
      assert k + l == k;
    } else {
      hide ChangeAt, Heights, Add, Sums;
      var init, key := l[..|l| - 1], l[|l| - 1];
      ComparisonAdds(a, b, k, init, kind);
      assert (k + l)[..|k + l| - 1] == k + init && (k + l)[|k + l| - 1] == key;
      var change := ChangeAt(Heights(a, key), Heights(b, key));
      if change.Some? {
        AddKeepsSum(Compare(a, b, k + init), Compare(a, b, k), Compare(a, b, init), kind, key, change.value);
      }
    }
  }

  // ------------------------------------------------------------------ conservation

  function CellTotal(points: Cloud, keys: seq<Key>): nat {
    if keys == [] then 0
    else CellTotal(points, keys[..|keys| - 1]) + |Heights(points, keys[|keys| - 1])|
  }

  lemma {:induction false} TotalOfOneMore(points: Cloud, p: Point3, keys: seq<Key>)
    requires Ascending(keys)
    ensures CellTotal(points + [p], keys)
            == CellTotal(points, keys) + if KeyOf(p) in keys then 1 else 0
    decreases |keys|
  {
    hide KeyOf;
    if keys != [] {
      var init, last := keys[..|keys| - 1], keys[|keys| - 1];
      assert keys == init + [last];
      TotalOfOneMore(points, p, init);
      HeightsOfOneMore(points, p, last);
      LastNotInInit(keys, KeyOf(p));
    }
  }

  lemma {:induction false} NoPointsNoTotal(keys: seq<Key>)
    ensures CellTotal([], keys) == 0
  {
    if keys != [] {
      NoPointsNoTotal(keys[..|keys| - 1]);
    }
  }

  lemma {:induction false} TotalIsSize(points: Cloud, keys: seq<Key>)
    requires Ascending(keys) && forall p <- points :: KeyOf(p) in keys
    ensures CellTotal(points, keys) == |points|
    decreases |points|
  {
    hide KeyOf;
    if points == [] {
      NoPointsNoTotal(keys);
    } else {
      var init, p := points[..|points| - 1], points[|points| - 1];
      assert points == init + [p];
      TotalIsSize(init, keys);
      TotalOfOneMore(init, p, keys);
    }
  }

  /** Every point lands in exactly one cell: the occupied cells hold the whole cloud. */
  lemma {:induction false} EveryPointInOneCell(points: Cloud)
    ensures CellTotal(points, KeysOf(points)) == |points|
  {
    TotalIsSize(points, KeysOf(points));
  }

  function Count(so: Comparison, kind: Class): nat {
    Entry(so.classes, kind).0
  }

  /** The class counts add up to the number of compared cells. */
  lemma {:induction false} CountsSumToCompared(a: Cloud, b: Cloud, keys: seq<Key>)
    ensures var r := Compare(a, b, keys);
            r.compared == Count(r, BuildingAdded) + Count(r, BuildingRemoved) + Count(r, Stable)
                          + Count(r, SubtleChange) + Count(r, VegetationGrowth) + Count(r, VegetationRemoval)
    decreases |keys|
  {
    hide ChangeAt, ClassOf, InControlArea;
    if keys != [] {
      var key := keys[|keys| - 1];
      CountsSumToCompared(a, b, keys[..|keys| - 1]);
      match ChangeAt(Heights(a, key), Heights(b, key))
      case None =>
      case Some(c) =>
        match ClassOf(c)
        case BuildingAdded =>
        case BuildingRemoved =>
        case Stable =>
        case SubtleChange =>
        case VegetationGrowth =>
        case VegetationRemoval =>
    }
  }

  // ------------------------------------------------------------------ class means

  function Mean(entry: (nat, real)): real {
    if entry.0 > 0 then entry.1 / entry.0 as real else 0.0
  }

  /** A class's total stays in its band, scaled by its count. */
  predicate TotalInBand(kind: Class, n: nat, total: real) {
    match kind
    case BuildingAdded => total >= BUILDING_DELTA_M * n as real
    case BuildingRemoved => total <= -BUILDING_DELTA_M * n as real
    case Stable => -STABLE_TOLERANCE_M * n as real <= total <= STABLE_TOLERANCE_M * n as real
    case SubtleChange => -VEGETATION_DELTA_M * n as real < total < VEGETATION_DELTA_M * n as real
    case VegetationGrowth => VEGETATION_DELTA_M * n as real <= total < BUILDING_DELTA_M * n as real
    case VegetationRemoval => total <= -VEGETATION_DELTA_M * n as real
  }

  lemma {:induction false} TotalsInBand(a: Cloud, b: Cloud, keys: seq<Key>, kind: Class)
    requires kind in Compare(a, b, keys).classes
    ensures var entry := Compare(a, b, keys).classes[kind];
            entry.0 > 0 && TotalInBand(kind, entry.0, entry.1)
    decreases |keys|
  {
    hide ChangeAt, ClassOf;
    var init, key := keys[..|keys| - 1], keys[|keys| - 1];
    if kind in Compare(a, b, init).classes {
      TotalsInBand(a, b, init, kind);
    }
    if ChangeAt(Heights(a, key), Heights(b, key)).Some? {
      BuildingRules(Heights(a, key), Heights(b, key));
    }
  }

  lemma ScaleOrder(x: real, y: real, n: nat, total: real)
    requires n > 0 && x * n as real == total
    ensures x < y <==> total < y * n as real
    ensures x > y <==> total > y * n as real
  {
    ProductOrdered(x, y, n as real, total, y * n as real);
    ProductOrdered(y, x, n as real, y * n as real, total);
  }

  lemma MeanInBand(kind: Class, n: nat, total: real)
    requires n > 0 && TotalInBand(kind, n, total)
    ensures InBand(kind, Mean((n, total)))
  {
    var mean := total / n as real;
    assert mean * n as real == total;
    match kind
    case BuildingAdded => ScaleOrder(mean, BUILDING_DELTA_M, n, total);
    case BuildingRemoved => ScaleOrder(mean, -BUILDING_DELTA_M, n, total);
    case Stable =>
      ScaleOrder(mean, STABLE_TOLERANCE_M, n, total);
      ScaleOrder(mean, -STABLE_TOLERANCE_M, n, total);
    case SubtleChange =>
      ScaleOrder(mean, VEGETATION_DELTA_M, n, total);
      ScaleOrder(mean, -VEGETATION_DELTA_M, n, total);
    case VegetationGrowth =>
      ScaleOrder(mean, VEGETATION_DELTA_M, n, total);
      ScaleOrder(mean, BUILDING_DELTA_M, n, total);
    case VegetationRemoval => ScaleOrder(mean, -VEGETATION_DELTA_M, n, total);
  }

  /** Every class that occurs reports a mean inside its own threshold band. */
  lemma MeansRespectThresholds(a: Cloud, b: Cloud, kind: Class)
    requires kind in Analysis(a, b).classes
    ensures InBand(kind, Mean(Analysis(a, b).classes[kind]))
  {
    TotalsInBand(a, b, KeysOf(a), kind);
    var entry := Analysis(a, b).classes[kind];
    MeanInBand(kind, entry.0, entry.1);
  }

  predicate ExpectedPresent(classes: Tally) {
    BuildingAdded in classes && BuildingRemoved in classes
    && VegetationGrowth in classes && VegetationRemoval in classes
  }

  predicate SignsConsistent(classes: Tally) {
    && BuildingAdded in classes && Mean(classes[BuildingAdded]) >= BUILDING_DELTA_M
    && BuildingRemoved in classes && Mean(classes[BuildingRemoved]) <= -BUILDING_DELTA_M
    && VegetationGrowth in classes && Mean(classes[VegetationGrowth]) >= VEGETATION_DELTA_M
    && VegetationRemoval in classes && Mean(classes[VegetationRemoval]) <= -VEGETATION_DELTA_M
  }

  /** The sign check can only fail together with the presence check. */
  lemma SignCheckIsPresenceCheck(a: Cloud, b: Cloud)
    ensures SignsConsistent(Analysis(a, b).classes) <==> ExpectedPresent(Analysis(a, b).classes)
  {
    hide Analysis, Mean;
    var classes := Analysis(a, b).classes;
    if ExpectedPresent(classes) {
      MeansRespectThresholds(a, b, BuildingAdded);
      MeansRespectThresholds(a, b, BuildingRemoved);
      MeansRespectThresholds(a, b, VegetationGrowth);
      MeansRespectThresholds(a, b, VegetationRemoval);
    }
  }

  // ------------------------------------------------------------------ order independence

  lemma {:induction false} HeightsSplit(l: Cloud, r: Cloud, key: Key)
    ensures Heights(l + r, key) == Heights(l, key) + Heights(r, key)
    decreases |r|
  {
    hide KeyOf;
    if r == [] {
      assert l + r == l;
    } else {
      var init := r[..|r| - 1];
      HeightsSplit(l, init, key);
      assert (l + r)[..|l + r| - 1] == l + init;
    }
  }

  /** Taking one point out of a cloud takes out its height at most. */
  lemma HeightsWithout(l: Cloud, p: Point3, r: Cloud, key: Key)
    ensures multiset(Heights((l + [p]) + r, key))
            == multiset(Heights(l + r, key)) + if KeyOf(p) == key then multiset{p.z} else multiset{}
  {
    hide KeyOf, Heights;
    HeightsSplit(l, r, key);
    HeightsSplit(l + [p], r, key);
    HeightsOfOneMore(l, p, key);
  }

  lemma {:induction false} HeightsOfPermutation(a: Cloud, b: Cloud, key: Key)
    requires multiset(a) == multiset(b)
    ensures multiset(Heights(a, key)) == multiset(Heights(b, key))
    decreases |a|
  {
    hide KeyOf;
    if a == [] {
      assert |multiset(b)| == 0;
    } else {
      var init, last := a[..|a| - 1], a[|a| - 1];
      assert a == init + [last];
      assert last in multiset(b);
      var i :| 0 <= i < |b| && b[i] == last;
      var l, r := b[..i], b[i + 1..];
      assert b == (l + [last]) + r;
      assert multiset(l + r) == multiset(b) - multiset{last};
      HeightsOfPermutation(init, l + r, key);
      HeightsWithout(l, last, r, key);
      HeightsWithout(init, last, [], key);
    }
  }

  lemma {:induction false} CompareOfPermutation(a: Cloud, a': Cloud, b: Cloud, b': Cloud, keys: seq<Key>)
    requires multiset(a) == multiset(a') && multiset(b) == multiset(b')
    ensures Compare(a, b, keys) == Compare(a', b', keys)
    decreases |keys|
  {
    hide Stats, Add, Heights;
    if keys != [] {
      var key := keys[|keys| - 1];
      CompareOfPermutation(a, a', b, b', keys[..|keys| - 1]);
      HeightsOfPermutation(a, a', key);
      HeightsOfPermutation(b, b', key);
      StatsOfPermutation(Heights(a, key), Heights(a', key));
      StatsOfPermutation(Heights(b, key), Heights(b', key));
    }
  }

  /** Reordering the points of either cloud changes nothing in the analysis. */
  lemma OrderIndependent(a: Cloud, a': Cloud, b: Cloud, b': Cloud)
    requires multiset(a) == multiset(a') && multiset(b) == multiset(b')
    ensures Analysis(a, b) == Analysis(a', b')
  {
    forall k ensures k in KeysOf(a) <==> k in KeysOf(a') {
      HeightsNonEmpty(a, k);
      HeightsNonEmpty(a', k);
      HeightsOfPermutation(a, a', k);
      assert |multiset(Heights(a, k))| == |Heights(a, k)| && |multiset(Heights(a', k))| == |Heights(a', k)|;
    }
    AscendingUnique(KeysOf(a), KeysOf(a'));
    CompareOfPermutation(a, a', b, b', KeysOf(a));
  }
}
