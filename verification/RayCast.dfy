/**
 * Even-odd ray casting over polygon rings: crates/genegis-geometry/src/predicate.rs and its
 * Python mirrors in scripts/.  A ring is a cyclic list of vertices; its first vertex may or
 * may not be repeated at the end.
 *
 * The specification counts, over a vertex path, the edges that toggle the answer.  The three
 * loops below walk the ring in two different ways and are proved to report the parity of that
 * count; what the predicate promises is then proved about the count.
 */
module RayCast {
  import opened Common

  datatype Point = Point(x: real, y: real)

  type Ring = seq<Point>

  datatype Bounds = Bounds(min: Point, max: Point)

  /** One end of the edge is strictly above the horizontal line at `y`, the other is not. */
  predicate Straddles(a: Point, b: Point, y: real) {
    (a.y > y) != (b.y > y)
  }

  function CrossingX(a: Point, b: Point, y: real): real
    requires a.y != b.y
  {
    (b.x - a.x) * (y - a.y) / (b.y - a.y) + a.x
  }

  /** The scripts interpolate along the edge instead; over exact numbers it is the same abscissa. */
  function InterpolatedX(a: Point, b: Point, y: real): real
    requires a.y != b.y
  {
    var t := (y - a.y) / (b.y - a.y);
    a.x + t * (b.x - a.x)
  }

  predicate Toggles(p: Point, a: Point, b: Point) {
    Straddles(a, b, p.y) && p.x < CrossingX(a, b, p.y)
  }

  /** The number of edges along the open path that satisfy `edge`. */
  function Count(edge: (Point, Point) -> bool, path: seq<Point>): nat {
    if |path| < 2 then 0
    else Count(edge, path[..|path| - 1]) + if edge(path[|path| - 2], path[|path| - 1]) then 1 else 0
  }

  function EdgeTest(p: Point): (Point, Point) -> bool {
    (a, b) => Toggles(p, a, b)
  }

  /** The number of edges along the open path that toggle the answer for `p`. */
  function Crossings(p: Point, path: seq<Point>): nat {
    Count(EdgeTest(p), path)
  }

  /** The path that walks every edge of the ring once, starting from its last vertex. */
  function Circuit(ring: Ring): seq<Point> {
    if ring == [] then [] else [ring[|ring| - 1]] + ring
  }

  predicate Odd(n: nat) {
    n % 2 == 1
  }

  /** Even-odd containment: an odd number of ring edges toggle the answer. */
  predicate Contains(p: Point, ring: Ring) {
    Odd(Crossings(p, Circuit(ring)))
  }

  lemma {:induction false} NextIndex(i: nat, n: nat)
    requires i < n
    ensures (i + 1) % n == if i + 1 < n then i + 1 else 0
  {}

  // ------------------------------------------------------------------ arithmetic of one edge

  lemma {:induction false} NonZeroProduct(a: real, b: real)
    requires a != 0.0 && b != 0.0
    ensures a * b != 0.0
  {}

  lemma {:induction false} QuotientUnique(q: real, p: real, n: real, d: real)
    requires d != 0.0 && q == n / d
    ensures p * d == n <==> p == q
  {
    assert q * d == n;
    assert (p - q) * d == p * d - n;
    if p != q {
      NonZeroProduct(p - q, d);
    }
  }

  /** The crossing is the one abscissa in proportion along the edge. */
  lemma {:induction false} CrossingInProportion(a: Point, b: Point, y: real, x: real)
    requires a.y != b.y
    ensures (x - a.x) * (b.y - a.y) == (b.x - a.x) * (y - a.y) <==> x == CrossingX(a, b, y)
  {
    var n, d := (b.x - a.x) * (y - a.y), b.y - a.y;
    QuotientUnique(n / d, x - a.x, n, d);
  }

  lemma {:induction false} InterpolationOrder(a: Point, b: Point, y: real)
    requires a.y != b.y
    ensures InterpolatedX(a, b, y) == CrossingX(a, b, y)
  {
    var u, v, d := b.x - a.x, y - a.y, b.y - a.y;
    var t := v / d;
    assert t * d == v;
    assert (t * u) * d == (t * d) * u;
    CrossingInProportion(a, b, y, a.x + t * u);
  }

  /** A proportion 0 <= v <= d of u lies between zero and u. */
  lemma {:induction false} Between(q: real, u: real, v: real, d: real, n: real)
    requires d > 0.0 && 0.0 <= v <= d && n == u * v == q * d
    ensures Min(0.0, u) <= q <= Max(0.0, u)
  {
    assert u * d == n + u * (d - v);
    ProductOrdered(q, 0.0, d, n, 0.0);
    ProductOrdered(0.0, q, d, 0.0, n);
    ProductOrdered(q, u, d, n, u * d);
    ProductOrdered(u, q, d, u * d, n);
    if u >= 0.0 {
      NonNegativeProduct(u, v);
      NonNegativeProduct(u, d - v);
    } else {
      NonNegativeProduct(-u, v);
      NonNegativeProduct(-u, d - v);
      assert (-u) * v == -n && (-u) * (d - v) == -(u * (d - v));
    }
  }

  /** The ray meets a straddling edge between the abscissas of its two ends. */
  lemma {:induction false} CrossingBetweenEnds(a: Point, b: Point, y: real)
    requires Straddles(a, b, y)
    ensures Min(a.x, b.x) <= CrossingX(a, b, y) <= Max(a.x, b.x)
  {
    var x, u, v, d := CrossingX(a, b, y), b.x - a.x, y - a.y, b.y - a.y;
    CrossingInProportion(a, b, y, x);
    if d > 0.0 {
      Between(x - a.x, u, v, d, u * v);
    } else {
      assert (x - a.x) * (-d) == -((x - a.x) * d) && u * (-v) == -(u * v);
      Between(x - a.x, u, -v, -d, u * (-v));
    }
  }

  lemma {:induction false} CrossingSymmetric(a: Point, b: Point, y: real)
    requires a.y != b.y
    ensures CrossingX(a, b, y) == CrossingX(b, a, y)
  {
    var x, u, d := CrossingX(b, a, y), b.x - a.x, b.y - a.y;
    CrossingInProportion(b, a, y, x);
    assert (x - b.x) * (-d) == (-u) * (y - b.y);
    assert (x - a.x) * d == (x - b.x) * d + u * d;
    assert u * (y - a.y) == u * (y - b.y) + u * d;
    assert (x - b.x) * (-d) == -((x - b.x) * d) && (-u) * (y - b.y) == -(u * (y - b.y));
    CrossingInProportion(a, b, y, x);
  }

  /** An edge toggles the answer the same way in either direction. */
  lemma {:induction false} TogglesSymmetric(p: Point, a: Point, b: Point)
    ensures Toggles(p, a, b) == Toggles(p, b, a)
  {
    hide CrossingX;
    if Straddles(a, b, p.y) {
      CrossingSymmetric(a, b, p.y);
    }
  }

  // ------------------------------------------------------------------ paths

  /** A path splits at any vertex: every edge lies on exactly one side. */
  lemma {:induction false} CountSplit(edge: (Point, Point) -> bool, s: seq<Point>, m: Point, t: seq<Point>)
    ensures Count(edge, s + [m] + t) == Count(edge, s + [m]) + Count(edge, [m] + t)
    decreases |t|
  {
    if t == [] {
      assert s + [m] + t == s + [m];
    } else {
      var init := t[..|t| - 1];
      CountSplit(edge, s, m, init);
      var whole, right := s + [m] + t, [m] + t;
      assert whole[..|whole| - 1] == s + [m] + init;
      assert right[..|right| - 1] == [m] + init;
      assert whole[|whole| - 2] == right[|right| - 2];
    }
  }

  lemma {:induction false} CrossingsStep(p: Point, path: seq<Point>, i: nat)
    requires i + 1 < |path|
    ensures Crossings(p, path[..i + 2])
            == Crossings(p, path[..i + 1]) + if Toggles(p, path[i], path[i + 1]) then 1 else 0
  {
    assert path[..i + 2][..i + 1] == path[..i + 1];
  }

  // ------------------------------------------------------------------ implementations

  /** crates/genegis-geometry/src/predicate.rs: starts with the closing edge. */
  method PointInRing(p: Point, ring: Ring) returns (inside: bool)
    ensures inside == Contains(p, ring)
  {
    inside := false;
    if |ring| == 0 {
      return false;
    }
    var previous := ring[|ring| - 1];
    ghost var path := Circuit(ring);
    for i := 0 to |ring|
      invariant previous == path[i]
      invariant inside == Odd(Crossings(p, path[..i + 1]))
    {
      var current := ring[i];
      CrossingsStep(p, path, i);
      if (previous.y > p.y) != (current.y > p.y) {
        if p.x < CrossingX(previous, current, p.y) {
          inside := !inside;
        }
      }
      previous := current;
    }
    assert path[..|ring| + 1] == path;
  }

  function Reverse(s: seq<Point>): (r: seq<Point>)
    ensures |r| == |s|
    ensures forall i :: 0 <= i < |s| ==> r[i] == s[|s| - 1 - i]
  {
    if s == [] then [] else [s[|s| - 1]] + Reverse(s[..|s| - 1])
  }

  lemma {:induction false} CountReverse(edge: (Point, Point) -> bool, path: seq<Point>)
    requires forall a, b :: edge(a, b) == edge(b, a)
    ensures Count(edge, Reverse(path)) == Count(edge, path)
    decreases |path|
  {
    if |path| >= 2 {
      var init, a, b := path[..|path| - 1], path[|path| - 2], path[|path| - 1];
      CountReverse(edge, init);
      var tail := Reverse(init)[1..];
      assert Reverse(path) == [b] + [a] + tail;
      CountSplit(edge, [b], a, tail);
      assert [a] + tail == Reverse(init);
      assert ([b] + [a])[..1] == [b];
    }
  }

  /** Walking the closing edge last instead of first visits the same edges. */
  lemma {:induction false} ClosingEdgeFirstOrLast(edge: (Point, Point) -> bool, ring: Ring)
    requires ring != []
    ensures Count(edge, ring + [ring[0]]) == Count(edge, Circuit(ring))
  {
    var first, last := ring[0], ring[|ring| - 1];
    assert ring + [first] == ring[..|ring| - 1] + [last] + [first];
    CountSplit(edge, ring[..|ring| - 1], last, [first]);
    assert ring[..|ring| - 1] + [last] == ring;
    assert Circuit(ring) == [last] + [first] + ring[1..];
    CountSplit(edge, [last], first, ring[1..]);
    assert [first] + ring[1..] == ring;
  }

  /**
   * scripts/build-nagoya-shelters.py: indexes modulo the length, ends with the closing edge
   * and interpolates in a different order.  It reports the same answer as PointInRing.
   */
  method PointInRingIndexed(x: real, y: real, ring: Ring) returns (inside: bool)
    ensures inside == Contains(Point(x, y), ring)
  {
    hide CrossingX, InterpolatedX;
    inside := false;
    var n := |ring|;
    ghost var p := Point(x, y);
    ghost var path := if n == 0 then [] else ring + [ring[0]];
    for i := 0 to n
      invariant inside == (n > 0 && Odd(Crossings(p, path[..i + 1])))
    {
      NextIndex(i, n);
      var a := ring[i];
      var b := ring[(i + 1) % n];
      CrossingsStep(p, path, i);
      assert b == path[i + 1];
      if (a.y > y) != (b.y > y) {
        InterpolationOrder(a, b, y);
        if x < InterpolatedX(a, b, y) {
          inside := !inside;
        }
      }
    }
    if n > 0 {
      assert path[..n + 1] == path;
      ClosingEdgeFirstOrLast(EdgeTest(p), ring);
    }
  }

  lemma {:induction false} CircuitOfTwoArcs(edge: (Point, Point) -> bool, a: seq<Point>, b: seq<Point>)
    requires a != [] && b != []
    ensures Count(edge, Circuit(a + b))
            == Count(edge, [b[|b| - 1]] + a) + Count(edge, [a[|a| - 1]] + b)
  {
    var lastA, lastB := a[|a| - 1], b[|b| - 1];
    var before := [lastB] + a[..|a| - 1];
    assert before + [lastA] == [lastB] + a;
    assert (a + b)[|a + b| - 1] == lastB;
    assert [lastB] + (a + b) == ([lastB] + a) + b;
    assert Circuit(a + b) == before + [lastA] + b;
    CountSplit(edge, before, lastA, b);
  }

  // ------------------------------------------------------------------ what a ring is

  lemma {:induction false} ArcsSwapped(edge: (Point, Point) -> bool, a: seq<Point>, b: seq<Point>)
    ensures Count(edge, Circuit(b + a)) == Count(edge, Circuit(a + b))
  {
    hide Count, Circuit;
    if a == [] || b == [] {
      assert b + a == a + b;
    } else {
      CircuitOfTwoArcs(edge, a, b);
      CircuitOfTwoArcs(edge, b, a);
    }
  }

  /** The start vertex does not matter. */
  lemma {:induction false} RotationInvariant(p: Point, ring: Ring, k: nat)
    requires k <= |ring|
    ensures Contains(p, ring[k..] + ring[..k]) == Contains(p, ring)
  {
    hide EdgeTest, Odd, Count, Circuit;
    assert ring == ring[..k] + ring[k..];
    ArcsSwapped(EdgeTest(p), ring[..k], ring[k..]);
  }

  /** Repeating the first vertex at the end does not matter. */
  lemma {:induction false} ClosingVertexInvariant(p: Point, ring: Ring)
    requires ring != []
    ensures Contains(p, ring + [ring[0]]) == Contains(p, ring)
  {
    var edge := EdgeTest(p);
    var first := ring[0];
    var closed := ring + [first];
    assert Circuit(closed) == [first] + [first] + (ring[1..] + [first]);
    CountSplit(edge, [first], first, ring[1..] + [first]);
    assert [first] + (ring[1..] + [first]) == closed;
    assert ([first] + [first])[..1] == [first];
    ClosingEdgeFirstOrLast(edge, ring);
  }

  /** The winding direction does not matter. */
  lemma {:induction false} ReversalInvariant(p: Point, ring: Ring)
    ensures Contains(p, Reverse(ring)) == Contains(p, ring)
  {
    if ring != [] {
      var edge := EdgeTest(p);
      forall u, v ensures edge(u, v) == edge(v, u) {
        TogglesSymmetric(p, u, v);
      }
      var r := Reverse(ring);
      CountReverse(edge, Circuit(ring));
      assert Reverse(Circuit(ring)) == r + [r[0]];
      ClosingEdgeFirstOrLast(edge, r);
    }
  }

  // ------------------------------------------------------------------ the bounding box

  predicate Covers(b: Bounds, p: Point) {
    b.min.x <= p.x <= b.max.x && b.min.y <= p.y <= b.max.y
  }

  ghost predicate Bounding(b: Bounds, ring: Ring) {
    forall v <- ring :: Covers(b, v)
  }

  function Grow(box: Option<Bounds>, v: Point): Option<Bounds> {
    match box
    case None => Some(Bounds(v, v))
    case Some(b) =>
      Some(Bounds(Point(Min(b.min.x, v.x), Min(b.min.y, v.y)), Point(Max(b.max.x, v.x), Max(b.max.y, v.y))))
  }

  /** The smallest box around the vertices; it exists exactly when there is a vertex. */
  function Box(vs: seq<Point>): (box: Option<Bounds>)
    ensures box.None? <==> vs == []
  {
    if vs == [] then None
    else
      Grow(Box(vs[..|vs| - 1]), vs[|vs| - 1])
  }

  lemma {:induction false} BoxOfNothing()
    ensures Box([]) == None
  {}

  lemma {:induction false} BoxOfOneMore(vs: seq<Point>, v: Point)
    ensures Box(vs + [v]) == Grow(Box(vs), v)
  {
    assert (vs + [v])[..|vs|] == vs;
  }

  lemma {:induction false} GrownBox(box: Option<Bounds>, v: Point)
    ensures Grow(box, v).Some? && Covers(Grow(box, v).value, v)
    ensures box.None? ==> Grow(box, v).value == Bounds(v, v)
    ensures box.Some? ==>
      var b, g := box.value, Grow(box, v).value;
      && g.min == Point(if v.x < b.min.x then v.x else b.min.x, if v.y < b.min.y then v.y else b.min.y)
      && g.max == Point(if b.max.x < v.x then v.x else b.max.x, if b.max.y < v.y then v.y else b.max.y)
  {}

  lemma {:induction false} GrownCovers(b: Bounds, v: Point, u: Point)
    requires Covers(b, u)
    ensures Covers(Grow(Some(b), v).value, u)
  {}

  /** The box holds every vertex and each of its sides passes through one. */
  lemma {:induction false} BoxIsTight(vs: seq<Point>) returns (left: Point, low: Point, right: Point, high: Point)
    requires vs != []
    ensures Bounding(Box(vs).value, vs)
    ensures left in vs && low in vs && right in vs && high in vs
    ensures Box(vs).value == Bounds(Point(left.x, low.y), Point(right.x, high.y))
  {
    hide Covers, Grow;
    var init, v := vs[..|vs| - 1], vs[|vs| - 1];
    assert vs == init + [v];
    GrownBox(Box(init), v);
    left, low, right, high := v, v, v, v;
    if init != [] {
      var l, w, r, h := BoxIsTight(init);
      left := if v.x < l.x then v else l;
      low := if v.y < w.y then v else w;
      right := if r.x < v.x then v else r;
      high := if h.y < v.y then v else h;
      forall u | u in vs ensures Covers(Box(vs).value, u) {
        if u in init { GrownCovers(Box(init).value, v, u); }
      }
    }
  }

  /** A path that lies strictly right of the point toggles once per straddling edge. */
  lemma {:induction false} ParityLeftOfPath(p: Point, path: seq<Point>)
    requires path != []
    requires forall v <- path :: p.x < v.x
    ensures Odd(Crossings(p, path)) == ((path[0].y > p.y) != (path[|path| - 1].y > p.y))
    decreases |path|
  {
    if |path| >= 2 {
      var a, b := path[|path| - 2], path[|path| - 1];
      ParityLeftOfPath(p, path[..|path| - 1]);
      if Straddles(a, b, p.y) {
        CrossingBetweenEnds(a, b, p.y);
      }
    }
  }

  lemma {:induction false} NoCrossings(p: Point, b: Bounds, path: seq<Point>)
    requires forall v <- path :: Covers(b, v)
    requires p.x > b.max.x || p.y < b.min.y || p.y > b.max.y
    ensures Crossings(p, path) == 0
    decreases |path|
  {
    if |path| >= 2 {
      var u, v := path[|path| - 2], path[|path| - 1];
      assert Covers(b, u) && Covers(b, v);
      NoCrossings(p, b, path[..|path| - 1]);
      if Straddles(u, v, p.y) {
        CrossingBetweenEnds(u, v, p.y);
      }
    }
  }

  /**
   * The ray cast never answers inside for a point outside the ring's bounding box.  Above,
   * below and to the right no edge toggles; to the left every straddling edge toggles, and a
   * closed path straddles a horizontal line an even number of times.
   */
  lemma {:induction false} OutsideBoundsNotContained(p: Point, ring: Ring, b: Bounds)
    requires Bounding(b, ring)
    requires !Covers(b, p)
    ensures !Contains(p, ring)
  {
    if ring != [] {
      var path := Circuit(ring);
      assert forall v <- path :: Covers(b, v);
      if p.x < b.min.x {
        ParityLeftOfPath(p, path);
      } else {
        NoCrossings(p, b, path);
      }
    }
  }

  lemma {:induction false} QuadrangleByToggles(p: Point, a: Point, b: Point, c: Point, d: Point)
    ensures Contains(p, [a, b, c, d])
            == ((Toggles(p, d, a) != Toggles(p, a, b)) != (Toggles(p, b, c) != Toggles(p, c, d)))
  {
    hide Toggles;
    var path := [d, a, b, c, d];
    assert Circuit([a, b, c, d]) == path && path[..1] == [d] && path[..5] == path;
    CrossingsStep(p, path, 0);
    CrossingsStep(p, path, 1);
    CrossingsStep(p, path, 2);
    CrossingsStep(p, path, 3);
  }

  /**
   * Which boundary points count: for an axis-aligned rectangle the predicate is exactly the
   * half-open product, so rectangles that share an edge never share a point.
   */
  lemma {:induction false} RectangleIsHalfOpen(p: Point, b: Bounds)
    requires b.min.x < b.max.x && b.min.y < b.max.y
    ensures Contains(p, [b.min, Point(b.max.x, b.min.y), b.max, Point(b.min.x, b.max.y)])
            == (b.min.x <= p.x < b.max.x && b.min.y <= p.y < b.max.y)
  {
    hide Contains, CrossingX;
    var v0, v1, v2, v3 := b.min, Point(b.max.x, b.min.y), b.max, Point(b.min.x, b.max.y);
    QuadrangleByToggles(p, v0, v1, v2, v3);
    if Straddles(v3, v0, p.y) {
      CrossingBetweenEnds(v3, v0, p.y);
      CrossingBetweenEnds(v1, v2, p.y);
    }
  }

  // ------------------------------------------------------------------ sides instead of crossings

  /** Positive when `p` lies to the left of the line from `a` to `b`, negative to its right. */
  function Side(a: Point, b: Point, p: Point): real {
    (b.x - a.x) * (p.y - a.y) - (b.y - a.y) * (p.x - a.x)
  }

  /** A rising edge with the point strictly to its left, or a falling edge with it strictly to its right. */
  predicate Passes(p: Point, a: Point, b: Point) {
    (a.y <= p.y < b.y && Side(a, b, p) > 0.0) || (b.y <= p.y < a.y && Side(a, b, p) < 0.0)
  }

  lemma {:induction false} LeftOfCrossing(q: real, r: real, d: real, n: real, m: real)
    requires d != 0.0 && q * d == n && r * d == m
    ensures d > 0.0 ==> (r < q <==> n - m > 0.0)
    ensures d < 0.0 ==> (r < q <==> n - m < 0.0)
  {
    if d > 0.0 {
      ProductOrdered(r, q, d, m, n);
    } else {
      assert q * (-d) == -n && r * (-d) == -m;
      ProductOrdered(r, q, -d, -m, -n);
    }
  }

  lemma {:induction false} TogglesBySide(p: Point, a: Point, b: Point)
    ensures Toggles(p, a, b) == Passes(p, a, b)
  {
    if Straddles(a, b, p.y) {
      var x, d := CrossingX(a, b, p.y), b.y - a.y;
      CrossingInProportion(a, b, p.y, x);
      LeftOfCrossing(x - a.x, p.x - a.x, d, (b.x - a.x) * (p.y - a.y), (p.x - a.x) * d);
    }
  }

  predicate EdgeAt(edge: (Point, Point) -> bool, path: seq<Point>, i: nat)
    requires i + 1 < |path|
  {
    edge(path[i], path[i + 1])
  }

  lemma {:induction false} CountIsCardinality(edge: (Point, Point) -> bool, path: seq<Point>, n: nat)
    requires |path| == n + 1
    ensures Count(edge, path) == |set i | 0 <= i < n && EdgeAt(edge, path, i)|
  {
    var all := set i | 0 <= i < n && EdgeAt(edge, path, i);
    if n > 0 {
      var init := path[..n];
      CountIsCardinality(edge, init, n - 1);
      var before := set i | 0 <= i < n - 1 && EdgeAt(edge, init, i);
      forall i | 0 <= i < n - 1
        ensures EdgeAt(edge, init, i) == EdgeAt(edge, path, i)
      {}
      assert all == before + if EdgeAt(edge, path, n - 1) then {n - 1} else {};
    }
  }

  /** Edge `i` of the ring runs to the next vertex, the last one back to the first. */
  predicate PassesAt(p: Point, ring: Ring, i: nat)
    requires i < |ring|
  {
    Passes(p, ring[i], ring[(i + 1) % |ring|])
  }

  /** Containment without a division: the parity of the edges that pass the point on its right. */
  lemma {:induction false} ContainsByParity(p: Point, ring: Ring)
    ensures Contains(p, ring) == Odd(|set i | 0 <= i < |ring| && PassesAt(p, ring, i)|)
  {
    hide Toggles, Passes;
    var n := |ring|;
    if n > 0 {
      var path := ring + [ring[0]];
      ClosingEdgeFirstOrLast(EdgeTest(p), ring);
      CountIsCardinality(EdgeTest(p), path, n);
      forall i | 0 <= i < n
        ensures EdgeAt(EdgeTest(p), path, i) == PassesAt(p, ring, i)
      {
        NextIndex(i, n);
        TogglesBySide(p, ring[i], ring[(i + 1) % n]);
      }
      assert (set i | 0 <= i < n && EdgeAt(EdgeTest(p), path, i)) == (set i | 0 <= i < n && PassesAt(p, ring, i));
    }
  }

  /** The three sides add up to the triangle, and balance when weighted with the opposite heights. */
  lemma {:induction false} SidesBalance(p: Point, a: Point, b: Point, c: Point)
    ensures Side(a, b, p) + Side(b, c, p) + Side(c, a, p) == Side(a, b, c)
    ensures Side(b, c, p) * (a.y - p.y) + Side(c, a, p) * (b.y - p.y) + Side(a, b, p) * (c.y - p.y) == 0.0
  {
    var u, v, w := Point(a.x - p.x, a.y - p.y), Point(b.x - p.x, b.y - p.y), Point(c.x - p.x, c.y - p.y);
    assert Side(a, b, p) == u.x * v.y - v.x * u.y;
    assert Side(b, c, p) == v.x * w.y - w.x * v.y;
    assert Side(c, a, p) == w.x * u.y - u.x * w.y;
  }

  lemma {:induction false} SideRotates(a: Point, b: Point, c: Point)
    ensures Side(b, c, a) == Side(a, b, c)
  {}

  /** The signs of three numbers that balance, when one weight differs in sign from the other two. */
  lemma {:induction false} LoneWeight(s: real, t: real, r: real, h: real, k: real, g: real)
    requires t * h + r * k + s * g == 0.0 && s + t + r > 0.0
    requires (h > 0.0) == (g > 0.0) != (k > 0.0)
    ensures k > 0.0 ==> (s > 0.0) != (t < 0.0) ==> s >= 0.0 && t >= 0.0 && r >= 0.0
    ensures k <= 0.0 ==> (s < 0.0) != (t > 0.0) ==> s >= 0.0 && t >= 0.0 && r >= 0.0
  {
    var x, y, z := t * h, r * k, s * g;
    if k > 0.0 {
      PositiveFactor(r, k);
      PositiveFactor(-r, k);
      if s > 0.0 && t >= 0.0 {
        NonNegativeProduct(t, -h);
        NonNegativeProduct(s, -g);
      } else if s <= 0.0 && t < 0.0 {
        NonNegativeProduct(-t, -h);
        NonNegativeProduct(-s, -g);
      }
    } else {
      assert (-r) * k == -y && r * (-k) == -y;
      if s >= 0.0 && t > 0.0 {
        PositiveFactor(t, h);
        NonNegativeProduct(s, g);
        if r < 0.0 { NonNegativeProduct(-r, -k); }
      } else if s < 0.0 && t <= 0.0 {
        PositiveFactor(-s, g);
        NonNegativeProduct(-t, h);
        if r >= 0.0 { NonNegativeProduct(r, -k); }
      }
    }
  }

  /** A triangle of which one corner is on the other side of the point's horizontal line. */
  lemma {:induction false} LoneCorner(p: Point, a: Point, b: Point, c: Point)
    requires Side(a, b, c) > 0.0
    requires (a.y > p.y) == (c.y > p.y) != (b.y > p.y)
    ensures Side(a, b, p) > 0.0 && Side(b, c, p) > 0.0 && Side(c, a, p) > 0.0
            ==> Toggles(p, a, b) != Toggles(p, b, c)
    ensures Toggles(p, a, b) != Toggles(p, b, c)
            ==> Side(a, b, p) >= 0.0 && Side(b, c, p) >= 0.0 && Side(c, a, p) >= 0.0
    ensures !Toggles(p, c, a)
  {
    SidesBalance(p, a, b, c);
    TogglesBySide(p, a, b);
    TogglesBySide(p, b, c);
    var s, t, r := Side(a, b, p), Side(b, c, p), Side(c, a, p);
    hide Side, CrossingX;
    LoneWeight(s, t, r, a.y - p.y, b.y - p.y, c.y - p.y);
  }

  lemma {:induction false} SignOfProduct(h: real, t: real, x: real)
    requires t > 0.0 && x == t * h
    ensures (h > 0.0 <==> x > 0.0) && (h < 0.0 <==> x < 0.0)
  {
    PositiveFactor(h, t);
    PositiveFactor(-h, t);
    assert (-h) * t == -x;
  }

  /** Positive numbers balance only over weights of both signs, or none. */
  lemma {:induction false} BalancedWeights(s: real, t: real, r: real, h: real, k: real, g: real)
    requires s > 0.0 && t > 0.0 && r > 0.0 && t * h + r * k + s * g == 0.0
    ensures !(h > 0.0 && k > 0.0 && g > 0.0)
    ensures h <= 0.0 && k <= 0.0 && g <= 0.0 ==> h == k == g == 0.0
  {
    SignOfProduct(h, t, t * h);
    SignOfProduct(k, r, r * k);
    SignOfProduct(g, s, s * g);
  }

  lemma LevelSide(a: Point, b: Point, p: Point)
    requires a.y == b.y == p.y
    ensures Side(a, b, p) == 0.0
  {}

  /** A point strictly left of all three edges is not level with, above or below all corners. */
  lemma {:induction false} StrictlyInsideStraddles(p: Point, a: Point, b: Point, c: Point)
    requires Side(a, b, p) > 0.0 && Side(b, c, p) > 0.0 && Side(c, a, p) > 0.0
    ensures !((a.y > p.y) == (b.y > p.y) == (c.y > p.y))
  {
    hide Side;
    SidesBalance(p, a, b, c);
    BalancedWeights(Side(a, b, p), Side(b, c, p), Side(c, a, p), a.y - p.y, b.y - p.y, c.y - p.y);
    if a.y == p.y && b.y == p.y {
      LevelSide(a, b, p);
    }
  }

  lemma {:induction false} TriangleByToggles(p: Point, a: Point, b: Point, c: Point)
    ensures Contains(p, [a, b, c]) == (Toggles(p, c, a) != (Toggles(p, a, b) != Toggles(p, b, c)))
  {
    hide Toggles;
    var path := [c, a, b, c];
    assert Circuit([a, b, c]) == path && path[..1] == [c] && path[..4] == path;
    CrossingsStep(p, path, 0);
    CrossingsStep(p, path, 1);
    CrossingsStep(p, path, 2);
  }

  /**
   * What containment means for slanted edges: a counter-clockwise triangle contains every point
   * strictly left of all three edges, and none strictly right of any.
   */
  lemma {:induction false} TriangleContains(p: Point, a: Point, b: Point, c: Point)
    requires Side(a, b, c) > 0.0
    ensures Side(a, b, p) > 0.0 && Side(b, c, p) > 0.0 && Side(c, a, p) > 0.0 ==> Contains(p, [a, b, c])
    ensures Side(a, b, p) < 0.0 || Side(b, c, p) < 0.0 || Side(c, a, p) < 0.0 ==> !Contains(p, [a, b, c])
  {
    hide Side, Contains, CrossingX;
    TriangleByToggles(p, a, b, c);
    SideRotates(a, b, c);
    SideRotates(b, c, a);
    if Side(a, b, p) > 0.0 && Side(b, c, p) > 0.0 && Side(c, a, p) > 0.0 {
      StrictlyInsideStraddles(p, a, b, c);
    }
    var above, beyond, over := a.y > p.y, b.y > p.y, c.y > p.y;
    if above == over != beyond {
      LoneCorner(p, a, b, c);
    } else if beyond == above != over {
      LoneCorner(p, b, c, a);
    } else if over == beyond != above {
      LoneCorner(p, c, a, b);
    }
  }

  lemma {:induction false} EmptyRingContainsNothing(p: Point)
    ensures !Contains(p, [])
  {}

  /** No edge of a path straddles the line through a point that no vertex rises above. */
  lemma {:induction false} NothingAbove(p: Point, path: seq<Point>)
    requires forall v <- path :: v.y <= p.y
    ensures Crossings(p, path) == 0
  {
    if |path| >= 2 {
      NothingAbove(p, path[..|path| - 1]);
    }
  }

  /** A ring never contains its topmost vertex. */
  lemma {:induction false} TopmostVertexOutside(ring: Ring) returns (top: Point)
    requires ring != []
    ensures top in ring && (forall v <- ring :: v.y <= top.y) && !Contains(top, ring)
  {
    var left, low, right, high := BoxIsTight(ring);
    top := high;
    NothingAbove(top, Circuit(ring));
  }

  /** The ray cast is boundary inclusive for no ring: only the empty one holds all of its vertices. */
  lemma {:induction false} HoldsItsVerticesIffEmpty(ring: Ring)
    ensures (forall v <- ring :: Contains(v, ring)) <==> ring == []
  {
    hide Contains;
    if ring != [] {
      var top := TopmostVertexOutside(ring);
    }
  }

  // ------------------------------------------------------------------ polygon parts

  /** One polygon part: crates/genegis-geometry/src/polygon.rs. */
  datatype PolygonRing = PolygonRing(coords: Ring, holes: seq<Ring>)

  predicate PartContains(p: Point, part: PolygonRing) {
    Contains(p, part.coords) && forall hole <- part.holes :: !Contains(p, hole)
  }

  predicate PartsContain(p: Point, parts: seq<PolygonRing>) {
    exists part <- parts :: PartContains(p, part)
  }

  method InAnyRing(p: Point, rings: seq<Ring>) returns (found: bool)
    ensures found == exists ring <- rings :: Contains(p, ring)
  {
    for i := 0 to |rings|
      invariant forall k :: 0 <= k < i ==> !Contains(p, rings[k])
    {
      var inside := PointInRing(p, rings[i]);
      if inside {
        return true;
      }
    }
    return false;
  }

  method PointInPolygonParts(p: Point, parts: seq<PolygonRing>) returns (inside: bool)
    ensures inside == PartsContain(p, parts)
    ensures inside <==> exists k :: 0 <= k < |parts| && Contains(p, parts[k].coords)
                                    && forall hole <- parts[k].holes :: !Contains(p, hole)
  {
    hide Contains;
    for i := 0 to |parts|
      invariant forall k :: 0 <= k < i ==> !PartContains(p, parts[k])
    {
      var inExterior := PointInRing(p, parts[i].coords);
      if inExterior {
        var inHole := InAnyRing(p, parts[i].holes);
        if !inHole {
          assert PartContains(p, parts[i]);
          return true;
        }
      }
    }
    return false;
  }
}
