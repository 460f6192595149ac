/**
 * Ring arithmetic of the ward builder: `_signed_ring_area` and `_polygon_parts` of
 * scripts/build-nagoya-wards.py (rings as in section 3.1.6 of RFC 7946).
 */
module WardRings {
  import opened Common
  import opened RayCast

  function Cross(a: Point, b: Point): real {
    a.x * b.y - b.x * a.y
  }

  /** Sum of the cross products along an open path. */
  function PathArea(path: seq<Point>): real {
    if |path| < 2 then 0.0
    else PathArea(path[..|path| - 1]) + Cross(path[|path| - 2], path[|path| - 1])
  }

  /** Shoelace area, positive for a counter-clockwise ring. */
  function SignedArea(ring: Ring): real {
    if ring == [] then 0.0 else PathArea(ring + [ring[0]]) * 0.5
  }

  method SignedRingArea(ring: Ring) returns (area: real)
    ensures area == SignedArea(ring)
  {
    hide Cross;
    var sum := 0.0;
    ghost var path := if ring == [] then [] else ring + [ring[0]];
    for i := 0 to |ring|
      invariant |ring| > 0 ==> sum == PathArea(path[..i + 1])
      invariant |ring| == 0 ==> sum == 0.0
    {
      assert path[..i + 2][..i + 1] == path[..i + 1];
      NextIndex(i, |ring|);
      sum := sum + Cross(ring[i], ring[(i + 1) % |ring|]);
    }
    if |ring| > 0 {
      assert path[..|ring| + 1] == path;
    }
    area := sum * 0.5;
  }

  lemma {:induction false} PathAreaSplit(s: seq<Point>, m: Point, t: seq<Point>)
    ensures PathArea(s + [m] + t) == PathArea(s + [m]) + PathArea([m] + t)
    decreases |t|
  {
    hide Cross;
    if t == [] {
      assert s + [m] + t == s + [m];
    } else {
      var init := t[..|t| - 1];
      PathAreaSplit(s, m, init);
      var whole, right := s + [m] + t, [m] + t;
      assert whole[..|whole| - 1] == s + [m] + init;
      assert right[..|right| - 1] == [m] + init;
      assert whole[|whole| - 2] == right[|right| - 2];
    }
  }

  lemma ArcsArea(a: seq<Point>, b: seq<Point>)
    requires a != [] && b != []
    ensures PathArea((a + b) + [(a + b)[0]]) == PathArea(a + [b[0]]) + PathArea(b + [a[0]])
  {
    hide Cross, PathArea;
    PathAreaSplit(a, b[0], b[1..] + [a[0]]);
    assert a + [b[0]] + (b[1..] + [a[0]]) == (a + b) + [(a + b)[0]];
    assert [b[0]] + (b[1..] + [a[0]]) == b + [a[0]];
  }

  lemma {:induction false} PathAreaStep(path: seq<Point>, a: Point, b: Point)
    ensures PathArea(path + [a] + [b]) == PathArea(path + [a]) + Cross(a, b)
  {
    assert (path + [a] + [b])[..|path| + 1] == path + [a];
  }

  lemma {:induction false} ThereAndBack(a: Point, b: Point)
    ensures PathArea([a] + [b]) + PathArea([b] + [a]) == 0.0
  {
    assert ([a] + [b])[..1] == [a] && ([b] + [a])[..1] == [b];
    assert PathArea([a]) == 0.0 && PathArea([b]) == 0.0;
  }

  /** Twice the area of a triangle, positive when its third corner lies to the left of the first side. */
  lemma {:induction false} TriangleArea(a: Point, b: Point, c: Point)
    ensures 2.0 * SignedArea([a, b, c]) == (b.x - a.x) * (c.y - a.y) - (b.y - a.y) * (c.x - a.x)
  {
    PathAreaStep([], a, b);
    PathAreaStep([a], b, c);
    PathAreaStep([a, b], c, a);
    assert PathArea([a]) == 0.0 && [] + [a] == [a];
    assert [a] + [b] == [a, b] && [a, b] + [c] == [a, b, c] && [a, b, c] + [a] == [a, b, c, a];
  }

  /** Cutting a ring from its first vertex to another one divides its area. */
  lemma {:induction false} AreaOfPieces(ring: Ring, k: nat)
    requires 0 < k < |ring|
    ensures SignedArea(ring) == SignedArea(ring[..k + 1]) + SignedArea([ring[0]] + ring[k..])
  {
    hide PathArea, Cross;
    var first, cut := ring[0], ring[k];
    var near, far := ring[..k], ring[k + 1..] + [first];
    assert ring + [first] == near + [cut] + far && ring[..k + 1] == near + [cut];
    PathAreaSplit(near, cut, far);
    PathAreaSplit(near, cut, [first]);
    assert ([first] + ring[k..]) + [first] == [first] + [cut] + far;
    PathAreaSplit([first], cut, far);
    ThereAndBack(first, cut);
    assert near + [cut] + [first] == ring[..k + 1] + [first];
  }

  /** The start vertex does not matter. */
  lemma AreaRotation(ring: Ring, k: nat)
    requires k <= |ring|
    ensures SignedArea(ring[k..] + ring[..k]) == SignedArea(ring)
  {
    hide Cross, PathArea;
    var a, b := ring[..k], ring[k..];
    assert ring == a + b;
    if a == [] || b == [] {
      assert b + a == ring;
    } else {
      ArcsArea(a, b);
      ArcsArea(b, a);
    }
  }

  /** Repeating the first vertex at the end does not matter. */
  lemma AreaClosingVertex(ring: Ring)
    requires ring != []
    ensures SignedArea(ring + [ring[0]]) == SignedArea(ring)
  {
    var closed := ring + [ring[0]];
    assert (closed + [closed[0]])[..|closed|] == closed;
  }

  lemma CrossAntisymmetric(a: Point, b: Point)
    ensures Cross(b, a) == -Cross(a, b)
  {}

  lemma {:induction false} PathAreaReverse(path: seq<Point>)
    ensures PathArea(Reverse(path)) == -PathArea(path)
    decreases |path|
  {
    hide Cross;
    if |path| >= 2 {
      var init, a, b := path[..|path| - 1], path[|path| - 2], path[|path| - 1];
      PathAreaReverse(init);
      var tail := Reverse(init)[1..];
      assert Reverse(path) == [b] + [a] + tail;
      PathAreaSplit([b], a, tail);
      assert [a] + tail == Reverse(init);
      assert ([b] + [a])[..1] == [b];
      CrossAntisymmetric(a, b);
    }
  }

  /** Walking the ring the other way negates its area, so the absolute area is unchanged. */
  lemma AreaReversal(ring: Ring)
    ensures SignedArea(Reverse(ring)) == -SignedArea(ring)
  {
    hide PathArea, Cross;
    if ring != [] {
      PathAreaReverse(ring + [ring[0]]);
      var r := Reverse(ring);
      assert Reverse(ring + [ring[0]]) == [ring[0]] + r;
      var last := r[..|r| - 1];
      assert r == last + [ring[0]];
      if last == [] {
        assert [ring[0]] + r == r + [r[0]];
      } else {
        ArcsArea([ring[0]], last);
        ArcsArea(last, [ring[0]]);
        assert [ring[0]] + r == ([ring[0]] + last) + [([ring[0]] + last)[0]];
        assert r + [r[0]] == (last + [ring[0]]) + [(last + [ring[0]])[0]];
      }
    }
  }

  function Moved(path: seq<Point>, dx: real, dy: real): (r: seq<Point>)
    ensures |r| == |path|
    ensures forall i :: 0 <= i < |path| ==> r[i] == Point(path[i].x + dx, path[i].y + dy)
  {
    seq(|path|, i requires 0 <= i < |path| => Point(path[i].x + dx, path[i].y + dy))
  }

  /** What a move adds to the sum along a path from `a` to `b`. */
  function Drift(a: Point, b: Point, dx: real, dy: real): real {
    dx * (b.y - a.y) - dy * (b.x - a.x)
  }

  lemma DriftAdds(a: Point, b: Point, c: Point, dx: real, dy: real)
    ensures Drift(a, c, dx, dy) == Drift(a, b, dx, dy) + Drift(b, c, dx, dy)
    ensures Drift(a, a, dx, dy) == 0.0
  {}

  lemma CrossMoved(a: Point, b: Point, dx: real, dy: real)
    ensures Cross(Point(a.x + dx, a.y + dy), Point(b.x + dx, b.y + dy)) == Cross(a, b) + Drift(a, b, dx, dy)
  {}

  lemma {:induction false} PathAreaMoved(path: seq<Point>, dx: real, dy: real)
    requires path != []
    ensures PathArea(Moved(path, dx, dy)) == PathArea(path) + Drift(path[0], path[|path| - 1], dx, dy)
    decreases |path|
  {
    hide Cross, Drift;
    var b := path[|path| - 1];
    DriftAdds(b, b, b, dx, dy);
    if |path| >= 2 {
      var init, a := path[..|path| - 1], path[|path| - 2];
      PathAreaMoved(init, dx, dy);
      assert Moved(path, dx, dy)[..|init|] == Moved(init, dx, dy);
      CrossMoved(a, b, dx, dy);
      DriftAdds(path[0], a, b, dx, dy);
    }
  }

  /** Moving the ring does not change its area. */
  lemma AreaTranslation(ring: Ring, dx: real, dy: real)
    ensures SignedArea(Moved(ring, dx, dy)) == SignedArea(ring)
  {
    hide PathArea, Cross, Drift;
    if ring != [] {
      var path := ring + [ring[0]];
      PathAreaMoved(path, dx, dy);
      DriftAdds(ring[0], ring[0], ring[0], dx, dy);
      assert Moved(ring, dx, dy) + [Moved(ring, dx, dy)[0]] == Moved(path, dx, dy);
    }
  }

  // ------------------------------------------------------------------ splitting multi-part shells

  type Shell = seq<Ring>

  /** Every further ring starts inside the first one. */
  predicate HolesContained(shell: Shell)
    requires shell != []
  {
    forall k :: 1 <= k < |shell| ==> shell[k] != [] && Contains(shell[k][0], shell[0])
  }

  function Singletons(rings: seq<Ring>): seq<Shell> {
    if rings == [] then [] else Singletons(rings[..|rings| - 1]) + [[rings[|rings| - 1]]]
  }

  function PartsOfShell(shell: Shell): seq<Shell>
    requires shell != []
  {
    if |shell| > 1 && !HolesContained(shell) then Singletons(shell) else [shell]
  }

  lemma {:induction false} SingletonAt(rings: seq<Ring>, k: nat)
    requires k < |rings|
    ensures |Singletons(rings)| == |rings| && Singletons(rings)[k] == [rings[k]]
  {
    if |rings| > 1 {
      SingletonAt(rings[..|rings| - 1], if k < |rings| - 1 then k else 0);
    } else {
      assert Singletons(rings[..0]) == [];
    }
  }

  /** A shell is taken apart exactly when one of its further rings starts outside the first. */
  lemma {:induction false} TakenApartIff(shell: Shell)
    requires shell != [] && forall k :: 0 <= k < |shell| ==> shell[k] != []
    ensures (forall k :: 1 <= k < |shell| ==> Contains(shell[k][0], shell[0])) ==> PartsOfShell(shell) == [shell]
    ensures (exists k :: 1 <= k < |shell| && !Contains(shell[k][0], shell[0])) ==>
      |PartsOfShell(shell)| == |shell| && forall k :: 0 <= k < |shell| ==> PartsOfShell(shell)[k] == [shell[k]]
  {
    hide Contains, Singletons;
    forall k | 0 <= k < |shell| ensures |Singletons(shell)| == |shell| && Singletons(shell)[k] == [shell[k]] {
      SingletonAt(shell, k);
    }
  }

  function Parts(shells: seq<Shell>): seq<Shell>
    requires forall k :: 0 <= k < |shells| ==> shells[k] != []
  {
    if shells == [] then [] else Parts(shells[..|shells| - 1]) + PartsOfShell(shells[|shells| - 1])
  }

  /** All rings in order, whatever part they belong to. */
  function Rings(shells: seq<Shell>): seq<Ring> {
    if shells == [] then [] else Rings(shells[..|shells| - 1]) + shells[|shells| - 1]
  }

  lemma {:induction false} SingletonRings(rings: seq<Ring>)
    ensures Rings(Singletons(rings)) == rings
    decreases |rings|
  {
    if rings != [] {
      SingletonRings(rings[..|rings| - 1]);
      var s := Singletons(rings);
      assert s[..|s| - 1] == Singletons(rings[..|rings| - 1]);
    }
  }

  lemma {:induction false} RingsSplit(a: seq<Shell>, b: seq<Shell>)
    ensures Rings(a + b) == Rings(a) + Rings(b)
    decreases |b|
  {
    if b == [] {
      assert a + b == a;
    } else {
      var init, last := b[..|b| - 1], b[|b| - 1];
      RingsSplit(a, init);
      assert (a + b)[..|a + b| - 1] == a + init && (a + b)[|a + b| - 1] == last;
      AppendAssociates(Rings(a), Rings(init), last);
    }
  }

  /** Splitting keeps every ring, in order: no coordinate and no area is lost. */
  lemma {:induction false} SplittingIsLossless(shells: seq<Shell>)
    requires forall k :: 0 <= k < |shells| ==> shells[k] != []
    ensures Rings(Parts(shells)) == Rings(shells)
    decreases |shells|
  {
    hide HolesContained;
    if shells != [] {
      var init, last := shells[..|shells| - 1], shells[|shells| - 1];
      SplittingIsLossless(init);
      RingsSplit(Parts(init), PartsOfShell(last));
      SingletonRings(last);
      assert [last][..0] == [];
      assert Rings([last]) == [] + last;
    }
  }

  /** Every ring of the part after the first starts inside the first. */
  predicate Nested(part: Shell) {
    part != [] && forall k :: 1 <= k < |part| ==> part[k] != [] && Contains(part[k][0], part[0])
  }

  /** Every part is nested, and a shell that already is stays whole. */
  lemma {:induction false} PartsNested(shells: seq<Shell>)
    requires forall k :: 0 <= k < |shells| ==> shells[k] != []
    requires forall k, j :: 0 <= k < |shells| && 0 <= j < |shells[k]| ==> shells[k][j] != []
    ensures forall part <- Parts(shells) :: Nested(part)
    ensures forall shell <- shells :: Nested(shell) ==> shell in Parts(shells)
    decreases |shells|
  {
    hide Contains, Singletons;
    if shells != [] {
      var init, last := shells[..|shells| - 1], shells[|shells| - 1];
      assert shells == init + [last];
      PartsNested(init);
      TakenApartIff(last);
    }
  }

  /** Whether the further rings of a shell all start inside its first one. */
  method HolesAreContained(shell: Shell) returns (contained: bool)
    requires shell != [] && forall j :: 0 <= j < |shell| ==> shell[j] != []
    ensures contained == HolesContained(shell)
  {
    hide Contains;
    contained := true;
    for j := 1 to |shell|
      invariant contained == forall i :: 1 <= i < j ==> shell[i] != [] && Contains(shell[i][0], shell[0])
    {
      var first: Point := shell[j][0];
      var inside := PointInRingIndexed(first.x, first.y, shell[0]);
      contained := contained && inside;
    }
  }

  method PolygonParts(shells: seq<Shell>) returns (parts: seq<Shell>)
    requires forall k :: 0 <= k < |shells| ==> shells[k] != []
    requires forall k, j :: 0 <= k < |shells| && 0 <= j < |shells[k]| ==> shells[k][j] != []
    ensures parts == Parts(shells) && Rings(parts) == Rings(shells)
    ensures forall part <- parts :: Nested(part)
    ensures forall shell <- shells :: Nested(shell) ==> shell in parts
  {
    hide HolesContained, Nested, Rings;
    parts := [];
    for k := 0 to |shells|
      invariant parts == Parts(shells[..k])
    {
      assert shells[..k + 1][..k] == shells[..k];
      var shell := shells[k];
      var contained := HolesAreContained(shell);
      if |shell| > 1 && !contained {
        parts := parts + Singletons(shell);
      } else {
        parts := parts + [shell];
      }
    }
    assert shells[..|shells|] == shells;
    SplittingIsLossless(shells);
    PartsNested(shells);
  }
}
