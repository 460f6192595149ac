/**
 * Flood-penalised evacuation routing: crates/genegis-analysis/src/evacuation.rs.
 *
 * Ward origins are routed to the nearest shelter on the clean graph and on a copy whose edges
 * are slowed by `1 + depth * penalty`.  `FloodFactor` is the stateful closure that scales the
 * copy: it memoises one depth per canonical node pair and accumulates the flooded length.
 */
module Evacuation {
  import opened Common
  import opened RayCast
  import opened FloodZones
  import opened WalkNetwork

  // ------------------------------------------------------------------ the factor of an edge

  /** As far from one end as from the other on each axis. */
  predicate IsMidpoint(m: Point, a: Point, b: Point) {
    m.x - a.x == b.x - m.x && m.y - a.y == b.y - m.y
  }

  function Midpoint(a: Point, b: Point): (m: Point)
    ensures m.x - a.x == b.x - m.x && m.y - a.y == b.y - m.y
  {
    Point((a.x + b.x) / 2.0, (a.y + b.y) / 2.0)
  }

  /** What the zone index answers at an edge's midpoint; None where the lookup overruns. */
  function MidpointDepth(zones: seq<FloodZone>, nodes: seq<Point>, u: nat, v: nat): (depth: Option<real>)
    ensures depth.Some? ==> depth.value >= 0.0
  {
    if u < |nodes| && v < |nodes| then IndexedDepth(zones, Midpoint(nodes[u], nodes[v])) else Some(0.0)
  }

  /** Inundation depth of an edge. */
  function EdgeDepth(zones: seq<FloodZone>, nodes: seq<Point>, u: nat, v: nat): (depth: real)
    ensures depth >= 0.0
  {
    MidpointDepth(zones, nodes, u, v).GetOr(0.0)
  }

  /** The depth of an edge is what the index answers at any point in the middle of its two ends. */
  lemma {:induction false} DepthInTheMiddle(zones: seq<FloodZone>, nodes: seq<Point>, u: nat, v: nat, m: Point)
    requires u < |nodes| && v < |nodes| && IsMidpoint(m, nodes[u], nodes[v])
    ensures MidpointDepth(zones, nodes, u, v) == IndexedDepth(zones, m)
    ensures EdgeDepth(zones, nodes, u, v) == IndexedDepth(zones, m).GetOr(0.0)
  {
    hide IndexedDepth;
    assert m == Midpoint(nodes[u], nodes[v]);
  }

  /** On an aligned layer no lookup overruns, and the depth is that of the scan over every polygon. */
  lemma {:induction false} AlignedEdgeDepth(zones: seq<FloodZone>, nodes: seq<Point>, u: nat, v: nat, m: Point)
    requires Aligned(zones) && u < |nodes| && v < |nodes| && IsMidpoint(m, nodes[u], nodes[v])
    ensures MidpointDepth(zones, nodes, u, v) == Some(ScanDepth(zones, m))
  {
    hide IndexedDepth, ScanDepth, Aligned;
    DepthInTheMiddle(zones, nodes, u, v, m);
    AlignedIndexedDepth(zones, m);
  }

  lemma {:induction false} EdgeDepthSymmetric(zones: seq<FloodZone>, nodes: seq<Point>, u: nat, v: nat)
    ensures MidpointDepth(zones, nodes, u, v) == MidpointDepth(zones, nodes, v, u)
    ensures EdgeDepth(zones, nodes, u, v) == EdgeDepth(zones, nodes, v, u)
  {
    hide IndexedDepth;
    if u < |nodes| && v < |nodes| {
      assert Midpoint(nodes[u], nodes[v]) == Midpoint(nodes[v], nodes[u]);
    }
  }

  function PenaltyForDepth(depth: real, penalty: real): real {
    1.0 + depth * penalty
  }

  function FloodedFactor(zones: seq<FloodZone>, nodes: seq<Point>, penalty: real): Factor {
    (u: nat, v: nat) => PenaltyForDepth(EdgeDepth(zones, nodes, u, v), penalty)
  }

  /** One plus the depth in the middle of the street times the penalty. */
  lemma {:induction false} FactorInTheMiddle(zones: seq<FloodZone>, nodes: seq<Point>, penalty: real, u: nat, v: nat,
                                             m: Point)
    requires u < |nodes| && v < |nodes| && IsMidpoint(m, nodes[u], nodes[v])
    ensures IndexedDepth(zones, m).Some? ==>
      FloodedFactor(zones, nodes, penalty)(u, v) == 1.0 + IndexedDepth(zones, m).value * penalty
    ensures IndexedDepth(zones, m).None? ==> FloodedFactor(zones, nodes, penalty)(u, v) == 1.0
  {
    hide IndexedDepth;
    DepthInTheMiddle(zones, nodes, u, v, m);
  }

  type Distance = (Point, Point) -> real

  /** The length an entry adds to the flooded total. */
  function FloodedLength(zones: seq<FloodZone>, nodes: seq<Point>, distance: Distance): Factor {
    (u: nat, v: nat) => if u < |nodes| && v < |nodes| && EdgeDepth(zones, nodes, u, v) > 0.0
              then distance(nodes[u], nodes[v]) else 0.0
  }

  /** One for an entry whose factor visibly exceeds one. */
  function Slowed(f: Factor): Factor {
    (u: nat, v: nat) => if f(u, v) > 1.0 + 0.000000000001 then 1.0 else 0.0
  }

  class WalkGraph {
    const nodes: seq<Point>
    var adjacency: Adjacency

    ghost predicate Valid()
      reads this
    {
      |adjacency| == |nodes| && WellFormed(adjacency) && NonNegative(adjacency)
    }

    constructor (nodes: seq<Point>, adjacency: Adjacency)
      requires |adjacency| == |nodes| && WellFormed(adjacency) && NonNegative(adjacency)
      ensures Valid() && this.nodes == nodes && this.adjacency == adjacency
    {
      this.nodes := nodes;
      this.adjacency := adjacency;
    }
  }

  class FloodFactor {
    const index: ZoneIndex
    const nodes: seq<Point>
    const penalty: real
    const distance: Distance
    var edgeDepth: map<(nat, nat), real>
    var floodedLength: real

    ghost predicate Valid()
      reads this
    {
      && Holds(index, index.zones)
      && forall key <- edgeDepth :: MidpointDepth(index.zones, nodes, key.0, key.1) == Some(edgeDepth[key])
    }

    constructor (index: ZoneIndex, nodes: seq<Point>, penalty: real, distance: Distance)
      requires Holds(index, index.zones)
      ensures Valid() && floodedLength == 0.0
      ensures this.index == index && this.nodes == nodes && this.penalty == penalty && this.distance == distance
    {
      this.index, this.nodes, this.penalty, this.distance := index, nodes, penalty, distance;
      edgeDepth := map[];
      floodedLength := 0.0;
    }

    /** The memo answers what the zone index would, in either direction of the edge. */
    method MemoisedDepth(from: Point, to: Point, u: nat, v: nat) returns (depth: Option<real>)
      requires Valid() && u < |nodes| && v < |nodes| && from == nodes[u] && to == nodes[v]
      modifies this`edgeDepth
      ensures Valid() && depth == MidpointDepth(index.zones, nodes, u, v)
      ensures forall m: Point :: IsMidpoint(m, from, to) ==> depth == IndexedDepth(index.zones, m)
    {
      hide IndexedDepth, Holds, Lookup;
      forall m: Point | IsMidpoint(m, from, to)
        ensures MidpointDepth(index.zones, nodes, u, v) == IndexedDepth(index.zones, m)
      {
        DepthInTheMiddle(index.zones, nodes, u, v, m);
      }
      EdgeDepthSymmetric(index.zones, nodes, u, v);
      var key := if u < v then (u, v) else (v, u);
      if key !in edgeDepth {
        var looked := DepthAt(index, Midpoint(from, to));
        LookupIsIndexedDepth(index, index.zones, Midpoint(from, to));
        if looked.None? {
          return None;
        }
        edgeDepth := edgeDepth[key := looked.value];
      }
      depth := Some(edgeDepth[key]);
    }

    /** One call of the closure; None where the lookup overruns. */
    method Apply(from: Point, to: Point, u: nat, v: nat) returns (factor: Option<real>)
      requires Valid() && u < |nodes| && v < |nodes| && from == nodes[u] && to == nodes[v]
      modifies this
      ensures Valid()
      ensures factor == if MidpointDepth(index.zones, nodes, u, v).None? then None
                        else Some(FloodedFactor(index.zones, nodes, penalty)(u, v))
      ensures factor.Some? ==>
        floodedLength
        == old(floodedLength) + if u < v then FloodedLength(index.zones, nodes, distance)(u, v) else 0.0
      ensures forall m: Point :: IsMidpoint(m, from, to) ==>
        && (factor.None? <==> IndexedDepth(index.zones, m).None?)
        && (factor.Some? ==> factor.value == 1.0 + IndexedDepth(index.zones, m).value * penalty)
      ensures forall m: Point :: IsMidpoint(m, from, to) && factor.Some? ==>
        floodedLength
        == old(floodedLength)
           + if IndexedDepth(index.zones, m).GetOr(0.0) > 0.0 && u < v then distance(from, to) else 0.0
    {
      hide MidpointDepth, IndexedDepth, Holds;
      var depth := MemoisedDepth(from, to, u, v);
      if depth.None? {
        return None;
      }
      if depth.value > 0.0 && u < v {
        floodedLength := floodedLength + distance(from, to);
      }
      factor := Some(PenaltyForDepth(depth.value, penalty));
    }
  }

  // ------------------------------------------------------------------ scaling the graph in place

  lemma RowSumStep(row: seq<Slot>, k: nat, u: nat, g: Factor)
    requires k < |row|
    ensures RowSum(row[..k + 1], u, g)
            == RowSum(row[..k], u, g) + if u < row[k].to then g(u, row[k].to) else 0.0
  {
    assert row[..k + 1][..k] == row[..k];
  }

  lemma RowSumOfNone(u: nat, g: Factor)
    ensures RowSum([], u, g) == 0.0
  {}

  lemma SlowedAndScaled(slot: Slot, u: nat, f: Factor, applied: real)
    requires applied == f(u, slot.to)
    ensures Slowed(f)(u, slot.to) == if applied > 1.0 + 0.000000000001 then 1.0 else 0.0
    ensures ScaledSlot(slot, u, f) == Slot(slot.to, slot.cost * applied)
  {}

  lemma ScaledPrefixStep(row: seq<Slot>, k: nat, u: nat, f: Factor)
    requires k < |row|
    ensures (ScaledRow(row, u, f)[..k] + row[k..])[k := ScaledSlot(row[k], u, f)]
            == ScaledRow(row, u, f)[..k + 1] + row[k + 1..]
  {}

  lemma EntrySumStep(adj: Adjacency, u: nat, g: Factor)
    requires u < |adj|
    ensures EntrySum(adj[..u + 1], g) == EntrySum(adj[..u], g) + RowSum(adj[u], u, g)
  {
    assert adj[..u + 1][..u] == adj[..u];
  }

  /** Why scaling stops: a lookup past the stored boxes, or a factor below zero. */
  datatype ScaleFailure = Overrun | NegativeFactor

  /** The closure answers for the edge, with a factor the graph accepts. */
  predicate Scalable(zones: seq<FloodZone>, nodes: seq<Point>, penalty: real, u: nat, v: nat) {
    MidpointDepth(zones, nodes, u, v).Some? && FloodedFactor(zones, nodes, penalty)(u, v) >= 0.0
  }

  ghost predicate RowScalable(zones: seq<FloodZone>, nodes: seq<Point>, penalty: real, u: nat, row: seq<Slot>) {
    forall slot <- row :: Scalable(zones, nodes, penalty, u, slot.to)
  }

  ghost predicate AllScalable(adj: Adjacency, zones: seq<FloodZone>, nodes: seq<Point>, penalty: real) {
    forall u :: 0 <= u < |adj| ==> RowScalable(zones, nodes, penalty, u, adj[u])
  }

  predicate StopsAt(zones: seq<FloodZone>, nodes: seq<Point>, penalty: real, u: nat, v: nat, reason: ScaleFailure) {
    match reason
    case Overrun => MidpointDepth(zones, nodes, u, v).None?
    case NegativeFactor => MidpointDepth(zones, nodes, u, v).Some? && FloodedFactor(zones, nodes, penalty)(u, v) < 0.0
  }

  ghost predicate RowStops(zones: seq<FloodZone>, nodes: seq<Point>, penalty: real, u: nat, row: seq<Slot>,
                           reason: ScaleFailure) {
    exists slot <- row :: StopsAt(zones, nodes, penalty, u, slot.to, reason)
  }

  /** Some edge shows the reason of the failure. */
  ghost predicate Stops(adj: Adjacency, zones: seq<FloodZone>, nodes: seq<Point>, penalty: real, reason: ScaleFailure) {
    exists u :: 0 <= u < |adj| && RowStops(zones, nodes, penalty, u, adj[u], reason)
  }

  /** The lookup in the middle of some street runs past the stored boxes. */
  ghost predicate Overruns(adj: Adjacency, zones: seq<FloodZone>, nodes: seq<Point>) {
    exists u, slot, m: Point ::
      && 0 <= u < |adj| && slot in adj[u] && u < |nodes| && slot.to < |nodes|
      && IsMidpoint(m, nodes[u], nodes[slot.to]) && IndexedDepth(zones, m).None?
  }

  lemma {:induction false} StopsIffOverruns(adj: Adjacency, zones: seq<FloodZone>, nodes: seq<Point>, penalty: real)
    ensures Stops(adj, zones, nodes, penalty, Overrun) <==> Overruns(adj, zones, nodes)
  {
    hide IndexedDepth;
    if Stops(adj, zones, nodes, penalty, Overrun) {
      var u :| 0 <= u < |adj| && RowStops(zones, nodes, penalty, u, adj[u], Overrun);
      var slot :| slot in adj[u] && StopsAt(zones, nodes, penalty, u, slot.to, Overrun);
      assert IsMidpoint(Midpoint(nodes[u], nodes[slot.to]), nodes[u], nodes[slot.to]);
    }
    if Overruns(adj, zones, nodes) {
      var u, slot, m: Point :|
        && 0 <= u < |adj| && slot in adj[u] && u < |nodes| && slot.to < |nodes|
        && IsMidpoint(m, nodes[u], nodes[slot.to]) && IndexedDepth(zones, m).None?;
      DepthInTheMiddle(zones, nodes, u, slot.to, m);
      assert StopsAt(zones, nodes, penalty, u, slot.to, Overrun);
      assert RowStops(zones, nodes, penalty, u, adj[u], Overrun);
    }
  }

  lemma {:induction false} NothingSummed(g: Factor)
    ensures EntrySum([], g) == 0.0
  {}

  lemma {:induction false} NoRowsScalable(adj: Adjacency, zones: seq<FloodZone>, nodes: seq<Point>, penalty: real)
    ensures adj[..0] == [] && AllScalable(adj[..0], zones, nodes, penalty)
  {}

  lemma WellFormedRow(adj: Adjacency, u: nat)
    requires WellFormed(adj) && u < |adj|
    ensures forall slot <- adj[u] :: slot.to < |adj|
  {}

  /** One more row: it decides whether the scaling goes on or stops. */
  lemma {:induction false} RowDecides(adj: Adjacency, zones: seq<FloodZone>, nodes: seq<Point>, penalty: real, u: nat)
    requires u < |adj| && AllScalable(adj[..u], zones, nodes, penalty)
    ensures RowScalable(zones, nodes, penalty, u, adj[u]) <==> AllScalable(adj[..u + 1], zones, nodes, penalty)
    ensures !RowScalable(zones, nodes, penalty, u, adj[u]) ==> !AllScalable(adj, zones, nodes, penalty)
    ensures forall reason :: RowStops(zones, nodes, penalty, u, adj[u], reason) ==>
      Stops(adj, zones, nodes, penalty, reason)
  {
    hide RowScalable, RowStops;
    assert adj[..u + 1][u] == adj[u];
    assert forall i :: 0 <= i < u ==> adj[..u][i] == adj[i] == adj[..u + 1][i];
  }

  lemma {:induction false} NoSlotsScalable(zones: seq<FloodZone>, nodes: seq<Point>, penalty: real, u: nat,
                                           row: seq<Slot>)
    ensures row[..0] == [] && RowScalable(zones, nodes, penalty, u, row[..0])
  {}

  /** One more slot, likewise. */
  lemma {:induction false} SlotDecides(zones: seq<FloodZone>, nodes: seq<Point>, penalty: real, u: nat,
                                       row: seq<Slot>, k: nat)
    requires k < |row| && RowScalable(zones, nodes, penalty, u, row[..k])
    ensures var depth := MidpointDepth(zones, nodes, u, row[k].to);
            var factor := FloodedFactor(zones, nodes, penalty)(u, row[k].to);
            if depth.None? then
              !RowScalable(zones, nodes, penalty, u, row) && RowStops(zones, nodes, penalty, u, row, Overrun)
            else if factor < 0.0 then
              !RowScalable(zones, nodes, penalty, u, row) && RowStops(zones, nodes, penalty, u, row, NegativeFactor)
            else RowScalable(zones, nodes, penalty, u, row[..k + 1])
  {
    hide MidpointDepth, FloodedFactor;
    var slot := row[k];
    assert slot in row && row[..k + 1] == row[..k] + [slot];
    assert StopsAt(zones, nodes, penalty, u, slot.to, Overrun) <==> MidpointDepth(zones, nodes, u, slot.to).None?;
  }

  /** The inner loop: one adjacency list, slot by slot. */
  method ScaleRow(row0: seq<Slot>, factor: FloodFactor, u: nat) returns (r: Result<(seq<Slot>, nat), ScaleFailure>)
    requires factor.Valid() && u < |factor.nodes|
    requires forall slot <- row0 :: slot.to < |factor.nodes|
    modifies factor
    ensures factor.Valid()
    ensures r.Ok? <==>
      RowScalable(factor.index.zones, factor.nodes, factor.penalty, u, row0)
    ensures r.Err? ==>
      RowStops(factor.index.zones, factor.nodes, factor.penalty, u, row0, r.error)
    ensures r.Ok? ==>
            var f := FloodedFactor(factor.index.zones, factor.nodes, factor.penalty);
            && r.value.0 == ScaledRow(row0, u, f)
            && r.value.1 as real == RowSum(row0, u, Slowed(f))
            && factor.floodedLength == old(factor.floodedLength)
               + RowSum(row0, u, FloodedLength(factor.index.zones, factor.nodes, factor.distance))
  {
    hide *;
    ghost var f := FloodedFactor(factor.index.zones, factor.nodes, factor.penalty);
    ghost var length := FloodedLength(factor.index.zones, factor.nodes, factor.distance);
    RowSumOfNone(u, Slowed(f));
    RowSumOfNone(u, length);
    NoSlotsScalable(factor.index.zones, factor.nodes, factor.penalty, u, row0);
    var row, scaled: nat := row0, 0;
    var from := factor.nodes[u];
    for k := 0 to |row0|
      invariant factor.Valid()
      invariant RowScalable(factor.index.zones, factor.nodes, factor.penalty, u, row0[..k])
      invariant row == ScaledRow(row0, u, f)[..k] + row0[k..]
      invariant scaled as real == RowSum(row0[..k], u, Slowed(f))
      invariant factor.floodedLength == old(factor.floodedLength) + RowSum(row0[..k], u, length)
    {
      var slot := row[k];
      assert slot == row0[k] && slot in row0;
      var outcome := factor.Apply(from, factor.nodes[slot.to], u, slot.to);
      SlotDecides(factor.index.zones, factor.nodes, factor.penalty, u, row0, k);
      if outcome.None? {
        return Err(Overrun);
      }
      var applied := outcome.value;
      if applied < 0.0 {
        return Err(NegativeFactor);
      }
      SlowedAndScaled(slot, u, f, applied);
      RowSumStep(row0, k, u, Slowed(f));
      RowSumStep(row0, k, u, length);
      if applied > 1.0 + 0.000000000001 && slot.to > u {
        scaled := scaled + 1;
      }
      ScaledPrefixStep(row0, k, u, f);
      row := row[k := Slot(slot.to, slot.cost * applied)];
    }
    assert row0[..|row0|] == row0;
    assert ScaledRow(row0, u, f)[..|row0|] + [] == ScaledRow(row0, u, f);
    r := Ok((row, scaled));
  }

  /** crates/genegis-network/src/lib.rs: multiply every slot in place, counting slowed segments. */
  method ScaleEdgeCosts(graph: WalkGraph, factor: FloodFactor) returns (r: Result<nat, ScaleFailure>)
    requires graph.Valid() && factor.Valid() && factor.nodes == graph.nodes && factor.floodedLength == 0.0
    modifies graph, factor
    ensures factor.Valid()
    ensures r.Ok? <==> AllScalable(old(graph.adjacency), factor.index.zones, graph.nodes, factor.penalty)
    ensures r.Err? ==> Stops(old(graph.adjacency), factor.index.zones, graph.nodes, factor.penalty, r.error)
    ensures r.Ok? ==>
            var f := FloodedFactor(factor.index.zones, graph.nodes, factor.penalty);
            && graph.adjacency == Scaled(old(graph.adjacency), f)
            && r.value as real == EntrySum(old(graph.adjacency), Slowed(f))
            && factor.floodedLength
               == EntrySum(old(graph.adjacency), FloodedLength(factor.index.zones, graph.nodes, factor.distance))
  {
    ghost var adj := graph.adjacency;
    ghost var f := FloodedFactor(factor.index.zones, graph.nodes, factor.penalty);
    ghost var length := FloodedLength(factor.index.zones, graph.nodes, factor.distance);
    hide *;
    NothingSummed(Slowed(f));
    NothingSummed(length);
    NoRowsScalable(adj, factor.index.zones, graph.nodes, factor.penalty);
    var scaled: nat := 0;
    for u := 0 to |graph.adjacency|
      invariant AllScalable(adj[..u], factor.index.zones, graph.nodes, factor.penalty)
      invariant factor.Valid() && |graph.adjacency| == |adj|
      invariant forall i :: 0 <= i < u ==> graph.adjacency[i] == ScaledRow(adj[i], i, f)
      invariant forall i :: u <= i < |adj| ==> graph.adjacency[i] == adj[i]
      invariant scaled as real == EntrySum(adj[..u], Slowed(f))
      invariant factor.floodedLength == EntrySum(adj[..u], length)
    {
      WellFormedRow(adj, u);
      RowDecides(adj, factor.index.zones, graph.nodes, factor.penalty, u);
      var step := ScaleRow(graph.adjacency[u], factor, u);
      if step.Err? {
        return Err(step.error);
      }
      var (row, count) := step.value;
      graph.adjacency := graph.adjacency[u := row];
      EntrySumStep(adj, u, Slowed(f));
      EntrySumStep(adj, u, length);
      scaled := scaled + count;
    }
    assert adj[..|adj|] == adj;
    r := Ok(scaled);
  }

  // ------------------------------------------------------------------ nearest shelter

  function At(times: seq<Option<real>>, node: nat): Option<real> {
    if node < |times| then times[node] else None
  }

  /** The first shelter in list order whose time no other shelter beats. */
  ghost predicate FirstNearest(times: seq<Option<real>>, shelters: seq<nat>, index: nat, minutes: real) {
    && index < |shelters| && At(times, shelters[index]) == Some(minutes)
    && forall j :: 0 <= j < |shelters| && At(times, shelters[j]).Some? ==>
         minutes <= At(times, shelters[j]).value && (j < index ==> minutes < At(times, shelters[j]).value)
  }

  ghost predicate NoneReachable(times: seq<Option<real>>, shelters: seq<nat>) {
    forall j :: 0 <= j < |shelters| ==> At(times, shelters[j]).None?
  }

  method NearestOn(times: seq<Option<real>>, shelters: seq<nat>) returns (best: Option<(nat, real)>)
    ensures best.None? <==> forall j :: 0 <= j < |shelters| ==> At(times, shelters[j]).None?
    ensures best.Some? ==> FirstNearest(times, shelters, best.value.0, best.value.1)
  {
    best := None;
    for index := 0 to |shelters|
      invariant best.None? ==> NoneReachable(times, shelters[..index])
      invariant best.Some? ==> FirstNearest(times, shelters[..index], best.value.0, best.value.1)
    {
      assert shelters[..index + 1] == shelters[..index] + [shelters[index]];
      var time := At(times, shelters[index]);
      if time.Some? {
        if best.None? || time.value < best.value.1 {
          best := Some((index, time.value));
        }
      }
    }
    assert shelters[..|shelters|] == shelters;
  }

  // ------------------------------------------------------------------ the per-ward result

  datatype Feature = Feature(shelter: nat, baselineMinutes: real, floodedMinutes: real, delayMinutes: real,
                             floodedShelter: Option<nat>)

  ghost predicate FeatureOf(feature: Feature, clean: seq<Option<real>>, flooded: seq<Option<real>>,
                            shelters: seq<nat>) {
    && FirstNearest(clean, shelters, feature.shelter, feature.baselineMinutes)
    && FirstNearest(flooded, shelters, feature.floodedShelter.GetOr(feature.shelter), feature.floodedMinutes)
    && feature.floodedShelter != Some(feature.shelter)
    && feature.delayMinutes == feature.floodedMinutes - feature.baselineMinutes
  }

  /** The feature reports the nearest shelters by travel time on the clean and the scaled graph. */
  ghost predicate Routed(adj: Adjacency, f: Factor, origin: nat, shelters: seq<nat>, feature: Feature) {
    exists clean, flooded ::
      AreTravelTimes(adj, origin, clean) && AreTravelTimes(Scaled(adj, f), origin, flooded)
      && FeatureOf(feature, clean, flooded, shelters)
  }

  ghost predicate Routable(adj: Adjacency, f: Factor, origin: nat, shelters: seq<nat>) {
    exists feature :: Routed(adj, f, origin, shelters, feature)
  }

  ghost predicate Stranded(adj: Adjacency, origin: nat, shelters: seq<nat>) {
    exists clean :: AreTravelTimes(adj, origin, clean) && NoneReachable(clean, shelters)
  }

  datatype Failure =
    | BadPenalty | NoZones | TooFewShelters | IndexOverrun | Unreachable(ward: nat) | UnreachableFlooded(ward: nat)

  datatype Evacuation = Evacuation(features: seq<Feature>, floodedEdgeCount: nat, floodedLengthM: real)

  lemma ScaledStaysValid(adj: Adjacency, f: Factor)
    requires WellFormed(adj) && NonNegative(adj)
    requires forall u: nat, v: nat :: f(u, v) >= 0.0
    ensures WellFormed(Scaled(adj, f)) && NonNegative(Scaled(adj, f))
  {
    forall u, slot | 0 <= u < |adj| && slot in Scaled(adj, f)[u]
      ensures slot.to < |adj| && slot.cost >= 0.0
    {
      var k :| 0 <= k < |adj[u]| && ScaledSlot(adj[u][k], u, f) == slot;
      assert adj[u][k] in adj[u];
      MulOrdered(adj[u][k].cost, 0.0, f(u, slot.to));
    }
  }

  lemma PenaltyOrdered(d1: real, d2: real, penalty: real)
    requires 0.0 <= d1 <= d2 && penalty >= 0.0
    ensures 1.0 <= PenaltyForDepth(d1, penalty) <= PenaltyForDepth(d2, penalty)
  {
    MulOrdered(penalty, 0.0, d1);
    MulOrdered(penalty, d1, d2);
  }

  lemma FloodedFactorAtLeastOne(zones: seq<FloodZone>, nodes: seq<Point>, penalty: real, u: nat, v: nat)
    requires penalty >= 0.0
    ensures FloodedFactor(zones, nodes, penalty)(u, v) >= 1.0
  {
    hide EdgeDepth;
    PenaltyOrdered(0.0, EdgeDepth(zones, nodes, u, v), penalty);
  }

  function Unscaled(): Factor {
    (u: nat, v: nat) => 1.0
  }

  /** Every node keeps its reachability and can only get slower. */
  lemma FloodedTimesDominate(adj: Adjacency, zones: seq<FloodZone>, nodes: seq<Point>, penalty: real, origin: nat,
                             clean: seq<Option<real>>, flooded: seq<Option<real>>, v: nat)
    requires WellFormed(adj) && NonNegative(adj) && penalty >= 0.0
    requires AreTravelTimes(adj, origin, clean)
    requires AreTravelTimes(Scaled(adj, FloodedFactor(zones, nodes, penalty)), origin, flooded)
    ensures At(clean, v).Some? <==> At(flooded, v).Some?
    ensures At(clean, v).Some? ==> At(clean, v).value <= At(flooded, v).value
  {
    hide IsTravelTime, FloodedFactor, ScaledRow;
    var f := FloodedFactor(zones, nodes, penalty);
    if v < |adj| {
      ScaledByOne(adj, Unscaled());
      forall a: nat, b: nat ensures Unscaled()(a, b) <= f(a, b) {
        FloodedFactorAtLeastOne(zones, nodes, penalty, a, b);
      }
      ScaledTimesOrdered(adj, Unscaled(), f, origin, v, clean[v], flooded[v]);
    }
  }

  method RouteWard(clean: Adjacency, flooded: Adjacency, origin: nat, shelters: seq<nat>,
                   ghost zones: seq<FloodZone>, ghost nodes: seq<Point>, ghost penalty: real)
    returns (r: Option<Feature>)
    requires WellFormed(clean) && NonNegative(clean) && WellFormed(flooded) && NonNegative(flooded)
    requires penalty >= 0.0 && flooded == Scaled(clean, FloodedFactor(zones, nodes, penalty))
    requires origin < |clean|
    ensures r.None? ==> Stranded(clean, origin, shelters)
    ensures r.Some? ==> Routed(clean, FloodedFactor(zones, nodes, penalty), origin, shelters, r.value)
  {
    hide AreTravelTimes, FloodedFactor, WellFormed, NonNegative, NonNegativeFrom;
    NonNegativeReachably(clean, origin);
    NonNegativeReachably(flooded, origin);
    var baselineTimes := TravelTimesFrom(clean, origin);
    var floodedTimes := TravelTimesFrom(flooded, origin);
    var baseline := NearestOn(baselineTimes, shelters);
    if baseline.None? {
      return None;
    }
    var floodedBest := NearestOn(floodedTimes, shelters);
    FloodedTimesDominate(clean, zones, nodes, penalty, origin, baselineTimes, floodedTimes,
                         shelters[baseline.value.0]);
    var (baselineIndex, baselineMinutes) := baseline.value;
    var (floodedIndex, floodedMinutes) := floodedBest.value;
    var feature := Feature(baselineIndex, baselineMinutes, floodedMinutes, floodedMinutes - baselineMinutes,
                           if floodedIndex == baselineIndex then None else Some(floodedIndex));
    assert FeatureOf(feature, baselineTimes, floodedTimes, shelters);
    r := Some(feature);
  }

  /** A penalty that is not negative can only be stopped by an overrun. */
  lemma {:induction false} OnlyOverrunsStop(adj: Adjacency, zones: seq<FloodZone>, nodes: seq<Point>, penalty: real)
    requires penalty >= 0.0
    ensures AllScalable(adj, zones, nodes, penalty) <==> !Stops(adj, zones, nodes, penalty, Overrun)
    ensures !Stops(adj, zones, nodes, penalty, NegativeFactor)
  {
    hide MidpointDepth, FloodedFactor;
    forall u: nat, v: nat ensures FloodedFactor(zones, nodes, penalty)(u, v) >= 0.0 {
      FloodedFactorAtLeastOne(zones, nodes, penalty, u, v);
    }
  }

  lemma IndexHoldsItsZones(index: ZoneIndex, zones: seq<FloodZone>)
    requires Holds(index, zones)
    ensures index.zones == zones
  {}

  method EvacuationAccess(graph: WalkGraph, zones: seq<FloodZone>, wards: seq<nat>, shelters: seq<nat>,
                          penalty: real, distance: Distance)
    returns (r: Result<Evacuation, Failure>)
    requires graph.Valid()
    requires forall ward <- wards :: ward < |graph.nodes|
    ensures r == Err(BadPenalty) <==> penalty < 0.0
    ensures r == Err(NoZones) <==> penalty >= 0.0 && zones == []
    ensures r == Err(TooFewShelters) <==> penalty >= 0.0 && zones != [] && |shelters| < 2
    ensures r == Err(IndexOverrun) <==>
      penalty >= 0.0 && zones != [] && |shelters| >= 2 && Overruns(graph.adjacency, zones, graph.nodes)
    ensures r.Err? && r.error.Unreachable? ==>
      && r.error.ward < |wards| && Stranded(graph.adjacency, wards[r.error.ward], shelters)
      && forall i :: 0 <= i < r.error.ward ==>
           Routable(graph.adjacency, FloodedFactor(zones, graph.nodes, penalty), wards[i], shelters)
    ensures !(r.Err? && r.error.UnreachableFlooded?)
    ensures r.Ok? ==>
      var f := FloodedFactor(zones, graph.nodes, penalty);
      && |r.value.features| == |wards|
      && (forall i :: 0 <= i < |wards| ==> Routed(graph.adjacency, f, wards[i], shelters, r.value.features[i]))
      && r.value.floodedEdgeCount as real == EntrySum(graph.adjacency, Slowed(f))
      && r.value.floodedLengthM == EntrySum(graph.adjacency, FloodedLength(zones, graph.nodes, distance))
  {
    hide Routed, Stranded, Holds, FloodedFactor, FloodedLength, EntrySum, Slowed, Scaled, AllScalable, Stops, Overruns;
    if !(penalty >= 0.0) {
      return Err(BadPenalty);
    }
    var index := Build(zones);
    if index.Err? {
      return Err(NoZones);
    }
    IndexHoldsItsZones(index.value, zones);
    if |shelters| < 2 {
      return Err(TooFewShelters);
    }
    var floodedGraph := new WalkGraph(graph.nodes, graph.adjacency);
    var factor := new FloodFactor(index.value, graph.nodes, penalty, distance);
    var count := ScaleEdgeCosts(floodedGraph, factor);
    OnlyOverrunsStop(graph.adjacency, zones, graph.nodes, penalty);
    StopsIffOverruns(graph.adjacency, zones, graph.nodes, penalty);
    if count.Err? {
      return Err(IndexOverrun);
    }
    ghost var f := FloodedFactor(zones, graph.nodes, penalty);
    forall u: nat, v: nat ensures f(u, v) >= 0.0 {
      FloodedFactorAtLeastOne(zones, graph.nodes, penalty, u, v);
    }
    ScaledStaysValid(graph.adjacency, f);
    var floodedAdjacency, floodedLength := floodedGraph.adjacency, factor.floodedLength;
    var features: seq<Feature> := [];
    for i := 0 to |wards|
      invariant |features| == i
      invariant forall k :: 0 <= k < i ==> Routed(graph.adjacency, f, wards[k], shelters, features[k])
    {
      assert wards[i] in wards;
      var feature := RouteWard(graph.adjacency, floodedAdjacency, wards[i], shelters, zones, graph.nodes, penalty);
      if feature.None? {
        forall k | 0 <= k < i ensures Routable(graph.adjacency, f, wards[k], shelters) {
          assert Routed(graph.adjacency, f, wards[k], shelters, features[k]);
        }
        return Err(Unreachable(i));
      }
      features := features + [feature.value];
    }
    r := Ok(Evacuation(features, count.value, floodedLength));
  }

  /** An aligned layer never stops the run. */
  lemma {:induction false} AlignedNeverStops(adj: Adjacency, zones: seq<FloodZone>, nodes: seq<Point>)
    requires Aligned(zones)
    ensures !Overruns(adj, zones, nodes)
  {
    hide Aligned, IndexedDepth, ScanDepth;
    forall m: Point ensures IndexedDepth(zones, m).Some? {
      AlignedIndexedDepth(zones, m);
    }
  }

  // ------------------------------------------------------------------ what the analysis promises

  /** The deepest zone of the layer. */
  function DeepestZone(zones: seq<FloodZone>): (depth: real)
    ensures depth >= 0.0 && forall zone <- zones :: zone.depthClassM <= depth
    ensures depth == 0.0 || exists zone <- zones :: zone.depthClassM == depth
  {
    if zones == [] then 0.0
    else
      assert zones == zones[..|zones| - 1] + [zones[|zones| - 1]];
      Max(DeepestZone(zones[..|zones| - 1]), zones[|zones| - 1].depthClassM)
  }

  lemma {:induction false} DepthBounded(zones: seq<FloodZone>, nodes: seq<Point>, u: nat, v: nat)
    ensures EdgeDepth(zones, nodes, u, v) <= DeepestZone(zones)
  {
    hide IndexedDepth, DeepestZone;
    if u < |nodes| && v < |nodes| {
      IndexedDepthBounded(zones, Midpoint(nodes[u], nodes[v]), DeepestZone(zones));
    }
  }

  lemma {:induction false} FloodedFactorBounded(zones: seq<FloodZone>, nodes: seq<Point>, penalty: real, u: nat, v: nat)
    requires penalty >= 0.0
    ensures FloodedFactor(zones, nodes, penalty)(u, v) <= 1.0 + DeepestZone(zones) * penalty
  {
    hide EdgeDepth, DeepestZone;
    DepthBounded(zones, nodes, u, v);
    PenaltyOrdered(EdgeDepth(zones, nodes, u, v), DeepestZone(zones), penalty);
  }

  /** baseline <= flooded <= (1 + deepest depth * penalty) * baseline, for every routed ward. */
  lemma DelayBounded(adj: Adjacency, zones: seq<FloodZone>, nodes: seq<Point>, penalty: real, origin: nat,
                     shelters: seq<nat>, feature: Feature)
    requires WellFormed(adj) && NonNegative(adj) && penalty >= 0.0
    requires Routed(adj, FloodedFactor(zones, nodes, penalty), origin, shelters, feature)
    ensures feature.delayMinutes >= 0.0
    ensures feature.floodedMinutes <= (1.0 + DeepestZone(zones) * penalty) * feature.baselineMinutes
  {
    hide IsTravelTime, FloodedFactor, WellFormed, NonNegative, Scaled, DeepestZone;
    var f := FloodedFactor(zones, nodes, penalty);
    var clean: seq<Option<real>>, flooded: seq<Option<real>> :|
      && AreTravelTimes(adj, origin, clean) && AreTravelTimes(Scaled(adj, f), origin, flooded)
      && FeatureOf(feature, clean, flooded, shelters);
    var near, far := shelters[feature.shelter], shelters[feature.floodedShelter.GetOr(feature.shelter)];
    FloodedTimesDominate(adj, zones, nodes, penalty, origin, clean, flooded, near);
    FloodedTimesDominate(adj, zones, nodes, penalty, origin, clean, flooded, far);
    var most := 1.0 + DeepestZone(zones) * penalty;
    forall u: nat, v: nat ensures f(u, v) <= most {
      FloodedFactorBounded(zones, nodes, penalty, u, v);
    }
    ScaledTimeStretched(adj, f, most, origin, near, clean[near].value, flooded[near].value);
  }

  lemma TravelTimesUnique(adj: Adjacency, origin: nat, times1: seq<Option<real>>, times2: seq<Option<real>>)
    requires AreTravelTimes(adj, origin, times1) && AreTravelTimes(adj, origin, times2)
    ensures times1 == times2
  {
    forall v | 0 <= v < |adj| ensures times1[v] == times2[v] {
      TravelTimeUnique(adj, origin, v, times1[v], times2[v]);
    }
  }

  lemma FactorMonotone(zones: seq<FloodZone>, nodes: seq<Point>, p: real, q: real, u: nat, v: nat)
    requires p <= q
    ensures FloodedFactor(zones, nodes, p)(u, v) <= FloodedFactor(zones, nodes, q)(u, v)
  {
    hide EdgeDepth;
    MulOrdered(EdgeDepth(zones, nodes, u, v), p, q);
  }

  /** A larger penalty never shortens a flooded time and leaves the baseline alone. */
  lemma {:induction false} MonotoneInPenalty(adj: Adjacency, zones: seq<FloodZone>, nodes: seq<Point>, p: real,
                                             q: real, origin: nat,
                          shelters: seq<nat>, mild: Feature, harsh: Feature)
    requires WellFormed(adj) && NonNegative(adj) && 0.0 <= p <= q
    requires Routed(adj, FloodedFactor(zones, nodes, p), origin, shelters, mild)
    requires Routed(adj, FloodedFactor(zones, nodes, q), origin, shelters, harsh)
    ensures mild.shelter == harsh.shelter && mild.baselineMinutes == harsh.baselineMinutes
    ensures mild.floodedMinutes <= harsh.floodedMinutes
  {
    hide IsTravelTime, FloodedFactor, WellFormed, NonNegative, Scaled;
    var f, g := FloodedFactor(zones, nodes, p), FloodedFactor(zones, nodes, q);
    var clean: seq<Option<real>>, mildTimes: seq<Option<real>> :|
      && AreTravelTimes(adj, origin, clean) && AreTravelTimes(Scaled(adj, f), origin, mildTimes)
      && FeatureOf(mild, clean, mildTimes, shelters);
    var clean': seq<Option<real>>, harshTimes: seq<Option<real>> :|
      && AreTravelTimes(adj, origin, clean') && AreTravelTimes(Scaled(adj, g), origin, harshTimes)
      && FeatureOf(harsh, clean', harshTimes, shelters);
    TravelTimesUnique(adj, origin, clean, clean');
    forall u: nat, v: nat ensures f(u, v) <= g(u, v) {
      FactorMonotone(zones, nodes, p, q, u, v);
    }
    var s := shelters[harsh.floodedShelter.GetOr(harsh.shelter)];
    ScaledTimesOrdered(adj, f, g, origin, s, mildTimes[s], harshTimes[s]);
  }

  /** Without a penalty the flooded run is the clean run: same time, same shelter, no delay. */
  lemma {:induction false} ZeroPenaltyReproduces(adj: Adjacency, zones: seq<FloodZone>, nodes: seq<Point>, origin: nat,
                              shelters: seq<nat>, feature: Feature)
    requires WellFormed(adj) && Routed(adj, FloodedFactor(zones, nodes, 0.0), origin, shelters, feature)
    ensures feature.delayMinutes == 0.0 && feature.floodedShelter.None?
  {
    hide IsTravelTime;
    var f := FloodedFactor(zones, nodes, 0.0);
    ScaledByOne(adj, f);
    var clean: seq<Option<real>>, flooded: seq<Option<real>> :|
      && AreTravelTimes(adj, origin, clean) && AreTravelTimes(Scaled(adj, f), origin, flooded)
      && FeatureOf(feature, clean, flooded, shelters);
    TravelTimesUnique(adj, origin, clean, flooded);
  }

  lemma SizedTimes(adj: Adjacency, origin: nat, times: seq<Option<real>>)
    requires AreTravelTimes(adj, origin, times)
    ensures |times| == |adj|
  {}

  lemma {:induction false} ScaledLength(adj: Adjacency, f: Factor)
    ensures |Scaled(adj, f)| == |adj| && forall u :: 0 <= u < |adj| ==> |Scaled(adj, f)[u]| == |adj[u]|
  {}

  lemma {:induction false} ScaledEntry(adj: Adjacency, f: Factor, u: nat, k: nat)
    requires u < |adj| && k < |adj[u]|
    ensures |Scaled(adj, f)| == |adj| && |Scaled(adj, f)[u]| == |adj[u]|
    ensures Scaled(adj, f)[u][k] == Slot(adj[u][k].to, adj[u][k].cost * f(u, adj[u][k].to))
  {}

  /**
   * What a feature says, whatever table of travel times is taken: both times are those of the
   * named shelters, no shelter is nearer, and none listed before is as near.
   */
  lemma {:induction false} FeatureNamesNearest(adj: Adjacency, f: Factor, origin: nat, shelters: seq<nat>,
                                               feature: Feature, clean: seq<Option<real>>,
                                               flooded: seq<Option<real>>, j: nat)
    requires Routed(adj, f, origin, shelters, feature) && j < |shelters| && shelters[j] < |adj|
    requires AreTravelTimes(adj, origin, clean) && AreTravelTimes(Scaled(adj, f), origin, flooded)
    ensures var near := feature.shelter;
            var far := if feature.floodedShelter.Some? then feature.floodedShelter.value else near;
            && near < |shelters| && shelters[near] < |adj| && clean[shelters[near]] == Some(feature.baselineMinutes)
            && far < |shelters| && shelters[far] < |adj| && flooded[shelters[far]] == Some(feature.floodedMinutes)
            && (feature.floodedShelter.Some? ==> far != near)
            && (var time := clean[shelters[j]];
                time.Some? ==> feature.baselineMinutes <= time.value
                               && (j < near ==> feature.baselineMinutes < time.value))
            && (var time := flooded[shelters[j]];
                time.Some? ==> feature.floodedMinutes <= time.value
                               && (j < far ==> feature.floodedMinutes < time.value))
    ensures feature.delayMinutes == feature.floodedMinutes - feature.baselineMinutes
  {
    hide IsTravelTime, AreTravelTimes;
    var c, t :| AreTravelTimes(adj, origin, c) && AreTravelTimes(Scaled(adj, f), origin, t)
                && FeatureOf(feature, c, t, shelters);
    TravelTimesUnique(adj, origin, clean, c);
    TravelTimesUnique(Scaled(adj, f), origin, flooded, t);
    assert |c| == |adj| && |t| == |adj| by { SizedTimes(adj, origin, c); SizedTimes(Scaled(adj, f), origin, t); }
  }

  /** No flooded street leads to a later time than its minutes, stretched by the depth in its middle, allow. */
  lemma {:induction false} FloodedStreetBoundsTime(adj: Adjacency, zones: seq<FloodZone>, nodes: seq<Point>,
                                                   penalty: real, origin: nat, flooded: seq<Option<real>>, u: nat,
                                                   slot: Slot, m: Point, depth: real)
    requires AreTravelTimes(Scaled(adj, FloodedFactor(zones, nodes, penalty)), origin, flooded)
    requires |adj| == |nodes| && u < |adj| && slot in adj[u] && slot.to < |nodes| && flooded[u].Some?
    requires IsMidpoint(m, nodes[u], nodes[slot.to]) && IndexedDepth(zones, m) == Some(depth)
    ensures flooded[slot.to].Some?
    ensures flooded[slot.to].value <= flooded[u].value + slot.cost * (1.0 + depth * penalty)
  {
    hide IndexedDepth, AreTravelTimes, FloodedFactor;
    var f := FloodedFactor(zones, nodes, penalty);
    var k :| 0 <= k < |adj[u]| && adj[u][k] == slot;
    FactorInTheMiddle(zones, nodes, penalty, u, slot.to, m);
    ScaledEntry(adj, f, u, k);
    var scaled := Scaled(adj, f)[u][k];
    assert scaled in Scaled(adj, f)[u];
    assert scaled.cost == slot.cost * (1.0 + depth * penalty);
    StreetBoundsTime(Scaled(adj, f), origin, flooded, u, scaled);
  }

  /** Every flooded time beyond the origin is a neighbour's plus the stretched minutes of a street between them. */
  lemma {:induction false} LastFloodedStreet(adj: Adjacency, zones: seq<FloodZone>, nodes: seq<Point>,
                                             penalty: real, origin: nat, flooded: seq<Option<real>>, v: nat)
    returns (u: nat, slot: Slot)
    requires AreTravelTimes(Scaled(adj, FloodedFactor(zones, nodes, penalty)), origin, flooded)
    requires |adj| == |nodes| && v < |adj| && v != origin && flooded[v].Some?
    ensures u < |adj| && slot in adj[u] && slot.to == v && flooded[u].Some?
    ensures forall m: Point :: IsMidpoint(m, nodes[u], nodes[v]) && IndexedDepth(zones, m).Some? ==>
      flooded[v].value == flooded[u].value + slot.cost * (1.0 + IndexedDepth(zones, m).value * penalty)
  {
    hide IndexedDepth, AreTravelTimes, FloodedFactor, Scaled, ScaledRow;
    var f := FloodedFactor(zones, nodes, penalty);
    var stretched: Slot;
    ScaledLength(adj, f);
    u, stretched := LastStreet(Scaled(adj, f), origin, flooded, v);
    var k :| 0 <= k < |Scaled(adj, f)[u]| && Scaled(adj, f)[u][k] == stretched;
    ScaledEntry(adj, f, u, k);
    slot := adj[u][k];
    forall m: Point | IsMidpoint(m, nodes[u], nodes[v]) && IndexedDepth(zones, m).Some?
      ensures f(u, v) == 1.0 + IndexedDepth(zones, m).value * penalty
    {
      FactorInTheMiddle(zones, nodes, penalty, u, v, m);
    }
  }

  // ------------------------------------------------------------------ depths that are the scan's

  /** What the factor of an edge should be: by the scan over every polygon at its midpoint. */
  function ScanFactor(zones: seq<FloodZone>, nodes: seq<Point>, penalty: real): Factor {
    (u: nat, v: nat) =>
      if u < |nodes| && v < |nodes| then PenaltyForDepth(ScanDepth(zones, Midpoint(nodes[u], nodes[v])), penalty)
      else 1.0
  }

  /** In the middle of every street the index answers with the depth of the scan. */
  ghost predicate Scanned(adj: Adjacency, zones: seq<FloodZone>, nodes: seq<Point>) {
    forall u, slot, m: Point ::
      0 <= u < |adj| && slot in adj[u] && u < |nodes| && slot.to < |nodes| ==>
        IsMidpoint(m, nodes[u], nodes[slot.to]) ==> IndexedDepth(zones, m) == Some(ScanDepth(zones, m))
  }

  /** A run uses the depths of the scan exactly when the index answers exactly in the middle of every street. */
  lemma {:induction false} ScannedIff(adj: Adjacency, zones: seq<FloodZone>, nodes: seq<Point>)
    ensures Scanned(adj, zones, nodes)
            <==> forall u, slot, m: Point ::
              0 <= u < |adj| && slot in adj[u] && u < |nodes| && slot.to < |nodes| ==>
                IsMidpoint(m, nodes[u], nodes[slot.to]) ==> AnsweredExactly(zones, m)
  {
    hide IndexedDepth, ScanDepth, AnsweredExactly;
    forall p: Point ensures IndexedDepth(zones, p) == Some(ScanDepth(zones, p)) <==> AnsweredExactly(zones, p) {
      IndexedDepthIsScanIff(zones, p);
    }
  }

  /** The index and the scan agree at the midpoint of the street between two nodes. */
  predicate StreetAgrees(zones: seq<FloodZone>, nodes: seq<Point>, u: nat, v: nat)
    requires u < |nodes| && v < |nodes|
  {
    MidpointDepth(zones, nodes, u, v) == Some(ScanDepth(zones, Midpoint(nodes[u], nodes[v])))
  }

  lemma {:induction false} StreetAgreesIff(zones: seq<FloodZone>, nodes: seq<Point>, u: nat, v: nat)
    requires u < |nodes| && v < |nodes|
    ensures StreetAgrees(zones, nodes, u, v)
            <==> forall m: Point :: IsMidpoint(m, nodes[u], nodes[v]) ==>
                   IndexedDepth(zones, m) == Some(ScanDepth(zones, m))
  {
    hide IndexedDepth, ScanDepth;
    var middle := Midpoint(nodes[u], nodes[v]);
    assert IsMidpoint(middle, nodes[u], nodes[v]);
    forall m: Point | IsMidpoint(m, nodes[u], nodes[v]) ensures m == middle {}
  }

  predicate SameCost(slot: Slot, f: Factor, g: Factor, u: nat) {
    slot.cost * f(u, slot.to) == slot.cost * g(u, slot.to)
  }

  lemma {:induction false} ScannedBySlot(adj: Adjacency, zones: seq<FloodZone>, nodes: seq<Point>)
    requires |adj| == |nodes| && forall u, k :: 0 <= u < |adj| && 0 <= k < |adj[u]| ==> adj[u][k].to < |nodes|
    ensures Scanned(adj, zones, nodes)
            <==> forall u, k :: 0 <= u < |adj| && 0 <= k < |adj[u]| ==> StreetAgrees(zones, nodes, u, adj[u][k].to)
  {
    hide MidpointDepth, IndexedDepth, ScanDepth, StreetAgrees;
    forall u, k | 0 <= u < |adj| && 0 <= k < |adj[u]|
      ensures StreetAgrees(zones, nodes, u, adj[u][k].to)
              <==> forall m: Point :: IsMidpoint(m, nodes[u], nodes[adj[u][k].to]) ==>
                     IndexedDepth(zones, m) == Some(ScanDepth(zones, m))
    {
      StreetAgreesIff(zones, nodes, u, adj[u][k].to);
    }
    if Scanned(adj, zones, nodes) {
      forall u, k | 0 <= u < |adj| && 0 <= k < |adj[u]| ensures StreetAgrees(zones, nodes, u, adj[u][k].to) {
        assert adj[u][k] in adj[u];
      }
    }
  }

  /** Scaling by two factors gives the same graph exactly when every slot comes out at the same cost. */
  lemma {:induction false} ScaledEqualIff(adj: Adjacency, f: Factor, g: Factor)
    ensures Scaled(adj, f) == Scaled(adj, g)
            <==> forall u, k :: 0 <= u < |adj| && 0 <= k < |adj[u]| ==> SameCost(adj[u][k], f, g, u)
  {
    hide Scaled;
    forall u, k | 0 <= u < |adj| && 0 <= k < |adj[u]|
      ensures |Scaled(adj, f)| == |Scaled(adj, g)| == |adj|
      ensures |Scaled(adj, f)[u]| == |Scaled(adj, g)[u]| == |adj[u]|
      ensures Scaled(adj, f)[u][k] == Scaled(adj, g)[u][k] <==> SameCost(adj[u][k], f, g, u)
    {
      ScaledEntry(adj, f, u, k);
      ScaledEntry(adj, g, u, k);
    }
    if forall u, k :: 0 <= u < |adj| && 0 <= k < |adj[u]| ==> SameCost(adj[u][k], f, g, u) {
      ScaledLength(adj, f);
      ScaledLength(adj, g);
      assert forall u :: 0 <= u < |adj| ==> Scaled(adj, f)[u] == Scaled(adj, g)[u];
    }
  }

  lemma FactorTellsCosts(cost: real, a: real, b: real)
    requires cost > 0.0 && a != b
    ensures cost * a != cost * b && a * cost != b * cost
  {
    if a < b {
      PositiveFactor(b - a, cost);
    } else {
      PositiveFactor(a - b, cost);
    }
    assert (b - a) * cost == b * cost - a * cost;
  }

  lemma PenaltyTellsDepths(a: real, b: real, penalty: real)
    requires penalty > 0.0 && a != b
    ensures PenaltyForDepth(a, penalty) != PenaltyForDepth(b, penalty)
  {
    FactorTellsCosts(penalty, a, b);
  }

  /** With a positive penalty and cost a slot's scaled cost tells its depth. */
  lemma {:induction false} CostTellsDepth(zones: seq<FloodZone>, nodes: seq<Point>, penalty: real, u: nat, slot: Slot)
    requires u < |nodes| && slot.to < |nodes| && MidpointDepth(zones, nodes, u, slot.to).Some?
    ensures var f, g := FloodedFactor(zones, nodes, penalty), ScanFactor(zones, nodes, penalty);
            && (StreetAgrees(zones, nodes, u, slot.to) ==> SameCost(slot, f, g, u))
            && (penalty > 0.0 && slot.cost > 0.0 && SameCost(slot, f, g, u) ==> StreetAgrees(zones, nodes, u, slot.to))
  {
    hide MidpointDepth, ScanDepth, PenaltyForDepth;
    var a, b := EdgeDepth(zones, nodes, u, slot.to), ScanDepth(zones, Midpoint(nodes[u], nodes[slot.to]));
    if penalty > 0.0 && slot.cost > 0.0 && a != b {
      PenaltyTellsDepths(a, b, penalty);
      FactorTellsCosts(slot.cost, PenaltyForDepth(a, penalty), PenaltyForDepth(b, penalty));
    }
  }

  lemma {:induction false} EdgeIsLookedUp(adj: Adjacency, zones: seq<FloodZone>, nodes: seq<Point>, u: nat, k: nat)
    requires |adj| == |nodes| && WellFormed(adj) && !Overruns(adj, zones, nodes)
    requires u < |adj| && k < |adj[u]|
    ensures adj[u][k].to < |nodes| && MidpointDepth(zones, nodes, u, adj[u][k].to).Some?
  {
    hide IndexedDepth;
    assert adj[u][k] in adj[u];
    assert IsMidpoint(Midpoint(nodes[u], nodes[adj[u][k].to]), nodes[u], nodes[adj[u][k].to]);
  }

  /**
   * A run that was not stopped routes over the graph that the scan would give exactly when its
   * depths are those of the scan; a positive penalty and positive costs make every wrong depth
   * show.
   */
  lemma {:induction false} RoutesAreScannedIff(adj: Adjacency, zones: seq<FloodZone>, nodes: seq<Point>, penalty: real)
    requires |adj| == |nodes| && WellFormed(adj) && !Overruns(adj, zones, nodes)
    ensures Scanned(adj, zones, nodes) ==>
      Scaled(adj, FloodedFactor(zones, nodes, penalty)) == Scaled(adj, ScanFactor(zones, nodes, penalty))
    ensures penalty > 0.0 && (forall u, slot :: 0 <= u < |adj| && slot in adj[u] ==> slot.cost > 0.0) ==>
      (Scaled(adj, FloodedFactor(zones, nodes, penalty)) == Scaled(adj, ScanFactor(zones, nodes, penalty))
       <==> Scanned(adj, zones, nodes))
  {
    hide MidpointDepth, ScanDepth, WellFormed, Scaled, Overruns, FloodedFactor, ScanFactor, StreetAgrees;
    var f, g := FloodedFactor(zones, nodes, penalty), ScanFactor(zones, nodes, penalty);
    ScaledEqualIff(adj, f, g);
    var positive := penalty > 0.0 && forall u, slot :: 0 <= u < |adj| && slot in adj[u] ==> slot.cost > 0.0;
    forall u, k | 0 <= u < |adj| && 0 <= k < |adj[u]|
      ensures adj[u][k] in adj[u] && adj[u][k].to < |nodes|
      ensures StreetAgrees(zones, nodes, u, adj[u][k].to) ==> SameCost(adj[u][k], f, g, u)
      ensures positive && SameCost(adj[u][k], f, g, u) ==> StreetAgrees(zones, nodes, u, adj[u][k].to)
    {
      assert adj[u][k] in adj[u];
      EdgeIsLookedUp(adj, zones, nodes, u, k);
      CostTellsDepth(zones, nodes, penalty, u, adj[u][k]);
    }
    ScannedBySlot(adj, zones, nodes);
  }

  lemma {:induction false} OneMiddle(a: Point, b: Point, m: Point, n: Point)
    requires IsMidpoint(m, a, b) && (IsMidpoint(n, a, b) || IsMidpoint(n, b, a))
    ensures n == m
  {}

  /** Two nodes and the street between them. */
  const STREET: Adjacency := [[Slot(1, 1.0)], [Slot(0, 1.0)]]

  lemma {:induction false} SlotsOfStreet(u: nat, slot: Slot)
    requires u < |STREET| && slot in STREET[u]
    ensures (u == 0 && slot.to == 1) || (u == 1 && slot.to == 0)
  {}

  lemma {:induction false} StreetHasSlot()
    ensures |STREET| == 2 && Slot(1, 1.0) in STREET[0]
  {
    assert STREET[0][0] == Slot(1, 1.0);
  }

  /** A single street that the index calls dry although the scan does not. */
  lemma {:induction false} DryStreet(zones: seq<FloodZone>, nodes: seq<Point>, m: Point)
    requires |nodes| == 2 && IsMidpoint(m, nodes[0], nodes[1])
    requires IndexedDepth(zones, m) == Some(0.0) && ScanDepth(zones, m) != 0.0
    ensures !Overruns(STREET, zones, nodes) && !Scanned(STREET, zones, nodes)
  {
    hide IndexedDepth, ScanDepth, IsMidpoint, STREET;
    StreetHasSlot();
    forall u: nat, slot: Slot, n: Point |
      u < |STREET| && slot in STREET[u] && u < |nodes| && slot.to < |nodes| && IsMidpoint(n, nodes[u], nodes[slot.to])
      ensures n == m
    {
      SlotsOfStreet(u, slot);
      OneMiddle(nodes[0], nodes[1], m, n);
    }
  }

  lemma MiddleOfDiagonal()
    ensures IsMidpoint(Point(0.5, 0.5), Point(0.0, 0.0), Point(1.0, 1.0))
  {}

  /** A run that ends normally although it takes a flooded street for a dry one. */
  lemma {:induction false} SilentlyDryRun()
    ensures var nodes := [Point(0.0, 0.0), Point(1.0, 1.0)];
            && !Overruns(STREET, SLIPPED, nodes)
            && MidpointDepth(SLIPPED, nodes, 0, 1) == Some(0.0) && ScanDepth(SLIPPED, Point(0.5, 0.5)) == 5.0
            && !Scanned(STREET, SLIPPED, nodes)
  {
    hide *;
    MiddleOfDiagonal();
    var nodes := [Point(0.0, 0.0), Point(1.0, 1.0)];
    SilentlyDry();
    DepthInTheMiddle(SLIPPED, nodes, 0, 1, Point(0.5, 0.5));
    DryStreet(SLIPPED, nodes, Point(0.5, 0.5));
  }

  // ------------------------------------------------------------------ undirected accounting

  /** The scaled graph of an undirected network stays undirected. */
  lemma {:induction false} FloodedGraphSymmetric(n: nat, edges: seq<Edge>, zones: seq<FloodZone>, nodes: seq<Point>,
                                                 penalty: real)
    requires EdgesWithin(n, edges) && penalty >= 0.0
    ensures Symmetric(Scaled(AdjacencyOf(n, edges), FloodedFactor(zones, nodes, penalty)))
  {
    hide IndexedDepth, Symmetric, PenaltyForDepth;
    var f := FloodedFactor(zones, nodes, penalty);
    EdgeListSymmetric(n, edges);
    forall u: nat, v: nat ensures f(u, v) == f(v, u) && f(u, v) > 0.0 {
      EdgeDepthSymmetric(zones, nodes, u, v);
      FloodedFactorAtLeastOne(zones, nodes, penalty, u, v);
    }
    ScaledSymmetric(AdjacencyOf(n, edges), f);
  }

  /** Flooded length and slowed count take every undirected segment once, although it is stored twice. */
  lemma FloodedTotalsPerEdge(n: nat, edges: seq<Edge>, zones: seq<FloodZone>, nodes: seq<Point>, penalty: real,
                             distance: Distance)
    requires EdgesWithin(n, edges)
    ensures EntrySum(AdjacencyOf(n, edges), FloodedLength(zones, nodes, distance))
            == EdgeSum(edges, FloodedLength(zones, nodes, distance))
    ensures EntrySum(AdjacencyOf(n, edges), Slowed(FloodedFactor(zones, nodes, penalty)))
            == EdgeSum(edges, Slowed(FloodedFactor(zones, nodes, penalty)))
  {
    EachEdgeOnce(n, edges, FloodedLength(zones, nodes, distance));
    EachEdgeOnce(n, edges, Slowed(FloodedFactor(zones, nodes, penalty)));
  }

  /** The depth the index answers at the point adds something visible to a factor of one. */
  predicate SlowAt(zones: seq<FloodZone>, penalty: real, m: Point) {
    PenaltyForDepth(IndexedDepth(zones, m).GetOr(0.0), penalty) > 1.0 + 0.000000000001
  }

  /** The street between two nodes is slow in its middle. */
  ghost predicate SlowBetween(zones: seq<FloodZone>, nodes: seq<Point>, penalty: real, u: nat, v: nat) {
    u < |nodes| && v < |nodes|
    && exists m: Point :: IsMidpoint(m, nodes[u], nodes[v]) && SlowAt(zones, penalty, m)
  }

  ghost predicate SlowSegment(edges: seq<Edge>, zones: seq<FloodZone>, nodes: seq<Point>, penalty: real, i: nat)
    requires i < |edges|
  {
    edges[i].from != edges[i].to && SlowBetween(zones, nodes, penalty, edges[i].from, edges[i].to)
  }

  lemma SlowedAbove(f: Factor, u: nat, v: nat)
    ensures Slowed(f)(u, v) == if f(u, v) > 1.0 + 0.000000000001 then 1.0 else 0.0
  {}

  lemma {:induction false} SlowedIffSlow(u: nat, v: nat, zones: seq<FloodZone>, nodes: seq<Point>, penalty: real)
    requires u < |nodes| && v < |nodes|
    ensures Slowed(FloodedFactor(zones, nodes, penalty))(u, v)
            == if SlowBetween(zones, nodes, penalty, u, v) then 1.0 else 0.0
  {
    hide IndexedDepth, EdgeDepth, PenaltyForDepth, Slowed;
    var middle := Midpoint(nodes[u], nodes[v]);
    assert IsMidpoint(middle, nodes[u], nodes[v]);
    DepthInTheMiddle(zones, nodes, u, v, middle);
    SlowedAbove(FloodedFactor(zones, nodes, penalty), u, v);
    forall m: Point | IsMidpoint(m, nodes[u], nodes[v]) ensures m == middle {
      OneMiddle(nodes[u], nodes[v], middle, m);
    }
  }

  lemma {:induction false} SlowEitherWay(zones: seq<FloodZone>, nodes: seq<Point>, penalty: real, u: nat, v: nat)
    ensures SlowBetween(zones, nodes, penalty, u, v) == SlowBetween(zones, nodes, penalty, v, u)
  {
    hide SlowAt;
    if u < |nodes| && v < |nodes| {
      forall m: Point ensures IsMidpoint(m, nodes[u], nodes[v]) == IsMidpoint(m, nodes[v], nodes[u]) {}
    }
  }

  lemma {:induction false} EdgeSumStep(edges: seq<Edge>, e: Edge, g: Factor)
    ensures EdgeSum(edges + [e], g)
            == EdgeSum(edges, g) + if e.from == e.to then 0.0
                                   else if e.from < e.to then g(e.from, e.to) else g(e.to, e.from)
  {
    assert (edges + [e])[..|edges|] == edges;
  }

  lemma {:induction false} SlowSegmentsStep(edges: seq<Edge>, e: Edge, zones: seq<FloodZone>, nodes: seq<Point>,
                                            penalty: real)
    ensures |set i | 0 <= i < |edges| + 1 && SlowSegment(edges + [e], zones, nodes, penalty, i)|
            == |set i | 0 <= i < |edges| && SlowSegment(edges, zones, nodes, penalty, i)|
               + if e.from != e.to && SlowBetween(zones, nodes, penalty, e.from, e.to) then 1 else 0
  {
    hide SlowBetween;
    var more := edges + [e];
    var before := set i | 0 <= i < |edges| && SlowSegment(edges, zones, nodes, penalty, i);
    forall i | 0 <= i < |edges|
      ensures SlowSegment(edges, zones, nodes, penalty, i) == SlowSegment(more, zones, nodes, penalty, i)
    {
      assert edges[i] == more[i];
    }
    assert (set i | 0 <= i < |edges| + 1 && SlowSegment(more, zones, nodes, penalty, i))
        == before + if SlowSegment(more, zones, nodes, penalty, |edges|) then {|edges|} else {};
  }

  /** The reported count is the number of segments that are no loop and are slower in the flood. */
  lemma {:induction false} FloodedEdgesCounted(edges: seq<Edge>, zones: seq<FloodZone>, nodes: seq<Point>,
                                               penalty: real)
    requires EdgesWithin(|nodes|, edges)
    ensures EdgeSum(edges, Slowed(FloodedFactor(zones, nodes, penalty)))
            == |set i | 0 <= i < |edges| && SlowSegment(edges, zones, nodes, penalty, i)| as real
  {
    if edges == [] {
      assert EdgeSum(edges, Slowed(FloodedFactor(zones, nodes, penalty))) == 0.0;
    } else {
      hide FloodedFactor, Slowed, SlowBetween, SlowSegment, EdgeSum;
      var init, e := edges[..|edges| - 1], edges[|edges| - 1];
      FloodedEdgesCounted(init, zones, nodes, penalty);
      assert e in edges && edges == init + [e];
      EdgeSumStep(init, e, Slowed(FloodedFactor(zones, nodes, penalty)));
      SlowSegmentsStep(init, e, zones, nodes, penalty);
      SlowedIffSlow(e.from, e.to, zones, nodes, penalty);
      SlowedIffSlow(e.to, e.from, zones, nodes, penalty);
      SlowEitherWay(zones, nodes, penalty, e.from, e.to);
    }
  }

  // ------------------------------------------------------------------ the route sanity check

  function ReachableCount(times: seq<Option<real>>, probes: seq<nat>): nat {
    if probes == [] then 0
    else ReachableCount(times, probes[..|probes| - 1])
         + if At(times, probes[|probes| - 1]).Some? then 1 else 0
  }

  /** Pairs (b, c) with b reachable from this row's probe and c reachable from b. */
  function PairCount(times: seq<Option<real>>, table: seq<seq<Option<real>>>, probes: seq<nat>, n: nat): nat
    requires n <= |table| && n <= |probes|
  {
    if n == 0 then 0
    else PairCount(times, table, probes, n - 1)
         + if At(times, probes[n - 1]).Some? then ReachableCount(table[n - 1], probes) else 0
  }

  function TripleCount(table: seq<seq<Option<real>>>, probes: seq<nat>, n: nat): nat
    requires n <= |table| == |probes|
  {
    if n == 0 then 0
    else TripleCount(table, probes, n - 1) + PairCount(table[n - 1], table, probes, |probes|)
  }

  /** Probe `j` is reachable from probe `i`, as the table of times has it. */
  predicate Reaches(table: seq<seq<Option<real>>>, probes: seq<nat>, i: nat, j: nat)
    requires i < |table| == |probes| && j < |probes|
  {
    probes[j] < |table[i]| && table[i][probes[j]].Some?
  }

  /** Triples of probe positions of which each reaches the next. */
  function Triples(table: seq<seq<Option<real>>>, probes: seq<nat>): set<(nat, nat, nat)>
    requires |table| == |probes|
  {
    set i: nat, j: nat, k: nat |
      0 <= i < |probes| && 0 <= j < |probes| && 0 <= k < |probes|
      && Reaches(table, probes, i, j) && Reaches(table, probes, j, k) :: (i, j, k)
  }

  /** The part of the triples below the given positions, in the order in which the loops meet them. */
  ghost predicate Met(triples: set<(nat, nat, nat)>, table: seq<seq<Option<real>>>, probes: seq<nat>, a: nat, b: nat,
                      c: nat)
    requires |table| == |probes|
  {
    forall t: (nat, nat, nat) :: t in triples <==>
      && t.0 < |probes| && t.1 < |probes| && t.2 < |probes|
      && Reaches(table, probes, t.0, t.1) && Reaches(table, probes, t.1, t.2)
      && (t.0 < a || (t.0 == a && (t.1 < b || (t.1 == b && t.2 < c))))
  }

  lemma ReachesAt(table: seq<seq<Option<real>>>, probes: seq<nat>, i: nat, j: nat)
    requires i < |table| == |probes| && j < |probes|
    ensures Reaches(table, probes, i, j) == At(table[i], probes[j]).Some?
  {}

  lemma {:induction false} CountedRow(table: seq<seq<Option<real>>>, probes: seq<nat>, a: nat, b: nat, c: nat,
                                      before: set<(nat, nat, nat)>)
    returns (triples: set<(nat, nat, nat)>)
    requires |table| == |probes| && a < |probes| && b < |probes| && c <= |probes| && Reaches(table, probes, a, b)
    requires Met(before, table, probes, a, b, 0)
    ensures Met(triples, table, probes, a, b, c)
    ensures |triples| == |before| + ReachableCount(table[b], probes[..c])
  {
    hide Reaches;
    if c == 0 {
      triples := before;
    } else {
      triples := CountedRow(table, probes, a, b, c - 1, before);
      assert probes[..c][..c - 1] == probes[..c - 1];
      ReachesAt(table, probes, b, c - 1);
      if Reaches(table, probes, b, c - 1) {
        triples := triples + {(a, b, c - 1)};
      }
    }
  }

  lemma {:induction false} CountedPairs(table: seq<seq<Option<real>>>, probes: seq<nat>, a: nat, n: nat,
                                        before: set<(nat, nat, nat)>)
    returns (triples: set<(nat, nat, nat)>)
    requires |table| == |probes| && a < |probes| && n <= |probes| && Met(before, table, probes, a, 0, 0)
    ensures Met(triples, table, probes, a, n, 0)
    ensures |triples| == |before| + PairCount(table[a], table, probes, n)
  {
    hide Reaches, ReachableCount;
    if n == 0 {
      triples := before;
    } else {
      triples := CountedPairs(table, probes, a, n - 1, before);
      ReachesAt(table, probes, a, n - 1);
      if Reaches(table, probes, a, n - 1) {
        triples := CountedRow(table, probes, a, n - 1, |probes|, triples);
        assert probes[..|probes|] == probes;
      }
    }
  }

  lemma {:induction false} CountedTriples(table: seq<seq<Option<real>>>, probes: seq<nat>, n: nat)
    returns (triples: set<(nat, nat, nat)>)
    requires |table| == |probes| && n <= |probes|
    ensures Met(triples, table, probes, n, 0, 0)
    ensures |triples| == TripleCount(table, probes, n)
  {
    hide Reaches, PairCount;
    if n == 0 {
      triples := {};
    } else {
      triples := CountedTriples(table, probes, n - 1);
      triples := CountedPairs(table, probes, n - 1, |probes|, triples);
    }
  }

  /** The nested counts visit every triple once. */
  lemma {:induction false} TripleCountIsCardinality(table: seq<seq<Option<real>>>, probes: seq<nat>)
    requires |table| == |probes|
    ensures TripleCount(table, probes, |probes|) == |Triples(table, probes)|
  {
    hide Reaches, TripleCount;
    var triples := CountedTriples(table, probes, |probes|);
    assert triples == Triples(table, probes);
  }

  /** Position of a node among the probes; the original falls back to slot zero. */
  method ProbeSlot(probes: seq<nat>, node: nat) returns (slot: nat)
    requires node in probes
    ensures slot < |probes| && probes[slot] == node
  {
    slot := 0;
    for i := 0 to |probes|
      invariant forall k :: 0 <= k < i ==> probes[k] != node
    {
      if probes[i] == node {
        return i;
      }
    }
  }

  /** The innermost loop: every c reachable from b. */
  method ProbeRow(adj: Adjacency, probes: seq<nat>, a: nat, j: nat, timesA: seq<Option<real>>,
                  timesB: seq<Option<real>>)
    returns (ok: bool, samples: nat)
    requires a < |probes| && j < |probes| && At(timesA, probes[j]).Some?
    requires AreTravelTimes(adj, probes[a], timesA) && AreTravelTimes(adj, probes[j], timesB)
    ensures ok && samples == ReachableCount(timesB, probes)
  {
    hide IsTravelTime;
    ok, samples := true, 0;
    var ab := At(timesA, probes[j]).value;
    for k := 0 to |probes|
      invariant ok && samples == ReachableCount(timesB, probes[..k])
    {
      assert probes[..k + 1][..k] == probes[..k];
      var c := probes[k];
      var bc := At(timesB, c);
      if bc.Some? {
        var ac := At(timesA, c);
        TravelTimesTriangle(adj, probes[a], probes[j], c, ab, bc.value, ac);
        if ac.None? || ac.value > ab + bc.value + 0.000000001 {
          ok := false;
        }
        samples := samples + 1;
      }
    }
    assert probes[..|probes|] == probes;
  }

  /**
   * The check visits every reachable triple of probe nodes and can never fail: the recorded
   * times are least walk costs, and those obey the triangle inequality.
   */
  method TriangleProbe(adj: Adjacency, probes: seq<nat>)
    returns (ok: bool, samples: nat, table: seq<seq<Option<real>>>)
    requires WellFormed(adj) && NonNegative(adj) && forall probe <- probes :: probe < |adj|
    ensures ok
    ensures |table| == |probes| && forall i :: 0 <= i < |probes| ==> AreTravelTimes(adj, probes[i], table[i])
    ensures samples == |Triples(table, probes)|
  {
    hide Triples, AreTravelTimes, WellFormed, NonNegative, NonNegativeFrom;
    table := [];
    for i := 0 to |probes|
      invariant |table| == i && forall k :: 0 <= k < i ==> AreTravelTimes(adj, probes[k], table[k])
    {
      assert probes[i] in probes;
      NonNegativeReachably(adj, probes[i]);
      var times := TravelTimesFrom(adj, probes[i]);
      table := table + [times];
    }
    ok, samples := true, 0;
    for a := 0 to |probes|
      invariant ok && samples == TripleCount(table, probes, a)
    {
      for j := 0 to |probes|
        invariant ok && samples == TripleCount(table, probes, a) + PairCount(table[a], table, probes, j)
      {
        var b := probes[j];
        var ab := At(table[a], b);
        if ab.Some? {
          assert b in probes;
          var slot := ProbeSlot(probes, b);
          TravelTimesUnique(adj, b, table[slot], table[j]);
          var rowOk, rowSamples := ProbeRow(adj, probes, a, j, table[a], table[slot]);
          ok := ok && rowOk;
          samples := samples + rowSamples;
        }
      }
    }
    TripleCountIsCardinality(table, probes);
  }
}
