/**
 * The walk-network graph: crates/genegis-network/src/lib.rs.
 *
 * Travel times are specified by walks: a walk picks one adjacency slot after another and costs
 * the sum of their minutes.  `TravelTimesFrom` is Dijkstra's algorithm as written there, with a
 * heap that keeps stale entries, and is proved to return the least cost over all walks.
 */
module WalkNetwork {
  import opened Common

  /** One adjacency entry: neighbour node and cost in minutes. */
  datatype Slot = Slot(to: nat, cost: real)

  type Adjacency = seq<seq<Slot>>

  predicate WellFormed(adj: Adjacency) {
    forall u :: 0 <= u < |adj| ==> forall slot <- adj[u] :: slot.to < |adj|
  }

  predicate NonNegative(adj: Adjacency) {
    forall u :: 0 <= u < |adj| ==> forall slot <- adj[u] :: slot.cost >= 0.0
  }

  // ------------------------------------------------------------------ walks

  datatype Walk = Stay | Then(prefix: Walk, slot: Slot)

  function End(origin: nat, w: Walk): nat {
    match w
    case Stay => origin
    case Then(_, slot) => slot.to
  }

  function Minutes(w: Walk): real {
    match w
    case Stay => 0.0
    case Then(prefix, slot) => Minutes(prefix) + slot.cost
  }

  ghost predicate IsWalk(adj: Adjacency, origin: nat, w: Walk) {
    match w
    case Stay => origin < |adj|
    case Then(prefix, slot) =>
      IsWalk(adj, origin, prefix) && End(origin, prefix) < |adj| && slot in adj[End(origin, prefix)]
  }

  ghost predicate Joins(adj: Adjacency, origin: nat, node: nat, w: Walk) {
    IsWalk(adj, origin, w) && End(origin, w) == node
  }

  /** `time` is the least cost over all walks from `origin` to `node`, None when there is none. */
  ghost predicate IsTravelTime(adj: Adjacency, origin: nat, node: nat, time: Option<real>) {
    match time
    case None => forall w :: !Joins(adj, origin, node, w)
    case Some(t) =>
      && (exists w :: Joins(adj, origin, node, w) && Minutes(w) == t)
      && (forall w :: Joins(adj, origin, node, w) ==> t <= Minutes(w))
  }

  ghost predicate Reachable(adj: Adjacency, origin: nat, node: nat) {
    exists w :: Joins(adj, origin, node, w)
  }

  predicate SlotsNonNegative(row: seq<Slot>) {
    forall slot <- row :: slot.cost >= 0.0
  }

  /** No street in reach of the origin costs less than nothing. */
  ghost predicate NonNegativeFrom(adj: Adjacency, origin: nat) {
    forall v: nat :: v < |adj| && Reachable(adj, origin, v) ==> SlotsNonNegative(adj[v])
  }

  ghost predicate AreTravelTimes(adj: Adjacency, origin: nat, times: seq<Option<real>>) {
    |times| == |adj| && forall v :: 0 <= v < |adj| ==> IsTravelTime(adj, origin, v, times[v])
  }

  lemma TravelTimeUnique(adj: Adjacency, origin: nat, node: nat, t1: Option<real>, t2: Option<real>)
    requires IsTravelTime(adj, origin, node, t1) && IsTravelTime(adj, origin, node, t2)
    ensures t1 == t2
  {}

  // ------------------------------------------------------------------ Dijkstra's algorithm

  datatype QueueEntry = QueueEntry(cost: real, node: nat)

  /** The heap's order: cheaper first, then the larger node. */
  predicate Before(a: QueueEntry, b: QueueEntry) {
    a.cost < b.cost || (a.cost == b.cost && a.node >= b.node)
  }

  predicate First(e: QueueEntry, heap: multiset<QueueEntry>) {
    e in heap && forall other <- heap :: Before(e, other)
  }

  lemma {:induction false} HeapHasFirst(heap: multiset<QueueEntry>)
    requires heap != multiset{}
    ensures exists e :: First(e, heap)
    decreases |heap|
  {
    var some :| some in heap;
    var rest := heap - multiset{some};
    if rest == multiset{} {
      assert heap[some] == 1;
      assert forall other <- heap :: other == some || other in rest;
      assert First(some, heap);
    } else {
      HeapHasFirst(rest);
      var e :| First(e, rest);
      var first := if Before(e, some) then e else some;
      forall other | other in heap ensures Before(first, other) {
        assert other == some || other in rest;
      }
      assert First(first, heap);
    }
  }

  /** The standard library's heap: removes the greatest entry of its order. */
  method Pop(heap: multiset<QueueEntry>) returns (entry: QueueEntry, rest: multiset<QueueEntry>)
    requires heap != multiset{}
    ensures First(entry, heap)
    ensures rest == heap - multiset{entry}
  {
    HeapHasFirst(heap);
    entry :| entry in heap && First(entry, heap);
    rest := heap - multiset{entry};
  }

  /** Every known time is the cost of a walk. */
  ghost predicate Attained(adj: Adjacency, origin: nat, times: seq<Option<real>>) {
    |times| == |adj| && origin < |adj| && times[origin].Some? && times[origin].value <= 0.0
    && forall v :: 0 <= v < |adj| && times[v].Some? ==>
         exists w :: Joins(adj, origin, v, w) && Minutes(w) == times[v].value
  }

  ghost predicate NoGain(times: seq<Option<real>>, u: nat, slot: Slot)
    requires u < |times| && slot.to < |times|
  {
    times[u].Some? && times[slot.to].Some? && times[slot.to].value <= times[u].value + slot.cost
  }

  /** The slots of settled nodes, and the first `k` slots of `u`, cannot improve any time. */
  ghost predicate Relaxed(adj: Adjacency, times: seq<Option<real>>, u: nat, k: nat)
    requires |times| == |adj| && WellFormed(adj)
    requires u < |adj| && k <= |adj[u]|
  {
    times[u].Some? && forall j :: 0 <= j < k ==> NoGain(times, u, adj[u][j])
  }

  ghost predicate Settled(adj: Adjacency, times: seq<Option<real>>, settled: set<nat>)
    requires |times| == |adj| && WellFormed(adj)
  {
    forall u <- settled :: u < |adj| && Relaxed(adj, times, u, |adj[u]|)
  }

  /**
   * Heap bookkeeping: known times that are not settled wait in the heap, an entry never beats
   * the known time of its node, and a settled node has no entry left at its known time.
   */
  ghost predicate Queued(times: seq<Option<real>>, heap: multiset<QueueEntry>, settled: set<nat>) {
    && (forall e :: e in heap ==>
          e.node < |times| && times[e.node].Some? && times[e.node].value <= e.cost)
    && (forall v :: 0 <= v < |times| && times[v].Some? ==>
          heap[QueueEntry(times[v].value, v)] == if v in settled then 0 else 1)
  }

  /** No settled time exceeds `floor`, and nothing in the heap is below it. */
  ghost predicate Sweeping(times: seq<Option<real>>, heap: multiset<QueueEntry>, settled: set<nat>, floor: real) {
    && (forall v <- settled :: v < |times| && times[v].Some? && times[v].value <= floor)
    && (forall e :: e in heap ==> floor <= e.cost)
  }

  lemma WalkExtends(adj: Adjacency, origin: nat, times: seq<Option<real>>, u: nat, slot: Slot)
    requires Attained(adj, origin, times) && u < |adj| && times[u].Some? && slot in adj[u]
    ensures exists w :: Joins(adj, origin, slot.to, w) && Minutes(w) == times[u].value + slot.cost
  {
    var w :| Joins(adj, origin, u, w) && Minutes(w) == times[u].value;
    assert Joins(adj, origin, slot.to, Then(w, slot));
    assert Minutes(Then(w, slot)) == times[u].value + slot.cost;
  }

  /** A cheaper offer for a node that is not settled keeps every known time a walk's cost. */
  lemma OfferAttained(adj: Adjacency, origin: nat, times: seq<Option<real>>, u: nat, slot: Slot)
    requires WellFormed(adj) && Attained(adj, origin, times)
    requires u < |adj| && times[u].Some? && slot in adj[u]
    requires times[slot.to].None? || times[u].value + slot.cost < times[slot.to].value
    ensures Attained(adj, origin, times[slot.to := Some(times[u].value + slot.cost)])
  {
    WalkExtends(adj, origin, times, u, slot);
  }

  lemma OfferRelaxed(adj: Adjacency, times: seq<Option<real>>, settled: set<nat>, u: nat, k: nat, to: nat, next: real)
    requires WellFormed(adj) && |times| == |adj| && Settled(adj, times, settled)
    requires u < |adj| && k <= |adj[u]| && Relaxed(adj, times, u, k)
    requires to < |adj| && to !in settled && to != u
    requires times[to].None? || next < times[to].value
    ensures Settled(adj, times[to := Some(next)], settled)
    ensures Relaxed(adj, times[to := Some(next)], u, k)
  {}

  lemma OfferQueued(times: seq<Option<real>>, heap: multiset<QueueEntry>, done: set<nat>, to: nat, next: real,
                    floor: real)
    requires Queued(times, heap, done) && Sweeping(times, heap, done, floor)
    requires to < |times| && floor <= next
    requires times[to].None? || next < times[to].value
    ensures to !in done
    ensures Queued(times[to := Some(next)], heap + multiset{QueueEntry(next, to)}, done)
    ensures Sweeping(times[to := Some(next)], heap + multiset{QueueEntry(next, to)}, done, floor)
  {
    assert QueueEntry(next, to) !in heap;
  }

  lemma SlotRelaxed(adj: Adjacency, times: seq<Option<real>>, u: nat, k: nat)
    requires WellFormed(adj) && |times| == |adj|
    requires u < |adj| && k < |adj[u]| && Relaxed(adj, times, u, k)
    requires times[adj[u][k].to].Some? && times[adj[u][k].to].value <= times[u].value + adj[u][k].cost
    ensures Relaxed(adj, times, u, k + 1)
  {}

  /** The search after the first k slots of the popped node have been offered. */
  ghost predicate Relaxing(adj: Adjacency, origin: nat, times: seq<Option<real>>, heap: multiset<QueueEntry>,
                           settled: set<nat>, entry: QueueEntry, k: nat)
    requires WellFormed(adj)
  {
    && |times| == |adj| && entry.node < |adj| && k <= |adj[entry.node]|
    && entry.node !in settled && times[entry.node] == Some(entry.cost)
    && Attained(adj, origin, times) && Settled(adj, times, settled) && Relaxed(adj, times, entry.node, k)
    && Queued(times, heap, settled + {entry.node}) && Sweeping(times, heap, settled + {entry.node}, entry.cost)
  }

  lemma SlotIsSane(adj: Adjacency, u: nat, k: nat)
    requires WellFormed(adj) && u < |adj| && k < |adj[u]| && SlotsNonNegative(adj[u])
    ensures adj[u][k] in adj[u] && adj[u][k].to < |adj| && adj[u][k].cost >= 0.0
  {}

  /** Offering one more slot: a cheaper time is recorded and queued, any other is dropped. */
  lemma SlotOffered(adj: Adjacency, origin: nat, times: seq<Option<real>>, heap: multiset<QueueEntry>,
                    settled: set<nat>, entry: QueueEntry, k: nat)
    requires WellFormed(adj) && Relaxing(adj, origin, times, heap, settled, entry, k)
    requires k < |adj[entry.node]| && SlotsNonNegative(adj[entry.node])
    ensures var slot := adj[entry.node][k];
            var next := entry.cost + slot.cost;
            && slot.to < |times|
            && Relaxing(adj, origin,
                        if times[slot.to].None? || next < times[slot.to].value
                        then times[slot.to := Some(next)] else times,
                        if times[slot.to].None? || next < times[slot.to].value
                        then heap + multiset{QueueEntry(next, slot.to)}
                        else heap,
                        settled, entry, k + 1)
  {
    hide Attained, Settled, Queued, Sweeping, Relaxed, WellFormed, SlotsNonNegative;
    SlotIsSane(adj, entry.node, k);
    var slot := adj[entry.node][k];
    var next := entry.cost + slot.cost;
    if times[slot.to].None? || next < times[slot.to].value {
      OfferQueued(times, heap, settled + {entry.node}, slot.to, next, entry.cost);
      OfferAttained(adj, origin, times, entry.node, slot);
      OfferRelaxed(adj, times, settled, entry.node, k, slot.to, next);
      SlotRelaxed(adj, times[slot.to := Some(next)], entry.node, k);
    } else {
      SlotRelaxed(adj, times, entry.node, k);
    }
  }

  /** Offer every slot of a freshly popped node: the inner loop of the search. */
  method RelaxSlots(adj: Adjacency, origin: nat, times0: seq<Option<real>>, heap0: multiset<QueueEntry>,
                    entry: QueueEntry, ghost settled: set<nat>)
    returns (times: seq<Option<real>>, heap: multiset<QueueEntry>)
    requires WellFormed(adj) && entry.node < |adj| && SlotsNonNegative(adj[entry.node])
    requires Relaxing(adj, origin, times0, heap0, settled, entry, 0)
    ensures Relaxing(adj, origin, times, heap, settled, entry, |adj[entry.node]|)
  {
    hide WellFormed, SlotsNonNegative, Attained, Settled, Queued, Sweeping, Relaxed;
    times, heap := times0, heap0;
    for k := 0 to |adj[entry.node]|
      invariant Relaxing(adj, origin, times, heap, settled, entry, k)
    {
      SlotOffered(adj, origin, times, heap, settled, entry, k);
      var slot := adj[entry.node][k];
      var next := entry.cost + slot.cost;
      if times[slot.to].None? || next < times[slot.to].value {
        times := times[slot.to := Some(next)];
        heap := heap + multiset{QueueEntry(next, slot.to)};
      }
    }
  }

  lemma NothingRelaxed(adj: Adjacency, times: seq<Option<real>>, u: nat)
    requires WellFormed(adj) && |times| == |adj| && u < |adj| && times[u].Some?
    ensures Relaxed(adj, times, u, 0)
  {}

  lemma NodeSettled(adj: Adjacency, times: seq<Option<real>>, settled: set<nat>, u: nat)
    requires WellFormed(adj) && |times| == |adj| && u < |adj|
    requires Settled(adj, times, settled) && Relaxed(adj, times, u, |adj[u]|)
    ensures Settled(adj, times, settled + {u})
  {}

  /** Once the heap is empty no walk beats the known times, and unknown nodes have no walk. */
  lemma {:induction false} NoWalkBeats(adj: Adjacency, origin: nat, times: seq<Option<real>>, settled: set<nat>,
                                       w: Walk)
    requires WellFormed(adj) && Attained(adj, origin, times) && Settled(adj, times, settled)
    requires forall v :: 0 <= v < |adj| && times[v].Some? ==> v in settled
    requires IsWalk(adj, origin, w)
    ensures End(origin, w) < |adj| && times[End(origin, w)].Some? && times[End(origin, w)].value <= Minutes(w)
  {
    match w
    case Stay =>
    case Then(prefix, slot) =>
      NoWalkBeats(adj, origin, times, settled, prefix);
      var u := End(origin, prefix);
      var j :| 0 <= j < |adj[u]| && adj[u][j] == slot;
      assert NoGain(times, u, adj[u][j]);
  }

  ghost predicate Searching(adj: Adjacency, origin: nat, times: seq<Option<real>>, heap: multiset<QueueEntry>,
                            settled: set<nat>, floor: real)
    requires WellFormed(adj)
  {
    && Attained(adj, origin, times) && Settled(adj, times, settled)
    && Queued(times, heap, settled) && Sweeping(times, heap, settled, floor)
  }

  lemma SearchStarts(adj: Adjacency, origin: nat, times: seq<Option<real>>)
    requires WellFormed(adj) && origin < |adj|
    requires times == seq(|adj|, _ => None)[origin := Some(0.0)]
    ensures Searching(adj, origin, times, multiset{QueueEntry(0.0, origin)}, {}, 0.0)
  {
    assert Joins(adj, origin, origin, Stay) && Minutes(Stay) == 0.0;
  }

  lemma SearchIsSized(adj: Adjacency, origin: nat, times: seq<Option<real>>, heap: multiset<QueueEntry>,
                      settled: set<nat>, floor: real)
    requires WellFormed(adj) && Searching(adj, origin, times, heap, settled, floor)
    ensures |times| == |adj| && forall u <- settled :: u < |adj|
  {}

  /** A popped entry is stale or carries the known time of a node that is not settled yet. */
  lemma AfterPop(adj: Adjacency, origin: nat, times: seq<Option<real>>, heap: multiset<QueueEntry>,
                 settled: set<nat>, floor: real, entry: QueueEntry)
    requires WellFormed(adj) && Searching(adj, origin, times, heap, settled, floor)
    requires First(entry, heap)
    ensures entry.node < |adj| && times[entry.node].Some?
    ensures var rest := heap - multiset{entry};
            if entry.cost > times[entry.node].value then
              Searching(adj, origin, times, rest, settled, floor)
            else
              entry.node !in settled && Relaxing(adj, origin, times, rest, settled, entry, 0)
  {
    hide Attained, Settled, Relaxed;
    assert forall e :: e in heap - multiset{entry} ==> e in heap;
    SearchIsSized(adj, origin, times, heap, settled, floor);
    if entry.cost <= times[entry.node].value {
      NothingRelaxed(adj, times, entry.node);
    }
  }

  /** With all its slots offered the popped node is settled. */
  lemma SlotsDone(adj: Adjacency, origin: nat, times: seq<Option<real>>, heap: multiset<QueueEntry>,
                  settled: set<nat>, entry: QueueEntry)
    requires WellFormed(adj) && entry.node < |adj|
    requires Relaxing(adj, origin, times, heap, settled, entry, |adj[entry.node]|)
    ensures Searching(adj, origin, times, heap, settled + {entry.node}, entry.cost)
  {
    hide Attained, Settled, Queued, Sweeping, Relaxed;
    NodeSettled(adj, times, settled, entry.node);
  }

  lemma SearchEnds(adj: Adjacency, origin: nat, times: seq<Option<real>>, settled: set<nat>, floor: real)
    requires WellFormed(adj) && Searching(adj, origin, times, multiset{}, settled, floor)
    ensures AreTravelTimes(adj, origin, times)
  {
    forall v | 0 <= v < |adj| && times[v].Some? ensures v in settled {
      assert multiset{}[QueueEntry(times[v].value, v)] == 0;
    }
    forall v | 0 <= v < |adj| ensures IsTravelTime(adj, origin, v, times[v]) {
      forall w | Joins(adj, origin, v, w) ensures times[v].Some? && times[v].value <= Minutes(w) {
        NoWalkBeats(adj, origin, times, settled, w);
      }
    }
  }

  /** A node with a known time is reachable, so its slots cost nothing below zero. */
  lemma {:induction false} KnownNodeSlots(adj: Adjacency, origin: nat, times: seq<Option<real>>,
                                          heap: multiset<QueueEntry>,
                                          settled: set<nat>, entry: QueueEntry)
    requires WellFormed(adj) && NonNegativeFrom(adj, origin)
    requires Relaxing(adj, origin, times, heap, settled, entry, 0)
    ensures entry.node < |adj| && SlotsNonNegative(adj[entry.node])
  {
    hide Settled, Queued, Sweeping, Relaxed, Joins, SlotsNonNegative;
    var w :| Joins(adj, origin, entry.node, w) && Minutes(w) == entry.cost;
  }

  lemma EntryRemoved(heap: multiset<QueueEntry>, entry: QueueEntry)
    requires First(entry, heap)
    ensures |heap - multiset{entry}| < |heap|
  {}

  method TravelTimesFrom(adj: Adjacency, origin: nat) returns (times: seq<Option<real>>)
    requires WellFormed(adj) && origin < |adj| && NonNegativeFrom(adj, origin)
    ensures AreTravelTimes(adj, origin, times)
  {
    hide NonNegativeFrom, SlotsNonNegative, Attained, Settled, Queued, Sweeping, First, AreTravelTimes, Relaxing;
    hide Searching;
    times := seq(|adj|, _ => None)[origin := Some(0.0)];
    var heap := multiset{QueueEntry(0.0, origin)};
    ghost var settled: set<nat> := {};
    ghost var floor := 0.0;
    ghost var nodes := set v: nat {:trigger v in settled} | v < |adj|;
    SearchStarts(adj, origin, times);
    while heap != multiset{}
      invariant Searching(adj, origin, times, heap, settled, floor)
      decreases nodes - settled, |heap|
    {
      var entry, rest := Pop(heap);
      AfterPop(adj, origin, times, heap, settled, floor, entry);
      SearchIsSized(adj, origin, times, heap, settled, floor);
      ghost var heapBefore := heap;
      heap := rest;
      if times[entry.node].Some? && entry.cost > times[entry.node].value {
        EntryRemoved(heapBefore, entry);
        continue;
      }
      assert nodes - (settled + {entry.node}) < nodes - settled by {
        assert entry.node in nodes - settled;
      }
      KnownNodeSlots(adj, origin, times, rest, settled, entry);
      times, heap := RelaxSlots(adj, origin, times, heap, entry, settled);
      SlotsDone(adj, origin, times, heap, settled, entry);
      settled, floor := settled + {entry.node}, entry.cost;
    }
    SearchEnds(adj, origin, times, settled, floor);
  }

  lemma {:induction false} NonNegativeReachably(adj: Adjacency, origin: nat)
    requires NonNegative(adj)
    ensures NonNegativeFrom(adj, origin)
  {}

  // ------------------------------------------------------------------ times, street by street

  lemma BestWalk(adj: Adjacency, origin: nat, node: nat, t: real) returns (w: Walk)
    requires IsTravelTime(adj, origin, node, Some(t))
    ensures Joins(adj, origin, node, w) && Minutes(w) == t
  {
    w :| Joins(adj, origin, node, w) && Minutes(w) == t;
  }

  lemma {:induction false} WalkNotNegative(adj: Adjacency, origin: nat, w: Walk)
    requires NonNegativeFrom(adj, origin) && IsWalk(adj, origin, w)
    ensures Minutes(w) >= 0.0
  {
    match w
    case Stay =>
    case Then(prefix, slot) =>
      WalkNotNegative(adj, origin, prefix);
      assert Joins(adj, origin, End(origin, prefix), prefix);
  }

  /** The origin is reached at once. */
  lemma {:induction false} TimeAtOrigin(adj: Adjacency, origin: nat, times: seq<Option<real>>)
    requires NonNegativeFrom(adj, origin) && origin < |adj| && AreTravelTimes(adj, origin, times)
    ensures times[origin] == Some(0.0)
  {
    assert IsTravelTime(adj, origin, origin, times[origin]);
    assert Joins(adj, origin, origin, Stay) && Minutes(Stay) == 0.0;
    var w := BestWalk(adj, origin, origin, times[origin].value);
    WalkNotNegative(adj, origin, w);
  }

  /** No street leads to a later time than its own minutes allow. */
  lemma {:induction false} StreetBoundsTime(adj: Adjacency, origin: nat, times: seq<Option<real>>, u: nat, slot: Slot)
    requires AreTravelTimes(adj, origin, times) && u < |adj| && slot in adj[u] && slot.to < |adj|
    requires times[u].Some?
    ensures times[slot.to].Some? && times[slot.to].value <= times[u].value + slot.cost
  {
    assert IsTravelTime(adj, origin, u, times[u]) && IsTravelTime(adj, origin, slot.to, times[slot.to]);
    var w := BestWalk(adj, origin, u, times[u].value);
    assert Joins(adj, origin, slot.to, Then(w, slot));
  }

  /** Every other known time is that of a neighbour plus the minutes of the street between them. */
  lemma {:induction false} LastStreet(adj: Adjacency, origin: nat, times: seq<Option<real>>, v: nat)
    returns (u: nat, slot: Slot)
    requires AreTravelTimes(adj, origin, times) && v < |adj| && v != origin && times[v].Some?
    ensures u < |adj| && slot in adj[u] && slot.to == v
    ensures times[u].Some? && times[v].value == times[u].value + slot.cost
  {
    assert IsTravelTime(adj, origin, v, times[v]);
    var w := BestWalk(adj, origin, v, times[v].value);
    u, slot := End(origin, w.prefix), w.slot;
    assert Joins(adj, origin, u, w.prefix) && IsTravelTime(adj, origin, u, times[u]);
    StreetBoundsTime(adj, origin, times, u, slot);
  }

  // ------------------------------------------------------------------ joining walks

  function Append(w1: Walk, w2: Walk): Walk {
    match w2
    case Stay => w1
    case Then(prefix, slot) => Then(Append(w1, prefix), slot)
  }

  lemma {:induction false} AppendJoins(adj: Adjacency, a: nat, b: nat, w1: Walk, w2: Walk)
    requires Joins(adj, a, b, w1) && IsWalk(adj, b, w2)
    ensures Joins(adj, a, End(b, w2), Append(w1, w2))
    ensures Minutes(Append(w1, w2)) == Minutes(w1) + Minutes(w2)
  {
    match w2
    case Stay =>
    case Then(prefix, slot) => AppendJoins(adj, a, b, w1, prefix);
  }

  /** Going through an intermediate node never beats the direct travel time. */
  lemma TravelTimesTriangle(adj: Adjacency, a: nat, b: nat, c: nat, ab: real, bc: real, ac: Option<real>)
    requires IsTravelTime(adj, a, b, Some(ab)) && IsTravelTime(adj, b, c, Some(bc))
    requires IsTravelTime(adj, a, c, ac)
    ensures ac.Some? && ac.value <= ab + bc
  {
    var w1 :| Joins(adj, a, b, w1) && Minutes(w1) == ab;
    var w2 :| Joins(adj, b, c, w2) && Minutes(w2) == bc;
    AppendJoins(adj, a, b, w1, w2);
    assert Joins(adj, a, c, Append(w1, w2));
  }

  // ------------------------------------------------------------------ scaling the edge costs

  /** A number for every directed pair of nodes. */
  type Factor = (nat, nat) -> real

  function ScaledSlot(slot: Slot, u: nat, f: Factor): Slot {
    Slot(slot.to, slot.cost * f(u, slot.to))
  }

  function ScaledRow(row: seq<Slot>, u: nat, f: Factor): (r: seq<Slot>)
    ensures |r| == |row|
    ensures forall k :: 0 <= k < |row| ==> r[k] == ScaledSlot(row[k], u, f)
  {
    seq(|row|, k requires 0 <= k < |row| => ScaledSlot(row[k], u, f))
  }

  /** Every directed entry multiplied by the factor of its two ends. */
  function Scaled(adj: Adjacency, f: Factor): (r: Adjacency)
    ensures |r| == |adj|
    ensures forall u :: 0 <= u < |adj| ==> r[u] == ScaledRow(adj[u], u, f)
  {
    seq(|adj|, u requires 0 <= u < |adj| => ScaledRow(adj[u], u, f))
  }

  function Rescale(origin: nat, w: Walk, f: Factor): Walk {
    match w
    case Stay => Stay
    case Then(prefix, slot) =>
      Then(Rescale(origin, prefix, f), ScaledSlot(slot, End(origin, prefix), f))
  }

  lemma {:induction false} RescaledIsWalk(adj: Adjacency, origin: nat, w: Walk, f: Factor)
    requires IsWalk(adj, origin, w)
    ensures IsWalk(Scaled(adj, f), origin, Rescale(origin, w, f))
    ensures End(origin, Rescale(origin, w, f)) == End(origin, w)
  {
    match w
    case Stay =>
    case Then(prefix, slot) =>
      RescaledIsWalk(adj, origin, prefix, f);
      var u := End(origin, prefix);
      var k :| 0 <= k < |adj[u]| && adj[u][k] == slot;
      assert Scaled(adj, f)[u][k] == ScaledSlot(slot, u, f);
  }

  /** Every walk of the scaled graph is a rescaled walk of the clean one. */
  lemma {:induction false} UnscaledWalk(adj: Adjacency, origin: nat, scaled: Walk, f: Factor) returns (w: Walk)
    requires IsWalk(Scaled(adj, f), origin, scaled)
    ensures IsWalk(adj, origin, w) && Rescale(origin, w, f) == scaled && End(origin, w) == End(origin, scaled)
  {
    match scaled
    case Stay => w := Stay;
    case Then(prefix, slot) =>
      var p := UnscaledWalk(adj, origin, prefix, f);
      var u := End(origin, prefix);
      var k :| 0 <= k < |Scaled(adj, f)[u]| && Scaled(adj, f)[u][k] == slot;
      w := Then(p, adj[u][k]);
  }

  ghost predicate Dominated(n: nat, f: Factor, g: Factor) {
    forall u: nat, v: nat :: u < n && v < n ==> f(u, v) <= g(u, v)
  }

  lemma MulOrdered(c: real, a: real, b: real)
    requires c >= 0.0 && a <= b
    ensures c * a <= c * b
  {}

  lemma {:induction false} RescaledMinutesOrdered(adj: Adjacency, origin: nat, w: Walk, f: Factor, g: Factor)
    requires WellFormed(adj) && NonNegative(adj) && Dominated(|adj|, f, g) && IsWalk(adj, origin, w)
    ensures Minutes(Rescale(origin, w, f)) <= Minutes(Rescale(origin, w, g))
  {
    match w
    case Stay =>
    case Then(prefix, slot) =>
      RescaledMinutesOrdered(adj, origin, prefix, f, g);
      var u := End(origin, prefix);
      MulOrdered(slot.cost, f(u, slot.to), g(u, slot.to));
  }

  lemma Distributes(k: real, a: real, b: real)
    ensures k * (a + b) == k * a + b * k
  {}

  lemma {:induction false} RescaledMinutesBounded(adj: Adjacency, origin: nat, w: Walk, f: Factor, factor: real)
    requires WellFormed(adj) && NonNegative(adj) && IsWalk(adj, origin, w)
    requires forall u: nat, v: nat :: u < |adj| && v < |adj| ==> f(u, v) <= factor
    ensures Minutes(Rescale(origin, w, f)) <= factor * Minutes(w)
  {
    match w
    case Stay =>
    case Then(prefix, slot) =>
      RescaledMinutesBounded(adj, origin, prefix, f, factor);
      MulOrdered(slot.cost, f(End(origin, prefix), slot.to), factor);
      Distributes(factor, Minutes(prefix), slot.cost);
  }

  lemma ScaledByOne(adj: Adjacency, f: Factor)
    requires WellFormed(adj) && forall u: nat, v: nat :: u < |adj| && v < |adj| ==> f(u, v) == 1.0
    ensures Scaled(adj, f) == adj
  {
    forall u | 0 <= u < |adj| ensures Scaled(adj, f)[u] == adj[u] {
      forall k | 0 <= k < |adj[u]| ensures Scaled(adj, f)[u][k] == adj[u][k] {
        assert adj[u][k] in adj[u];
      }
    }
  }

  /** Larger factors never shorten a travel time, and no factor changes what is reachable. */
  lemma ScaledTimesOrdered(adj: Adjacency, f: Factor, g: Factor,
                           origin: nat, node: nat, tf: Option<real>, tg: Option<real>)
    requires WellFormed(adj) && NonNegative(adj) && Dominated(|adj|, f, g)
    requires IsTravelTime(Scaled(adj, f), origin, node, tf) && IsTravelTime(Scaled(adj, g), origin, node, tg)
    ensures tf.Some? <==> tg.Some?
    ensures tf.Some? ==> tf.value <= tg.value
  {
    if tf.Some? {
      var wf :| Joins(Scaled(adj, f), origin, node, wf) && Minutes(wf) == tf.value;
      var w := UnscaledWalk(adj, origin, wf, f);
      RescaledIsWalk(adj, origin, w, g);
      assert Joins(Scaled(adj, g), origin, node, Rescale(origin, w, g));
    }
    if tg.Some? {
      var wg :| Joins(Scaled(adj, g), origin, node, wg) && Minutes(wg) == tg.value;
      var w := UnscaledWalk(adj, origin, wg, g);
      RescaledIsWalk(adj, origin, w, f);
      assert Joins(Scaled(adj, f), origin, node, Rescale(origin, w, f));
      RescaledMinutesOrdered(adj, origin, w, f, g);
    }
  }

  lemma NoBetterThanWalk(adj: Adjacency, origin: nat, node: nat, t: real, w: Walk)
    requires IsTravelTime(adj, origin, node, Some(t)) && Joins(adj, origin, node, w)
    ensures t <= Minutes(w)
  {}

  /** Factors of at most `factor` stretch a travel time by at most `factor`. */
  lemma ScaledTimeStretched(adj: Adjacency, f: Factor, factor: real,
                            origin: nat, node: nat, t: real, tf: real)
    requires WellFormed(adj) && NonNegative(adj)
    requires forall u: nat, v: nat :: u < |adj| && v < |adj| ==> f(u, v) <= factor
    requires IsTravelTime(adj, origin, node, Some(t)) && IsTravelTime(Scaled(adj, f), origin, node, Some(tf))
    ensures tf <= factor * t
  {
    hide Scaled, Rescale, IsWalk, Minutes, IsTravelTime;
    var w := BestWalk(adj, origin, node, t);
    RescaledIsWalk(adj, origin, w, f);
    NoBetterThanWalk(Scaled(adj, f), origin, node, tf, Rescale(origin, w, f));
    RescaledMinutesBounded(adj, origin, w, f, factor);
  }

  // ------------------------------------------------------------------ from an edge list

  /** One undirected street segment. */
  datatype Edge = Edge(from: nat, to: nat, cost: real)

  predicate EdgesWithin(n: nat, edges: seq<Edge>) {
    forall e <- edges :: e.from < n && e.to < n
  }

  function AddSlot(adj: Adjacency, u: nat, slot: Slot): (r: Adjacency)
    requires u < |adj|
    ensures |r| == |adj|
  {
    adj[u := adj[u] + [slot]]
  }

  /** Each segment is stored at both of its ends. */
  function AdjacencyOf(n: nat, edges: seq<Edge>): (adj: Adjacency)
    requires EdgesWithin(n, edges)
    ensures |adj| == n
  {
    if edges == [] then seq(n, _ => [])
    else
      var e := edges[|edges| - 1];
      assert e in edges;
      var adj := AdjacencyOf(n, edges[..|edges| - 1]);
      AddSlot(AddSlot(adj, e.from, Slot(e.to, e.cost)), e.to, Slot(e.from, e.cost))
  }

  lemma SlotCounted(adj: Adjacency, u: nat, slot: Slot, w: nat, counted: Slot)
    requires u < |adj| && w < |adj|
    ensures multiset(AddSlot(adj, u, slot)[w])[counted]
            == multiset(adj[w])[counted] + if w == u && counted == slot then 1 else 0
  {}

  /** How often a row holds a slot, against the segments that join the two nodes at that cost. */
  ghost predicate StoredAtBothEnds(adj: Adjacency, edges: seq<Edge>) {
    forall u: nat, v: nat, cost: real {:trigger multiset(adj[u])[Slot(v, cost)]} :: u < |adj| ==>
      multiset(adj[u])[Slot(v, cost)] == multiset(edges)[Edge(u, v, cost)] + multiset(edges)[Edge(v, u, cost)]
  }

  lemma OneMoreSegment(adj: Adjacency, edges: seq<Edge>, e: Edge)
    requires e.from < |adj| && e.to < |adj| && StoredAtBothEnds(adj, edges)
    ensures StoredAtBothEnds(AddSlot(AddSlot(adj, e.from, Slot(e.to, e.cost)), e.to, Slot(e.from, e.cost)),
                             edges + [e])
  {
    hide AddSlot;
    var there, back := Slot(e.to, e.cost), Slot(e.from, e.cost);
    var half := AddSlot(adj, e.from, there);
    var whole := AddSlot(half, e.to, back);
    forall u: nat, v: nat, cost: real | u < |adj|
      ensures multiset(whole[u])[Slot(v, cost)]
              == multiset(edges + [e])[Edge(u, v, cost)] + multiset(edges + [e])[Edge(v, u, cost)]
    {
      SlotCounted(adj, e.from, there, u, Slot(v, cost));
      SlotCounted(half, e.to, back, u, Slot(v, cost));
      assert multiset(adj[u])[Slot(v, cost)] == multiset(edges)[Edge(u, v, cost)] + multiset(edges)[Edge(v, u, cost)];
      assert multiset(edges + [e]) == multiset(edges) + multiset{e};
    }
  }

  lemma {:induction false} NothingStored(n: nat)
    ensures StoredAtBothEnds(seq(n, _ => []), [])
  {}

  /** The graph holds every segment from both of its ends at its own cost, a loop twice, and nothing else. */
  lemma {:induction false} SegmentsStored(n: nat, edges: seq<Edge>)
    requires EdgesWithin(n, edges)
    ensures StoredAtBothEnds(AdjacencyOf(n, edges), edges)
  {
    hide StoredAtBothEnds, AddSlot;
    if edges == [] {
      NothingStored(n);
    } else {
      var init, e := edges[..|edges| - 1], edges[|edges| - 1];
      assert e in edges && edges == init + [e];
      SegmentsStored(n, init);
      OneMoreSegment(AdjacencyOf(n, init), init, e);
    }
  }

  method BuildAdjacency(n: nat, edges: seq<Edge>) returns (adj: Adjacency)
    requires EdgesWithin(n, edges)
    ensures adj == AdjacencyOf(n, edges)
    ensures |adj| == n && forall u: nat, v: nat, cost: real {:trigger multiset(adj[u])[Slot(v, cost)]} :: u < n ==>
      multiset(adj[u])[Slot(v, cost)] == multiset(edges)[Edge(u, v, cost)] + multiset(edges)[Edge(v, u, cost)]
  {
    adj := seq(n, _ => []);
    for i := 0 to |edges|
      invariant adj == AdjacencyOf(n, edges[..i])
    {
      var e := edges[i];
      assert e in edges;
      assert edges[..i + 1][..i] == edges[..i];
      adj := adj[e.from := adj[e.from] + [Slot(e.to, e.cost)]];
      adj := adj[e.to := adj[e.to] + [Slot(e.from, e.cost)]];
    }
    assert edges[..|edges|] == edges;
    SegmentsStored(n, edges);
  }

  /** As many entries lead from `u` to `v` at a given cost as lead back. */
  ghost predicate Symmetric(adj: Adjacency) {
    forall u: nat, v: nat, cost: real {:trigger multiset(adj[u])[Slot(v, cost)]} :: u < |adj| && v < |adj| ==>
      multiset(adj[u])[Slot(v, cost)] == multiset(adj[v])[Slot(u, cost)]
  }

  /**
   * The condition cannot be spared: walking a negative street back and forth makes a walk ever
   * cheaper, so with one in reach of the origin of an undirected graph no travel times exist.
   */
  lemma {:induction false} NegativeStreetHasNoTimes(adj: Adjacency, origin: nat, u: nat, slot: Slot,
                                                    times: seq<Option<real>>)
    requires WellFormed(adj) && Symmetric(adj) && origin < |adj|
    requires u < |adj| && Reachable(adj, origin, u) && slot in adj[u] && slot.cost < 0.0
    ensures !AreTravelTimes(adj, origin, times)
  {
    if AreTravelTimes(adj, origin, times) {
      var back := Slot(u, slot.cost);
      assert slot == Slot(slot.to, slot.cost) && multiset(adj[u])[slot] > 0;
      assert multiset(adj[slot.to])[back] == multiset(adj[u])[Slot(slot.to, slot.cost)];
      var w := BestWalk(adj, origin, u, times[u].value);
      var longer := Then(Then(w, slot), back);
      assert Joins(adj, origin, slot.to, Then(w, slot));
      assert Joins(adj, origin, u, longer);
      assert Minutes(longer) == Minutes(w) + 2.0 * slot.cost;
    }
  }

  /** Storing a segment at both ends adds one entry each way between its two nodes. */
  lemma EdgeKeepsSymmetric(adj: Adjacency, e: Edge)
    requires e.from < |adj| && e.to < |adj| && Symmetric(adj)
    ensures Symmetric(AddSlot(AddSlot(adj, e.from, Slot(e.to, e.cost)), e.to, Slot(e.from, e.cost)))
  {
    hide AddSlot;
    var there, back := Slot(e.to, e.cost), Slot(e.from, e.cost);
    var half := AddSlot(adj, e.from, there);
    var whole := AddSlot(half, e.to, back);
    forall u: nat, v: nat, cost: real | u < |adj| && v < |adj|
      ensures multiset(whole[u])[Slot(v, cost)] == multiset(whole[v])[Slot(u, cost)]
    {
      SlotCounted(adj, e.from, there, u, Slot(v, cost));
      SlotCounted(half, e.to, back, u, Slot(v, cost));
      SlotCounted(adj, e.from, there, v, Slot(u, cost));
      SlotCounted(half, e.to, back, v, Slot(u, cost));
      assert multiset(adj[u])[Slot(v, cost)] == multiset(adj[v])[Slot(u, cost)];
    }
  }

  lemma EdgeKeepsValid(adj: Adjacency, e: Edge)
    requires e.from < |adj| && e.to < |adj| && WellFormed(adj)
    ensures WellFormed(AddSlot(AddSlot(adj, e.from, Slot(e.to, e.cost)), e.to, Slot(e.from, e.cost)))
    ensures e.cost >= 0.0 && NonNegative(adj) ==>
      NonNegative(AddSlot(AddSlot(adj, e.from, Slot(e.to, e.cost)), e.to, Slot(e.from, e.cost)))
  {}

  lemma {:induction false} EdgeListSymmetric(n: nat, edges: seq<Edge>)
    requires EdgesWithin(n, edges)
    ensures Symmetric(AdjacencyOf(n, edges)) && WellFormed(AdjacencyOf(n, edges))
    ensures (forall e <- edges :: e.cost >= 0.0) ==> NonNegative(AdjacencyOf(n, edges))
  {
    if edges != [] {
      var e := edges[|edges| - 1];
      assert e in edges;
      EdgeListSymmetric(n, edges[..|edges| - 1]);
      EdgeKeepsSymmetric(AdjacencyOf(n, edges[..|edges| - 1]), e);
      EdgeKeepsValid(AdjacencyOf(n, edges[..|edges| - 1]), e);
      hide Symmetric, WellFormed, NonNegative, AddSlot;
    }
  }

  lemma ScaledSlotInjective(a: Slot, b: Slot, u: nat, f: Factor)
    requires f(u, a.to) > 0.0
    ensures ScaledSlot(a, u, f) == ScaledSlot(b, u, f) <==> a == b
  {
    if a.to == b.to && a.cost != b.cost {
      assert (a.cost - b.cost) * f(u, a.to) != 0.0;
    }
  }

  lemma {:induction false} ScaledRowCount(row: seq<Slot>, u: nat, f: Factor, slot: Slot)
    requires f(u, slot.to) > 0.0
    ensures multiset(ScaledRow(row, u, f))[ScaledSlot(slot, u, f)] == multiset(row)[slot]
    decreases |row|
  {
    if row != [] {
      var init, last := row[..|row| - 1], row[|row| - 1];
      ScaledRowCount(init, u, f, slot);
      assert row == init + [last];
      assert ScaledRow(row, u, f) == ScaledRow(init, u, f) + [ScaledSlot(last, u, f)];
      ScaledSlotInjective(slot, last, u, f);
    }
  }

  lemma UnscaledCost(u: nat, v: nat, cost: real, f: Factor)
    requires f(u, v) > 0.0
    ensures ScaledSlot(Slot(v, cost / f(u, v)), u, f) == Slot(v, cost)
  {}

  /** A factor that does not depend on the direction keeps the graph symmetric. */
  lemma ScaledSymmetric(adj: Adjacency, f: Factor)
    requires Symmetric(adj)
    requires forall u: nat, v: nat :: u < |adj| && v < |adj| ==> f(u, v) == f(v, u) && f(u, v) > 0.0
    ensures Symmetric(Scaled(adj, f))
  {
    hide ScaledSlot;
    forall u: nat, v: nat, cost: real | u < |adj| && v < |adj|
      ensures multiset(Scaled(adj, f)[u])[Slot(v, cost)] == multiset(Scaled(adj, f)[v])[Slot(u, cost)]
    {
      var clean := cost / f(u, v);
      UnscaledCost(u, v, cost, f);
      UnscaledCost(v, u, cost, f);
      ScaledRowCount(adj[u], u, f, Slot(v, clean));
      ScaledRowCount(adj[v], v, f, Slot(u, clean));
    }
  }

  // ------------------------------------------------------------------ sums over the entries

  /** Sum of `g` over a row's entries that lead to a larger node. */
  function RowSum(row: seq<Slot>, u: nat, g: Factor): real {
    if row == [] then 0.0
    else
      var slot := row[|row| - 1];
      RowSum(row[..|row| - 1], u, g) + if u < slot.to then g(u, slot.to) else 0.0
  }

  function EntrySum(adj: Adjacency, g: Factor): real {
    if adj == [] then 0.0
    else
      var u := |adj| - 1;
      EntrySum(adj[..u], g) + RowSum(adj[u], u, g)
  }

  /** Sum of `g` over undirected segments, each taken once from its smaller end. */
  function EdgeSum(edges: seq<Edge>, g: Factor): real {
    if edges == [] then 0.0
    else
      var e := edges[|edges| - 1];
      EdgeSum(edges[..|edges| - 1], g)
      + if e.from < e.to then g(e.from, e.to) else if e.to < e.from then g(e.to, e.from) else 0.0
  }

  lemma {:induction false} SumWithSlot(adj: Adjacency, u: nat, slot: Slot, g: Factor)
    requires u < |adj|
    ensures EntrySum(AddSlot(adj, u, slot), g)
            == EntrySum(adj, g) + if u < slot.to then g(u, slot.to) else 0.0
    decreases |adj|
  {
    var last := |adj| - 1;
    var added := AddSlot(adj, u, slot);
    if u == last {
      assert added[..last] == adj[..last];
      assert (adj[u] + [slot])[..|adj[u]|] == adj[u];
    } else {
      SumWithSlot(adj[..last], u, slot, g);
      assert added[..last] == AddSlot(adj[..last], u, slot);
    }
  }

  lemma {:induction false} EmptySum(n: nat, g: Factor)
    ensures EntrySum(seq(n, _ => []), g) == 0.0
  {
    if n > 0 {
      var empty: Adjacency := seq(n, _ => []);
      assert empty[..n - 1] == seq(n - 1, _ => []);
      EmptySum(n - 1, g);
    }
  }

  /** Counting an entry only from its smaller end counts every segment that is no loop once. */
  lemma {:induction false} EachEdgeOnce(n: nat, edges: seq<Edge>, g: Factor)
    requires EdgesWithin(n, edges)
    ensures EntrySum(AdjacencyOf(n, edges), g) == EdgeSum(edges, g)
  {
    if edges == [] {
      EmptySum(n, g);
    } else {
      var init, e := edges[..|edges| - 1], edges[|edges| - 1];
      assert e in edges;
      EachEdgeOnce(n, init, g);
      var adj := AdjacencyOf(n, init);
      SumWithSlot(adj, e.from, Slot(e.to, e.cost), g);
      SumWithSlot(AddSlot(adj, e.from, Slot(e.to, e.cost)), e.to, Slot(e.from, e.cost), g);
    }
  }
}
