/**
 * The live-feed page protocol: `LiveFeedAdapter::seal` of crates/genegis-adapter/src/live_feed.rs
 * and `amedas_map_to_page` of crates/genegis-adapter/src/jma.rs.
 *
 * One call accepts or rejects one page.  Accepted pages chained by cursor and watermark form a
 * run; what the protocol guarantees is proved over whole runs.  Timestamps are nanoseconds, None
 * where the text does not parse.
 */
module LiveFeed {
  import opened Common

  const U64_MODULUS: nat := 0x1_0000_0000_0000_0000

  type U64 = n: int | 0 <= n < U64_MODULUS

  const NANOS: int := 1_000_000_000

  /** Whole seconds of a duration, truncated toward zero. */
  function Seconds(nanos: int): int {
    if nanos >= 0 then nanos / NANOS else -((-nanos) / NANOS)
  }

  /** The whole seconds of a duration are those that fit into it, on either side of zero. */
  lemma SecondsTruncate(nanos: int)
    ensures nanos >= 0 ==> Seconds(nanos) * 1_000_000_000 <= nanos < (Seconds(nanos) + 1) * 1_000_000_000
    ensures nanos <= 0 ==> (Seconds(nanos) - 1) * 1_000_000_000 < nanos <= Seconds(nanos) * 1_000_000_000
  {}

  /** A limit in seconds is kept until a full second more has passed. */
  lemma WithinSeconds(nanos: int, limit: int)
    requires limit >= 0
    ensures MaxInt(Seconds(nanos), 0) <= limit <==> nanos < (limit + 1) * 1_000_000_000
    ensures MaxInt(Seconds(nanos), 0) > 0 <==> nanos >= 1_000_000_000
  {
    hide Seconds;
    SecondsTruncate(nanos);
  }

  datatype Policy = Policy(maxAgeSeconds: U64, allowedLatenessSeconds: U64, maxPageSize: nat,
                           maxRetained: nat, rejectStale: bool)

  datatype Request = Request(providerId: string, providerVersion: string, afterCursor: U64,
                             watermark: Option<int>, limit: nat, evaluatedAt: Option<int>)

  datatype Geometry = Geometry(kind: Option<string>, hasCoordinates: bool)

  predicate ValidGeometry(g: Geometry) {
    g.kind.Some? && g.hasCoordinates
    && g.kind.value in {"Point", "MultiPoint", "LineString", "MultiLineString", "Polygon", "MultiPolygon"}
  }

  datatype Values = NotAnObject | Object(fields: map<string, real>)

  datatype Observation = Observation(id: string, sequence: U64, observedAt: Option<int>, geometry: Geometry,
                                     values: Values, sourceRevision: string)

  datatype Page = Page(nextCursor: U64, watermark: Option<int>, observations: seq<Observation>)

  /** What the transport handed over; None when the body is not a provider page. */
  datatype Fetched = Fetched(contentType: string, page: Option<Page>)

  datatype Response = Response(snapshots: seq<Observation>, nextCursor: U64, nextWatermark: int, isFresh: bool,
                               lateObservations: nat)

  datatype Rejection =
    | BadTimestamp | BadRequest | NotAdmitted(codes: seq<string>) | BadContentType | NotAPage | Regressed
    | BadObservation(index: nat) | TooLate(index: nat) | WrongFinalCursor | Stale

  // ------------------------------------------------------------------ what acceptance means

  function Lateness(watermark: int, observedAt: int): int {
    MaxInt(Seconds(watermark - observedAt), 0)
  }

  predicate GoodRequest(request: Request, policy: Policy) {
    && request.watermark.Some? && request.evaluatedAt.Some?
    && !Blank(request.providerId) && !Blank(request.providerVersion)
    && 0 < request.limit <= policy.maxPageSize && request.limit <= policy.maxRetained
    && request.watermark.value <= request.evaluatedAt.value
  }

  predicate JsonContent(contentType: string) {
    contentType == "application/json" || contentType == "application/geo+json"
  }

  function Previous(request: Request, observations: seq<Observation>, i: nat): U64
    requires i <= |observations|
  {
    if i == 0 then request.afterCursor else observations[i - 1].sequence
  }

  predicate WellFormed(o: Observation, previous: U64, nextCursor: U64, evaluatedAt: int) {
    && o.observedAt.Some? && o.observedAt.value <= evaluatedAt
    && !Blank(o.id) && !Blank(o.sourceRevision)
    && previous < o.sequence <= nextCursor
    && ValidGeometry(o.geometry) && o.values.Object?
  }

  predicate OnTime(o: Observation, watermark: int, policy: Policy)
    requires o.observedAt.Some?
  {
    Lateness(watermark, o.observedAt.value) <= policy.allowedLatenessSeconds
  }

  /** Observation i passes every per-observation check. */
  predicate Passes(request: Request, policy: Policy, page: Page, i: nat)
    requires i < |page.observations| && page.watermark.Some? && request.evaluatedAt.Some?
  {
    var o := page.observations[i];
    && WellFormed(o, Previous(request, page.observations, i), page.nextCursor, request.evaluatedAt.value)
    && OnTime(o, page.watermark.value, policy)
  }

  /** Some observation is young enough at evaluation time. */
  predicate Fresh(request: Request, policy: Policy, page: Page)
    requires request.evaluatedAt.Some?
  {
    exists i :: 0 <= i < |page.observations| && page.observations[i].observedAt.Some?
                && MaxInt(Seconds(request.evaluatedAt.value - page.observations[i].observedAt.value), 0)
                   <= policy.maxAgeSeconds
  }

  /** The named observation is the first that fails, and the reason says which check failed. */
  predicate RefusedAt(request: Request, policy: Policy, page: Page, reason: Rejection)
    requires reason.TooLate? || reason.BadObservation?
    requires page.watermark.Some? && request.evaluatedAt.Some?
  {
    && reason.index < |page.observations|
    && (forall i :: 0 <= i < reason.index ==> Passes(request, policy, page, i))
    && var o := page.observations[reason.index];
       o.observedAt.Some?
       && (WellFormed(o, Previous(request, page.observations, reason.index), page.nextCursor, request.evaluatedAt.value)
           <==> reason.TooLate?)
       && (reason.TooLate? ==> !OnTime(o, page.watermark.value, policy))
  }

  predicate GoodPage(request: Request, policy: Policy, page: Page)
    requires GoodRequest(request, policy)
  {
    && page.watermark.Some?
    && request.afterCursor <= page.nextCursor
    && request.watermark.value <= page.watermark.value <= request.evaluatedAt.value
    && |page.observations| <= request.limit
    && (forall i :: 0 <= i < |page.observations| ==> Passes(request, policy, page, i))
    && Previous(request, page.observations, |page.observations|)
       == (if page.observations == [] then request.afterCursor else page.nextCursor)
    && (policy.rejectStale ==> Fresh(request, policy, page))
  }

  predicate Accepted(request: Request, policy: Policy, failures: seq<string>, fetched: Fetched) {
    && GoodRequest(request, policy) && failures == [] && JsonContent(fetched.contentType)
    && fetched.page.Some? && GoodPage(request, policy, fetched.page.value)
  }

  function LateCount(watermark: int, observations: seq<Observation>): nat {
    if observations == [] then 0
    else
      var o := observations[|observations| - 1];
      LateCount(watermark, observations[..|observations| - 1])
      + if o.observedAt.Some? && Lateness(watermark, o.observedAt.value) > 0 then 1 else 0
  }

  /** The observation lies a full second or more behind the watermark. */
  predicate IsLate(watermark: int, o: Observation) {
    o.observedAt.Some? && watermark - o.observedAt.value >= 1_000_000_000
  }

  /** The observations that lie a full second or more behind the watermark. */
  function Late(watermark: int, observations: seq<Observation>): set<int> {
    set i | 0 <= i < |observations| && IsLate(watermark, observations[i])
  }

  lemma {:induction false} LateSetGrows(watermark: int, observations: seq<Observation>, o: Observation)
    ensures |Late(watermark, observations + [o])|
            == |Late(watermark, observations)| + if IsLate(watermark, o) then 1 else 0
  {
    assert Late(watermark, observations + [o])
        == Late(watermark, observations) + if IsLate(watermark, o) then {|observations|} else {};
  }

  lemma {:induction false} LateCountGrows(watermark: int, observations: seq<Observation>, o: Observation)
    ensures LateCount(watermark, observations + [o])
            == LateCount(watermark, observations) + if IsLate(watermark, o) then 1 else 0
  {
    hide Seconds;
    InitAndLast(observations, o);
    if o.observedAt.Some? {
      WithinSeconds(watermark - o.observedAt.value, 0);
    }
  }

  lemma {:induction false} LateCountIsCardinality(watermark: int, observations: seq<Observation>)
    ensures LateCount(watermark, observations) == |Late(watermark, observations)|
  {
    if observations == [] {
      assert Late(watermark, observations) == {};
    } else {
      hide Late, LateCount, IsLate;
      var init, o := observations[..|observations| - 1], observations[|observations| - 1];
      assert observations == init + [o];
      LateCountIsCardinality(watermark, init);
      LateSetGrows(watermark, init, o);
      LateCountGrows(watermark, init, o);
    }
  }

  // ------------------------------------------------------------------ the page step

  ghost predicate IsLatest(observations: seq<Observation>, latest: Option<int>) {
    && (latest.None? <==> observations == [])
    && (latest.Some? ==>
          (exists k :: 0 <= k < |observations| && observations[k].observedAt == latest)
          && (forall k :: 0 <= k < |observations| ==>
                observations[k].observedAt.Some? && observations[k].observedAt.value <= latest.value))
  }

  lemma NothingSealed(watermark: int)
    ensures LateCount(watermark, []) == 0 && IsLatest([], None)
  {}

  lemma LateOfOneMore(watermark: int, observations: seq<Observation>, i: nat)
    requires i < |observations| && observations[i].observedAt.Some?
    ensures observations[..i + 1] == observations[..i] + [observations[i]]
    ensures LateCount(watermark, observations[..i + 1])
            == LateCount(watermark, observations[..i])
               + if Lateness(watermark, observations[i].observedAt.value) > 0 then 1 else 0
  {
    hide Lateness;
    InitAndLast(observations[..i], observations[i]);
    assert observations[..i + 1] == observations[..i] + [observations[i]];
  }

  /** The checks one observation passes or fails, in the order in which they are made. */
  lemma Judged(request: Request, policy: Policy, page: Page, i: nat)
    requires i < |page.observations| && page.watermark.Some? && request.evaluatedAt.Some?
    ensures var o := page.observations[i];
            var previous := Previous(request, page.observations, i);
            var wellFormed := WellFormed(o, previous, page.nextCursor, request.evaluatedAt.value);
            && (Passes(request, policy, page, i) <==> wellFormed && OnTime(o, page.watermark.value, policy))
            && ((forall k :: 0 <= k < i ==> Passes(request, policy, page, k)) && o.observedAt.Some? ==>
                  && (!wellFormed ==> RefusedAt(request, policy, page, BadObservation(i)))
                  && (wellFormed && !OnTime(o, page.watermark.value, policy) ==>
                        RefusedAt(request, policy, page, TooLate(i))))
  {
    hide WellFormed, OnTime;
  }

  lemma LatestOfOneMore(observations: seq<Observation>, latest: Option<int>, o: Observation)
    requires IsLatest(observations, latest) && o.observedAt.Some?
    ensures IsLatest(observations + [o], Some(if latest.Some? then MaxInt(latest.value, o.observedAt.value)
                                              else o.observedAt.value))
  {
    var all := observations + [o];
    assert all[|observations|] == o;
    if latest.Some? {
      var k :| 0 <= k < |observations| && observations[k].observedAt == latest;
      assert all[k].observedAt == latest;
    }
  }

  /** The loop over the page: retained observations, last sequence, newest time, late count. */
  method SealObservations(request: Request, policy: Policy, page: Page)
    returns (r: Result<(seq<Observation>, U64, Option<int>, nat), Rejection>)
    requires page.watermark.Some? && request.evaluatedAt.Some?
    ensures r.Ok? <==> forall i :: 0 <= i < |page.observations| ==> Passes(request, policy, page, i)
    ensures r.Ok? ==>
      && r.value.0 == page.observations
      && r.value.1 == Previous(request, page.observations, |page.observations|)
      && IsLatest(page.observations, r.value.2)
      && r.value.3 == LateCount(page.watermark.value, page.observations)
    ensures r.Err? ==> r.error.BadTimestamp?
                       || ((r.error.TooLate? || r.error.BadObservation?) && RefusedAt(request, policy, page, r.error))
  {
    hide Seconds, Blank, ValidGeometry, LateCount, Passes, RefusedAt, IsLatest;
    NothingSealed(page.watermark.value);
    var nextWatermark, evaluatedAt := page.watermark.value, request.evaluatedAt.value;
    var previousSequence := request.afterCursor;
    var latest: Option<int> := None;
    var lateObservations: nat := 0;
    var snapshots: seq<Observation> := [];
    for i := 0 to |page.observations|
      invariant snapshots == page.observations[..i]
      invariant previousSequence == Previous(request, page.observations, i)
      invariant forall k :: 0 <= k < i ==> Passes(request, policy, page, k)
      invariant lateObservations == LateCount(nextWatermark, page.observations[..i])
      invariant IsLatest(page.observations[..i], latest)
    {
      var o := page.observations[i];
      Judged(request, policy, page, i);
      if o.observedAt.None? {
        return Err(BadTimestamp);
      }
      var observedAt := o.observedAt.value;
      var lateness := MaxInt(Seconds(nextWatermark - observedAt), 0);
      if Blank(o.id) || Blank(o.sourceRevision) || o.sequence <= previousSequence
         || o.sequence > page.nextCursor || observedAt > evaluatedAt
         || !ValidGeometry(o.geometry) || !o.values.Object? {
        return Err(BadObservation(i));
      }
      if lateness > policy.allowedLatenessSeconds {
        return Err(TooLate(i));
      }
      if lateness > 0 {
        lateObservations := lateObservations + 1;
      }
      LateOfOneMore(nextWatermark, page.observations, i);
      LatestOfOneMore(page.observations[..i], latest, o);
      previousSequence := o.sequence;
      latest := Some(if latest.Some? then MaxInt(latest.value, observedAt) else observedAt);
      snapshots := snapshots + [o];
    }
    assert page.observations[..|page.observations|] == page.observations;
    r := Ok((snapshots, previousSequence, latest, lateObservations));
  }

  lemma SecondsMonotone(a: int, b: int)
    requires a <= b
    ensures Seconds(a) <= Seconds(b)
  {}

  /** The newest observation decides freshness. */
  lemma FreshIsLatest(request: Request, policy: Policy, page: Page, latest: Option<int>)
    requires request.evaluatedAt.Some?
    requires IsLatest(page.observations, latest)
    ensures Fresh(request, policy, page)
            <==> latest.Some? && MaxInt(Seconds(request.evaluatedAt.value - latest.value), 0) <= policy.maxAgeSeconds
  {
    hide Seconds;
    if Fresh(request, policy, page) {
      var i :| 0 <= i < |page.observations| && page.observations[i].observedAt.Some?
               && MaxInt(Seconds(request.evaluatedAt.value - page.observations[i].observedAt.value), 0)
                  <= policy.maxAgeSeconds;
      SecondsMonotone(request.evaluatedAt.value - latest.value,
                      request.evaluatedAt.value - page.observations[i].observedAt.value);
    }
  }

  /** Accept one fetched page, or say which check refused it. */
  method Seal(fetched: Fetched, request: Request, policy: Policy, failures: seq<string>)
    returns (r: Result<Response, Rejection>)
    ensures r.Ok? <==> Accepted(request, policy, failures, fetched)
    ensures r.Ok? ==>
      var page := fetched.page.value;
      && r.value.snapshots == page.observations
      && r.value.nextCursor == page.nextCursor && r.value.nextWatermark == page.watermark.value
      && (r.value.isFresh <==> Fresh(request, policy, page))
      && r.value.lateObservations == |Late(page.watermark.value, page.observations)|
    ensures r.Err? && r.error.NotAdmitted? ==> r.error.codes == failures != []
    ensures r.Err? && (r.error.TooLate? || r.error.BadObservation?) ==>
      && fetched.page.Some? && fetched.page.value.watermark.Some? && request.evaluatedAt.Some?
      && RefusedAt(request, policy, fetched.page.value, r.error)
  {
    hide Seconds, Blank, Passes, IsLatest, LateCount, Late, RefusedAt, Fresh;
    if request.watermark.None? || request.evaluatedAt.None? {
      return Err(BadTimestamp);
    }
    var requestedWatermark, evaluatedAt := request.watermark.value, request.evaluatedAt.value;
    if Blank(request.providerId) || Blank(request.providerVersion) || request.limit == 0
       || request.limit > policy.maxPageSize || request.limit > policy.maxRetained
       || requestedWatermark > evaluatedAt {
      return Err(BadRequest);
    }
    if failures != [] {
      return Err(NotAdmitted(failures));
    }
    if !JsonContent(fetched.contentType) {
      return Err(BadContentType);
    }
    if fetched.page.None? {
      return Err(NotAPage);
    }
    var page := fetched.page.value;
    if page.watermark.None? {
      return Err(BadTimestamp);
    }
    var nextWatermark := page.watermark.value;
    if page.nextCursor < request.afterCursor || nextWatermark < requestedWatermark
       || nextWatermark > evaluatedAt || |page.observations| > request.limit {
      return Err(Regressed);
    }
    var sealed := SealObservations(request, policy, page);
    if sealed.Err? {
      return Err(sealed.error);
    }
    var (snapshots, previousSequence, latest, lateObservations) := sealed.value;
    if snapshots != [] && previousSequence != page.nextCursor {
      return Err(WrongFinalCursor);
    }
    var isFresh := latest.Some? && MaxInt(Seconds(evaluatedAt - latest.value), 0) <= policy.maxAgeSeconds;
    FreshIsLatest(request, policy, page, latest);
    if policy.rejectStale && !isFresh {
      return Err(Stale);
    }
    LateCountIsCardinality(nextWatermark, page.observations);
    r := Ok(Response(snapshots, page.nextCursor, nextWatermark, isFresh, lateObservations));
  }

  // ------------------------------------------------------------------ runs of accepted pages

  datatype Step = Step(request: Request, policy: Policy, page: Page)

  predicate GoodStep(s: Step) {
    GoodRequest(s.request, s.policy) && GoodPage(s.request, s.policy, s.page)
  }

  /** Each request resumes from the cursor and watermark its predecessor committed. */
  predicate IsRun(run: seq<Step>) {
    && (forall k :: 0 <= k < |run| ==> GoodStep(run[k]))
    && (forall k :: 0 < k < |run| ==>
          run[k].request.afterCursor == run[k - 1].page.nextCursor
          && run[k].request.watermark == run[k - 1].page.watermark)
  }

  function Sequences(observations: seq<Observation>): (r: seq<U64>)
    ensures |r| == |observations|
    ensures forall i :: 0 <= i < |r| ==> r[i] == observations[i].sequence
  {
    seq(|observations|, i requires 0 <= i < |observations| => observations[i].sequence)
  }

  /** Everything the run retained, in delivery order. */
  function Retained(run: seq<Step>): seq<U64> {
    if run == [] then []
    else Retained(run[..|run| - 1]) + Sequences(run[|run| - 1].page.observations)
  }

  ghost predicate Ascends(s: seq<U64>, low: int, high: int) {
    && (forall i :: 0 <= i < |s| ==> low < s[i] <= high)
    && (forall i, j :: 0 <= i < j < |s| ==> s[i] < s[j])
  }

  lemma {:induction false} PageAscends(s: Step, n: nat)
    requires GoodStep(s) && n <= |s.page.observations|
    ensures Ascends(Sequences(s.page.observations[..n]), s.request.afterCursor,
                    Previous(s.request, s.page.observations, n))
    ensures s.request.afterCursor <= Previous(s.request, s.page.observations, n)
    decreases n
  {
    if n > 0 {
      PageAscends(s, n - 1);
      assert Passes(s.request, s.policy, s.page, n - 1);
      var before, now := Sequences(s.page.observations[..n - 1]), Sequences(s.page.observations[..n]);
      assert now == before + [s.page.observations[n - 1].sequence];
    }
  }

  lemma StepAscends(s: Step)
    requires GoodStep(s)
    ensures Ascends(Sequences(s.page.observations), s.request.afterCursor, s.page.nextCursor)
  {
    var observations := s.page.observations;
    PageAscends(s, |observations|);
    assert observations[..|observations|] == observations;
  }

  /** What an accepted observation is by itself: named, placed, valued and not from the future. */
  predicate Sound(o: Observation, evaluatedAt: int) {
    && o.observedAt.Some? && o.observedAt.value <= evaluatedAt && !Blank(o.id) && !Blank(o.sourceRevision)
    && ValidGeometry(o.geometry) && o.values.Object?
  }

  /** The age of the observation at a time is less than a full second over the limit. */
  predicate Younger(o: Observation, time: int, limit: int) {
    o.observedAt.Some? && time - o.observedAt.value < (limit + 1) * 1_000_000_000
  }

  lemma {:induction false} PassesIff(s: Step, i: nat)
    requires s.request.evaluatedAt.Some? && s.page.watermark.Some? && i < |s.page.observations|
    ensures var o := s.page.observations[i];
            Passes(s.request, s.policy, s.page, i)
            <==> && Sound(o, s.request.evaluatedAt.value)
                 && Younger(o, s.page.watermark.value, s.policy.allowedLatenessSeconds)
                 && Previous(s.request, s.page.observations, i) < o.sequence <= s.page.nextCursor
  {
    hide Seconds, Blank, ValidGeometry;
    var o := s.page.observations[i];
    if o.observedAt.Some? {
      WithinSeconds(s.page.watermark.value - o.observedAt.value, s.policy.allowedLatenessSeconds);
    }
  }

  lemma {:induction false} FreshIff(s: Step)
    requires s.request.evaluatedAt.Some?
    ensures Fresh(s.request, s.policy, s.page)
            <==> exists o <- s.page.observations :: Younger(o, s.request.evaluatedAt.value, s.policy.maxAgeSeconds)
  {
    hide Seconds;
    forall i | 0 <= i < |s.page.observations| && s.page.observations[i].observedAt.Some?
      ensures MaxInt(Seconds(s.request.evaluatedAt.value - s.page.observations[i].observedAt.value), 0)
              <= s.policy.maxAgeSeconds
              <==> Younger(s.page.observations[i], s.request.evaluatedAt.value, s.policy.maxAgeSeconds)
    {
      WithinSeconds(s.request.evaluatedAt.value - s.page.observations[i].observedAt.value, s.policy.maxAgeSeconds);
    }
  }

  /**
   * When a page is accepted, in nanoseconds and without the loop: cursor and watermark advance
   * within their bounds, the sequences rise up to the new cursor, every observation is sound and
   * less than a full second more than the allowed lateness behind, and one is fresh if need be.
   */
  lemma {:induction false} StepAcceptedIff(s: Step)
    requires GoodRequest(s.request, s.policy)
    ensures var observations := s.page.observations;
            GoodStep(s)
            <==> && s.page.watermark.Some? && s.request.afterCursor <= s.page.nextCursor
                 && s.request.watermark.value <= s.page.watermark.value <= s.request.evaluatedAt.value
                 && |observations| <= s.request.limit
                 && (forall o <- observations :: Sound(o, s.request.evaluatedAt.value))
                 && (forall o <- observations ::
                       Younger(o, s.page.watermark.value, s.policy.allowedLatenessSeconds))
                 && Ascends(Sequences(observations), s.request.afterCursor, s.page.nextCursor)
                 && (observations != [] ==> observations[|observations| - 1].sequence == s.page.nextCursor)
                 && (s.policy.rejectStale ==>
                       exists o <- observations :: Younger(o, s.request.evaluatedAt.value, s.policy.maxAgeSeconds))
  {
    hide Passes, Fresh, Sound, Younger, Sequences;
    var observations := s.page.observations;
    FreshIff(s);
    if s.page.watermark.Some? {
      forall i | 0 <= i < |observations|
        ensures Passes(s.request, s.policy, s.page, i)
                <==> && Sound(observations[i], s.request.evaluatedAt.value)
                     && Younger(observations[i], s.page.watermark.value, s.policy.allowedLatenessSeconds)
                     && Previous(s.request, observations, i) < observations[i].sequence <= s.page.nextCursor
      {
        PassesIff(s, i);
      }
    }
    if GoodStep(s) {
      StepAscends(s);
    }
  }

  /** No accepted page is larger than the policy's page and the retained window. */
  lemma PageFits(s: Step)
    requires GoodStep(s)
    ensures |s.page.observations| <= s.policy.maxPageSize && |s.page.observations| <= s.policy.maxRetained
  {
    hide Passes, Fresh;
  }

  lemma AscendsAppend(s: seq<U64>, t: seq<U64>, low: int, middle: int, high: int)
    requires low <= middle <= high && Ascends(s, low, middle) && Ascends(t, middle, high)
    ensures Ascends(s + t, low, high)
  {}

  lemma StepCursor(s: Step)
    requires GoodStep(s)
    ensures s.request.afterCursor <= s.page.nextCursor
    ensures Previous(s.request, s.page.observations, |s.page.observations|) <= s.page.nextCursor
    ensures s.page.watermark.Some? && s.request.watermark.Some? && s.request.evaluatedAt.Some?
    ensures s.request.watermark.value <= s.page.watermark.value <= s.request.evaluatedAt.value
  {}

  /**
   * Over a whole run the retained sequences rise strictly, all above the initial cursor and at
   * most the final one: nothing is delivered twice, in one page or across pages.
   */
  lemma {:induction false} DeliveredAtMostOnce(run: seq<Step>)
    requires IsRun(run) && run != []
    ensures run[0].request.afterCursor <= run[|run| - 1].page.nextCursor
    ensures Ascends(Retained(run), run[0].request.afterCursor, run[|run| - 1].page.nextCursor)
    decreases |run|
  {
    hide GoodStep, Sequences, Ascends;
    var init, last := run[..|run| - 1], run[|run| - 1];
    var observations := last.page.observations;
    StepAscends(last);
    StepCursor(last);
    if init == [] {
      assert Retained(init) + Sequences(observations) == Sequences(observations);
    } else {
      DeliveredAtMostOnce(init);
      AscendsAppend(Retained(init), Sequences(observations), run[0].request.afterCursor,
                    last.request.afterCursor, last.page.nextCursor);
    }
  }

  /** Committed watermarks never go back. */
  lemma {:induction false} WatermarksNeverRegress(run: seq<Step>, j: nat, k: nat)
    requires IsRun(run) && j <= k < |run|
    ensures run[j].page.watermark.Some? && run[k].page.watermark.Some?
    ensures run[j].page.watermark.value <= run[k].page.watermark.value
    decreases k
  {
    hide GoodStep;
    StepCursor(run[k]);
    if j < k {
      WatermarksNeverRegress(run, j, k - 1);
    }
  }

  /** Strictly ascending numbers in (low, high] are at most high - low many. */
  lemma {:induction false} AscendingFits(s: seq<U64>, low: int, high: int)
    requires Ascends(s, low, high) && low <= high
    ensures |s| <= high - low
    decreases |s|
  {
    if s != [] {
      AscendingFits(s[..|s| - 1], low, s[|s| - 1] as int - 1);
    }
  }

  lemma {:induction false} RetainedBounded(run: seq<Step>)
    requires IsRun(run) && run != []
    ensures |Retained(run)| <= run[|run| - 1].page.nextCursor - run[0].request.afterCursor
  {
    DeliveredAtMostOnce(run);
    AscendingFits(Retained(run), run[0].request.afterCursor, run[|run| - 1].page.nextCursor);
  }

  /** A page that carries every sequence its cursor moves over. */
  predicate Dense(s: Step) {
    |s.page.observations| == s.page.nextCursor - s.request.afterCursor
  }

  lemma {:induction false} StepBounded(s: Step)
    requires GoodStep(s)
    ensures |s.page.observations| <= s.page.nextCursor - s.request.afterCursor
    ensures Dense(s) <==> |s.page.observations| == s.page.nextCursor - s.request.afterCursor
  {
    hide GoodStep;
    StepAscends(s);
    StepCursor(s);
    AscendingFits(Sequences(s.page.observations), s.request.afterCursor, s.page.nextCursor);
  }

  lemma {:induction false} RetainedOfLast(run: seq<Step>)
    requires run != []
    ensures |Retained(run)| == |Retained(run[..|run| - 1])| + |run[|run| - 1].page.observations|
    ensures Retained([]) == []
  {}

  /**
   * The protocol lets a page advance the cursor past sequences it did not deliver.  A run
   * retains every sequence between its first and last cursor exactly when no page does.
   */
  lemma {:induction false} CompleteIffDense(run: seq<Step>)
    requires IsRun(run) && run != []
    ensures |Retained(run)| == run[|run| - 1].page.nextCursor - run[0].request.afterCursor
            <==> forall k :: 0 <= k < |run| ==> Dense(run[k])
    decreases |run|
  {
    hide GoodStep, Sequences, Retained, Dense;
    var init, last := run[..|run| - 1], run[|run| - 1];
    StepBounded(last);
    RetainedOfLast(run);
    if init != [] {
      CompleteIffDense(init);
      RetainedBounded(init);
      assert forall k :: 0 <= k < |init| ==> run[k] == init[k];
    }
  }

  /** A page that is accepted although its cursor moves from zero to five over one observation. */
  lemma CursorMaySkip() returns (s: Step)
    ensures GoodStep(s) && !Dense(s)
  {
    var o := Observation("x", 5, Some(0), Geometry(Some("Point"), true), Object(map[]), "x");
    s := Step(Request("x", "x", 0, Some(0), 1, Some(0)), Policy(0, 0, 1, 1, false), Page(5, Some(0), [o]));
    assert !Blank("x") by {
      assert "x"[0] in "x";
    }
    assert Lateness(0, 0) == 0;
    assert Passes(s.request, s.policy, s.page, 0);
  }

  /** No retained observation is a full second more than the allowed lateness behind its page. */
  lemma LatenessBounded(s: Step, i: nat)
    requires GoodStep(s) && i < |s.page.observations|
    ensures s.page.watermark.Some? && s.page.observations[i].observedAt.Some?
    ensures s.page.watermark.value - s.page.observations[i].observedAt.value
            < (s.policy.allowedLatenessSeconds + 1) * NANOS
  {
    assert Passes(s.request, s.policy, s.page, i);
  }

  // ------------------------------------------------------------------ the AMeDAS page

  datatype Station = Missing | NotObject | Readings(readings: map<string, Option<real>>)

  const VALUE_FIELDS: seq<(string, string)> :=
    [("temp", "temperature_c"), ("humidity", "humidity_pct"), ("precipitation1h", "precipitation1h_mm"),
     ("pressure", "pressure_hpa"), ("wind", "wind_mps")]

  /** The first `n` fields that carry a non-null value, under their unit-bearing names. */
  function StationValues(readings: map<string, Option<real>>, n: nat): map<string, real>
    requires n <= |VALUE_FIELDS|
  {
    if n == 0 then map[]
    else
      var (field, key) := VALUE_FIELDS[n - 1];
      if field in readings && readings[field].Some?
      then StationValues(readings, n - 1)[key := readings[field].value]
      else StationValues(readings, n - 1)
  }

  /** The reading of a station field is converted exactly when it is there. */
  predicate Converted(readings: map<string, Option<real>>, values: map<string, real>, field: string, key: string) {
    && (key in values <==> field in readings && readings[field].Some?)
    && (key in values ==> values[key] == readings[field].value)
  }

  /** Five fields are read, and nothing else. */
  lemma {:induction false} StationValuesExact(readings: map<string, Option<real>>)
    ensures var values := StationValues(readings, 5);
            && Converted(readings, values, "temp", "temperature_c")
            && Converted(readings, values, "humidity", "humidity_pct")
            && Converted(readings, values, "precipitation1h", "precipitation1h_mm")
            && Converted(readings, values, "pressure", "pressure_hpa")
            && Converted(readings, values, "wind", "wind_mps")
            && values.Keys <= {"temperature_c", "humidity_pct", "precipitation1h_mm", "pressure_hpa", "wind_mps"}
  {
    var none := StationValues(readings, 0);
    var one := StationValues(readings, 1);
    assert "temperature_c"[0] == 't' && "humidity_pct"[0] == 'h' && "wind_mps"[0] == 'w';
    assert "precipitation1h_mm"[2] == 'e' && "pressure_hpa"[3] == 's' && "precipitation1h_mm"[3] == 'c';
    assert "precipitation1h_mm"[0] == 'p' == "pressure_hpa"[0];
    assert Converted(readings, one, "temp", "temperature_c");
    var two := StationValues(readings, 2);
    assert Converted(readings, two, "temp", "temperature_c") && Converted(readings, two, "humidity", "humidity_pct");
    var three := StationValues(readings, 3);
    assert Converted(readings, three, "temp", "temperature_c");
    assert Converted(readings, three, "humidity", "humidity_pct");
    assert Converted(readings, three, "precipitation1h", "precipitation1h_mm");
    var four := StationValues(readings, 4);
    assert Converted(readings, four, "temp", "temperature_c") && Converted(readings, four, "humidity", "humidity_pct");
    assert Converted(readings, four, "precipitation1h", "precipitation1h_mm");
    assert Converted(readings, four, "pressure", "pressure_hpa");
  }

  function NextSequence(afterCursor: U64): U64 {
    (afterCursor + 1) % U64_MODULUS
  }

  function AmedasPage(readings: map<string, Option<real>>, time: string, afterCursor: U64,
                      observedAt: Option<int>): Page {
    Page(NextSequence(afterCursor), observedAt,
         [Observation("amedas-51106-" + time, NextSequence(afterCursor), observedAt, Geometry(Some("Point"), true),
                      Object(StationValues(readings, |VALUE_FIELDS|)), "jma-amedas-2026")])
  }

  method AmedasMapToPage(station: Station, time: string, afterCursor: U64, observedAt: Option<int>)
    returns (r: Result<Page, string>)
    ensures r.Ok? <==> station.Readings? && StationValues(station.readings, |VALUE_FIELDS|) != map[]
    ensures r.Ok? ==> r.value == AmedasPage(station.readings, time, afterCursor, observedAt)
    ensures r.Ok? ==>
      && |r.value.observations| == 1 && r.value.watermark == observedAt == r.value.observations[0].observedAt
      && r.value.nextCursor == r.value.observations[0].sequence
      && r.value.nextCursor as int == (if afterCursor == U64_MODULUS - 1 then 0 else afterCursor + 1)
  {
    if station.Missing? {
      return Err("station missing from AMeDAS payload");
    }
    if station.NotObject? {
      return Err("station payload must be an object");
    }
    var values: map<string, real> := map[];
    for n := 0 to |VALUE_FIELDS|
      invariant values == StationValues(station.readings, n)
    {
      var (field, key) := VALUE_FIELDS[n];
      if field in station.readings {
        if station.readings[field].Some? {
          values := values[key := station.readings[field].value];
        }
      }
    }
    if values == map[] {
      return Err("no usable AMeDAS observation values");
    }
    var sequence := NextSequence(afterCursor);
    var observation := Observation("amedas-51106-" + time, sequence, observedAt, Geometry(Some("Point"), true),
                                   Object(values), "jma-amedas-2026");
    r := Ok(Page(sequence, observedAt, [observation]));
  }

  lemma AmedasWellNamed(readings: map<string, Option<real>>, time: string, afterCursor: U64, observedAt: Option<int>)
    ensures var o := AmedasPage(readings, time, afterCursor, observedAt).observations[0];
            !Blank(o.id) && !Blank(o.sourceRevision) && ValidGeometry(o.geometry) && o.values.Object?
  {
    var o := AmedasPage(readings, time, afterCursor, observedAt).observations[0];
    assert o.id[0] == 'a' && o.id[0] in o.id;
    assert o.sourceRevision[0] == 'j' && o.sourceRevision[0] in o.sourceRevision;
  }

  lemma NeverLate(t: int)
    ensures Lateness(t, t) == 0
  {}

  /**
   * A converted AMeDAS page is accepted exactly when its time lies between the watermark and the
   * evaluation time, it is fresh where the policy asks, and the cursor is not the last 64-bit
   * number: the sequence then wraps to zero.  Lateness, geometry and identity can never refuse it.
   */
  lemma AmedasAcceptedIff(request: Request, policy: Policy, readings: map<string, Option<real>>, time: string,
                          observedAt: Option<int>)
    requires GoodRequest(request, policy)
    ensures GoodPage(request, policy, AmedasPage(readings, time, request.afterCursor, observedAt))
            <==> && request.afterCursor < U64_MODULUS - 1
                 && observedAt.Some?
                 && request.watermark.value <= observedAt.value <= request.evaluatedAt.value
                 && (policy.rejectStale ==>
                       Seconds(request.evaluatedAt.value - observedAt.value) <= policy.maxAgeSeconds)
  {
    hide StationValues, Seconds, Blank, ValidGeometry;
    var page := AmedasPage(readings, time, request.afterCursor, observedAt);
    AmedasWellNamed(readings, time, request.afterCursor, observedAt);
    if observedAt.Some? {
      assert Fresh(request, policy, page)
             <==> MaxInt(Seconds(request.evaluatedAt.value - observedAt.value), 0) <= policy.maxAgeSeconds by {
        FreshIsLatest(request, policy, page, observedAt);
      }
      NeverLate(observedAt.value);
      if request.afterCursor < U64_MODULUS - 1 && observedAt.value <= request.evaluatedAt.value {
        assert Passes(request, policy, page, 0);
      }
    }
  }

  /**
   * Sequences are all that is delivered once.  An accepted AMeDAS page is accepted again on the
   * next request, with the same observation under the same identifier and the next sequence.
   */
  lemma AmedasDeliveredAgain(s: Step, readings: map<string, Option<real>>, time: string, observedAt: Option<int>)
    requires GoodStep(s) && s.page == AmedasPage(readings, time, s.request.afterCursor, observedAt)
    requires s.page.nextCursor < U64_MODULUS - 1
    ensures var again := Step(s.request.(afterCursor := s.page.nextCursor, watermark := s.page.watermark), s.policy,
                              AmedasPage(readings, time, s.page.nextCursor, observedAt));
            && IsRun([s, again])
            && again.page.observations[0] == s.page.observations[0].(sequence := s.page.nextCursor + 1)
  {
    hide Passes, Fresh, Seconds, Blank, StationValues, IsLatest;
    var next := s.request.(afterCursor := s.page.nextCursor, watermark := s.page.watermark);
    AmedasAcceptedIff(s.request, s.policy, readings, time, observedAt);
    AmedasAcceptedIff(next, s.policy, readings, time, observedAt);
  }
}
