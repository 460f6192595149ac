/**
 * The bounded execute, verify, retry loop of the agent: `run`, `execute_after_plan`,
 * `legacy_workflow`, `build_plan_only_run` and the step recorders of
 * crates/genegis-agent/src/orchestrator.rs, with the tool allowlists of tool_registry.rs.
 *
 * What an attempt does is a parameter: a stream says what executing and verifying attempt k
 * would yield.
 */
module AgentOrchestrator {
  import opened Common

  datatype Workflow =
    | NagoyaDensity | NagoyaGeoparquetDensity | RemoteCogDemo | LocalCogDemo | NagoyaGeoparquet | ExternalStacDemo
    | DashboardExportDemo | NagoyaFloodExposure | NagoyaXminCity | NagoyaEvacuationAccess | SentinelNdviTimeseries
    | CopcChangeDetect

  datatype Kind =
    | Density | CogMetadata | Geoparquet | StacCollection | DashboardExport | FloodExposure | Accessibility | Evacuation
    | NdviTimeseries | PointCloudChange

  /** A density run keeps its whole dispatch: the analysis, its evidence and its own verdict. */
  datatype Dispatch = Dispatch(analysis: int, evidence: int, passed: bool)

  type OtherKind = kind: Kind | kind != Density witness CogMetadata

  datatype Output = DensityOutput(dispatch: Dispatch) | OtherOutput(kind: OtherKind, payload: int)

  datatype Executed = Executed(kind: Kind, payload: int)

  /** One turn: the workflow fails, or it runs and the external verifier answers (None: an error). */
  datatype Attempt = Fails | Runs(output: Output, verifier: Option<bool>)

  datatype Step =
    | PlanStep(tools: seq<string>)
    | CatalogStep
    | RetryStep(attempt: nat)
    | ExecuteStep(tool: string, attempt: nat)
    | VerifyStep(tool: string, passed: bool, attempt: nat)

  datatype Summary = PlanSummary | VerificationFailed(attempts: nat) | Asked(result: int)

  datatype Run = Run(planOnly: bool, verificationPassed: bool, verifyAttempts: nat, steps: seq<Step>, summary: Summary)

  datatype Error = PlannerToolRefused | NoDataset | ExecutionFailed | WorkflowMismatch | VerifierFailed | BuilderFailed

  /** The result builders: one takes the retained dispatch, the others the executed workflow. */
  datatype Builders = Builders(fromDispatch: Dispatch -> Option<int>, fromExecuted: Executed -> Option<int>)

  datatype ToolCall = ToolCall(tool: string, ok: bool)

  /** What the planner left behind; only plans of a language model have their tool calls validated. */
  datatype Plan = Plan(fromModel: bool, toolCalls: seq<ToolCall>)

  const PLANNER_TOOLS: set<string> :=
    {"parse_intent", "resolve_workflow", "stac_browse", "stac_bind", "stac_fetch", "catalog_bind", "llm_plan_workflow",
     "plan_workflow"}

  const EXECUTOR_TOOLS: set<string> :=
    {"catalog_resolve", "run_nagoya_density", "run_remote_cog_metadata", "run_local_cog_metadata",
     "run_geoparquet_read", "run_geoparquet_density", "run_stac_fetch", "run_pmtiles_export", "run_flood_exposure",
     "run_accessibility_score", "run_evacuation_access", "run_index_timeseries", "run_copc_change", "verify_retry"}

  const VERIFIER_TOOLS: set<string> :=
    {"duckdb_verify", "cog_metadata_verify", "geoparquet_feature_verify", "stac_collection_verify",
     "tile_roundtrip_verify", "route_sanity_verify", "index_range_verify", "volume_delta_verify"}

  function PlannedTools(plan: Plan): seq<string> {
    if plan.toolCalls == [] then ["plan_workflow"]
    else seq(|plan.toolCalls|, k requires 0 <= k < |plan.toolCalls| => plan.toolCalls[k].tool)
  }

  predicate CallAllowed(call: ToolCall) {
    call.tool in PLANNER_TOOLS && call.ok
  }

  method ValidatePlannerTools(calls: seq<ToolCall>) returns (ok: bool)
    ensures ok <==> forall call <- calls :: CallAllowed(call)
  {
    for k := 0 to |calls|
      invariant forall j :: 0 <= j < k ==> CallAllowed(calls[j])
    {
      if calls[k].tool !in PLANNER_TOOLS || !calls[k].ok {
        assert !CallAllowed(calls[k]);
        return false;
      }
    }
    ok := true;
  }

  function LegacyWorkflow(output: Output): Executed {
    match output
    case DensityOutput(dispatch) => Executed(Density, dispatch.analysis)
    case OtherOutput(kind, payload) => Executed(kind, payload)
  }

  /** The tool an execution is recorded under; None when the output is not the workflow's own kind. */
  function ExecuteTool(workflow: Workflow, kind: Kind): (tool: Option<string>)
    ensures tool.Some? ==> tool.value in EXECUTOR_TOOLS
  {
    match (workflow, kind)
    case (NagoyaDensity, Density) => Some("run_nagoya_density")
    case (NagoyaGeoparquetDensity, Density) => Some("run_geoparquet_density")
    case (RemoteCogDemo, CogMetadata) => Some("run_remote_cog_metadata")
    case (LocalCogDemo, CogMetadata) => Some("run_local_cog_metadata")
    case (NagoyaGeoparquet, Geoparquet) => Some("run_geoparquet_read")
    case (ExternalStacDemo, StacCollection) => Some("run_stac_fetch")
    case (NagoyaFloodExposure, FloodExposure) => Some("run_flood_exposure")
    case (NagoyaXminCity, Accessibility) => Some("run_accessibility_score")
    case (NagoyaEvacuationAccess, Evacuation) => Some("run_evacuation_access")
    case (SentinelNdviTimeseries, NdviTimeseries) => Some("run_index_timeseries")
    case (CopcChangeDetect, PointCloudChange) => Some("run_copc_change")
    case (DashboardExportDemo, DashboardExport) => Some("run_pmtiles_export")
    case _ => None
  }

  function VerifyTool(workflow: Workflow): (tool: string)
    ensures tool in VERIFIER_TOOLS
  {
    match workflow
    case NagoyaDensity | NagoyaGeoparquetDensity | NagoyaFloodExposure => "duckdb_verify"
    case RemoteCogDemo | LocalCogDemo => "cog_metadata_verify"
    case NagoyaGeoparquet => "geoparquet_feature_verify"
    case ExternalStacDemo => "stac_collection_verify"
    case DashboardExportDemo => "tile_roundtrip_verify"
    case NagoyaXminCity | NagoyaEvacuationAccess => "route_sanity_verify"
    case SentinelNdviTimeseries => "index_range_verify"
    case CopcChangeDetect => "volume_delta_verify"
  }

  /** The workflow has results of one kind only, recorded under one tool and verified by another. */
  ghost predicate RecordedAs(workflow: Workflow, kind: Kind, tool: string, verifier: string) {
    && (forall k :: ExecuteTool(workflow, k) == if k == kind then Some(tool) else None)
    && VerifyTool(workflow) == verifier
  }

  /** Which tools stand behind the steps of the runs that count people or read rasters. */
  lemma {:induction false} ToolsOfData()
    ensures RecordedAs(NagoyaDensity, Density, "run_nagoya_density", "duckdb_verify")
    ensures RecordedAs(NagoyaGeoparquetDensity, Density, "run_geoparquet_density", "duckdb_verify")
    ensures RecordedAs(RemoteCogDemo, CogMetadata, "run_remote_cog_metadata", "cog_metadata_verify")
    ensures RecordedAs(LocalCogDemo, CogMetadata, "run_local_cog_metadata", "cog_metadata_verify")
  {}

  /** Likewise for the runs that read catalogs, export tiles or measure exposure. */
  lemma {:induction false} ToolsOfCatalogs()
    ensures RecordedAs(NagoyaGeoparquet, Geoparquet, "run_geoparquet_read", "geoparquet_feature_verify")
    ensures RecordedAs(ExternalStacDemo, StacCollection, "run_stac_fetch", "stac_collection_verify")
    ensures RecordedAs(DashboardExportDemo, DashboardExport, "run_pmtiles_export", "tile_roundtrip_verify")
    ensures RecordedAs(NagoyaFloodExposure, FloodExposure, "run_flood_exposure", "duckdb_verify")
  {}

  /** Likewise for the runs that route, compare seasons or compare epochs. */
  lemma {:induction false} ToolsOfAnalyses()
    ensures RecordedAs(NagoyaXminCity, Accessibility, "run_accessibility_score", "route_sanity_verify")
    ensures RecordedAs(NagoyaEvacuationAccess, Evacuation, "run_evacuation_access", "route_sanity_verify")
    ensures RecordedAs(SentinelNdviTimeseries, NdviTimeseries, "run_index_timeseries", "index_range_verify")
    ensures RecordedAs(CopcChangeDetect, PointCloudChange, "run_copc_change", "volume_delta_verify")
  {}

  // ------------------------------------------------------------------ what the loop should decide

  function Verdict(a: Attempt): Option<bool>
    requires a.Runs?
  {
    if a.output.DensityOutput? then Some(a.output.dispatch.passed) else a.verifier
  }

  /** The attempt ran, was the right kind, and its verification answered. */
  predicate Answered(workflow: Workflow, a: Attempt) {
    a.Runs? && ExecuteTool(workflow, LegacyWorkflow(a.output).kind).Some? && Verdict(a).Some?
  }

  predicate Rejected(workflow: Workflow, a: Attempt) {
    Answered(workflow, a) && Verdict(a) == Some(false)
  }

  function Problem(workflow: Workflow, a: Attempt): Error
    requires !Answered(workflow, a)
  {
    if a.Fails? then ExecutionFailed
    else if ExecuteTool(workflow, LegacyWorkflow(a.output).kind).None? then WorkflowMismatch
    else VerifierFailed
  }

  /** The first attempt from k on that is not rejected, or the last one allowed. */
  function LastAttempt(workflow: Workflow, attempts: nat -> Attempt, k: nat, most: nat): (n: nat)
    requires k <= most
    ensures k <= n <= most
    ensures forall j :: k <= j < n ==> Rejected(workflow, attempts(j))
    ensures n == most || !Rejected(workflow, attempts(n))
    decreases most - k
  {
    if k == most || !Rejected(workflow, attempts(k)) then k else LastAttempt(workflow, attempts, k + 1, most)
  }

  /** The steps of one answered attempt. */
  function Turn(workflow: Workflow, a: Attempt, k: nat): seq<Step>
    requires Answered(workflow, a)
  {
    (if k > 1 then [RetryStep(k)] else [])
    + [ExecuteStep(ExecuteTool(workflow, LegacyWorkflow(a.output).kind).value, k),
       VerifyStep(VerifyTool(workflow), Verdict(a).value, k)]
  }

  predicate AllAnswered(workflow: Workflow, attempts: nat -> Attempt, n: nat) {
    forall k :: 1 <= k <= n ==> Answered(workflow, attempts(k))
  }

  function Trace(plan: Plan, workflow: Workflow, attempts: nat -> Attempt, n: nat): seq<Step>
    requires AllAnswered(workflow, attempts, n)
  {
    if n == 0 then [PlanStep(PlannedTools(plan)), CatalogStep]
    else Trace(plan, workflow, attempts, n - 1) + Turn(workflow, attempts(n), n)
  }

  function Ask(builders: Builders, output: Output): Option<int> {
    match output
    case DensityOutput(dispatch) => builders.fromDispatch(dispatch)
    case OtherOutput(kind, payload) => builders.fromExecuted(Executed(kind, payload))
  }

  /** The whole run, decided by its last attempt. */
  function Outcome(plan: Plan, workflow: Workflow, attempts: nat -> Attempt, most: nat,
                   builders: Builders): Result<Run, Error>
    requires most >= 1
  {
    var n := LastAttempt(workflow, attempts, 1, most);
    var last := attempts(n);
    if !Answered(workflow, last) then Err(Problem(workflow, last))
    else if Verdict(last) == Some(false) then
      Ok(Run(false, false, n, Trace(plan, workflow, attempts, n), VerificationFailed(n)))
    else
      match Ask(builders, last.output)
      case None => Err(BuilderFailed)
      case Some(result) => Ok(Run(false, true, n, Trace(plan, workflow, attempts, n), Asked(result)))
  }

  // ------------------------------------------------------------------ the loop

  lemma LastAttemptIs(workflow: Workflow, attempts: nat -> Attempt, k: nat, n: nat, most: nat)
    requires k <= n <= most && (n == most || !Rejected(workflow, attempts(n)))
    requires forall j :: k <= j < n ==> Rejected(workflow, attempts(j))
    ensures LastAttempt(workflow, attempts, k, most) == n
    decreases n - k
  {
    hide Rejected;
    if k < n {
      LastAttemptIs(workflow, attempts, k + 1, n, most);
    }
  }

  lemma OutcomeIs(plan: Plan, workflow: Workflow, attempts: nat -> Attempt, most: nat, builders: Builders)
    requires most >= 1
    ensures var n := LastAttempt(workflow, attempts, 1, most);
            var last := attempts(n);
            && AllAnswered(workflow, attempts, n) == Answered(workflow, last)
            && (!Answered(workflow, last) ==>
                  Outcome(plan, workflow, attempts, most, builders) == Err(Problem(workflow, last)))
            && (Answered(workflow, last) ==>
                  Outcome(plan, workflow, attempts, most, builders)
                  == if Verdict(last) == Some(false) then
                       Ok(Run(false, false, n, Trace(plan, workflow, attempts, n), VerificationFailed(n)))
                     else
                       match Ask(builders, last.output)
                       case None => Err(BuilderFailed)
                       case Some(result) => Ok(Run(false, true, n, Trace(plan, workflow, attempts, n), Asked(result))))
  {
    hide Answered, Trace;
    var n := LastAttempt(workflow, attempts, 1, most);
    forall k | 1 <= k < n ensures Answered(workflow, attempts(k)) {
      assert Rejected(workflow, attempts(k));
    }
  }

  /** The deciding facts after the first n attempts. */
  ghost predicate Decided(workflow: Workflow, attempts: nat -> Attempt, n: nat, verified: bool) {
    && AllAnswered(workflow, attempts, n)
    && (forall k :: 1 <= k <= n && (k < n || !verified) ==> Rejected(workflow, attempts(k)))
    && (n == 0 ==> !verified)
  }

  lemma NothingTraced(plan: Plan, workflow: Workflow, attempts: nat -> Attempt)
    ensures Decided(workflow, attempts, 0, false)
    ensures AllAnswered(workflow, attempts, 0)
            && Trace(plan, workflow, attempts, 0) == [PlanStep(PlannedTools(plan)), CatalogStep]
  {}

  lemma TraceOfOneMore(plan: Plan, workflow: Workflow, attempts: nat -> Attempt, n: nat)
    requires n >= 1 && AllAnswered(workflow, attempts, n - 1) && Answered(workflow, attempts(n))
    ensures AllAnswered(workflow, attempts, n)
    ensures Trace(plan, workflow, attempts, n)
            == Trace(plan, workflow, attempts, n - 1) + Turn(workflow, attempts(n), n)
  {
    hide Answered;
  }

  /** What one turn of the loop leaves behind. */
  datatype TurnResult = TurnResult(steps: seq<Step>, verified: bool, executed: Executed, dispatch: Option<Dispatch>)

  /** One turn: execute, record, verify, record. */
  method RunAttempt(workflow: Workflow, next: Attempt, attempt: nat) returns (r: Result<TurnResult, Error>)
    ensures r.Ok? <==> Answered(workflow, next)
    ensures r.Err? ==> r.error == Problem(workflow, next)
    ensures r.Ok? ==>
      && r.value.steps == Turn(workflow, next, attempt)
      && Verdict(next) == Some(r.value.verified) && r.value.executed == LegacyWorkflow(next.output)
      && (next.output.DensityOutput? ==> r.value.dispatch == Some(next.output.dispatch))
  {
    hide ExecuteTool, VerifyTool;
    var steps := if attempt > 1 then [RetryStep(attempt)] else [];
    if next.Fails? {
      return Err(ExecutionFailed);
    }
    var executed := LegacyWorkflow(next.output);
    var tool := ExecuteTool(workflow, executed.kind);
    if tool.None? {
      return Err(WorkflowMismatch);
    }
    assert tool.value in EXECUTOR_TOOLS;
    steps := steps + [ExecuteStep(tool.value, attempt)];
    var dispatch, verified := None, false;
    if next.output.DensityOutput? {
      dispatch := Some(next.output.dispatch);
      verified := next.output.dispatch.passed;
    } else if next.verifier.None? {
      return Err(VerifierFailed);
    } else {
      verified := next.verifier.value;
    }
    steps := steps + [VerifyStep(VerifyTool(workflow), verified, attempt)];
    r := Ok(TurnResult(steps, verified, executed, dispatch));
  }

  lemma DecidedNext(workflow: Workflow, attempts: nat -> Attempt, n: nat, verified: bool)
    requires n >= 1 && Decided(workflow, attempts, n - 1, false)
    requires Answered(workflow, attempts(n)) && Verdict(attempts(n)) == Some(verified)
    ensures Decided(workflow, attempts, n, verified)
  {
    hide Answered;
  }

  lemma DecidedIsLast(workflow: Workflow, attempts: nat -> Attempt, n: nat, verified: bool, most: nat)
    requires Decided(workflow, attempts, n, verified) && 1 <= n <= most && (verified || n == most)
    requires Verdict(attempts(n)) == Some(verified)
    ensures LastAttempt(workflow, attempts, 1, most) == n
  {
    hide Answered;
    LastAttemptIs(workflow, attempts, 1, n, most);
  }

  lemma AnsweredRuns(workflow: Workflow, a: Attempt)
    requires Answered(workflow, a)
    ensures a.Runs?
  {}

  lemma UnansweredIsLast(workflow: Workflow, attempts: nat -> Attempt, n: nat, most: nat)
    requires 1 <= n <= most && Decided(workflow, attempts, n - 1, false) && !Answered(workflow, attempts(n))
    ensures LastAttempt(workflow, attempts, 1, most) == n
  {
    hide Answered;
    LastAttemptIs(workflow, attempts, 1, n, most);
  }

  lemma KindTellsOutput(output: Output)
    ensures LegacyWorkflow(output).kind == Density <==> output.DensityOutput?
    ensures output.OtherOutput? ==> LegacyWorkflow(output) == Executed(output.kind, output.payload)
  {}

  method ExecuteAfterPlan(plan: Plan, workflow: Workflow, datasetKnown: bool, verifyRetries: nat,
                          attempts: nat -> Attempt, builders: Builders)
    returns (r: Result<Run, Error>)
    ensures r == if datasetKnown then Outcome(plan, workflow, attempts, MaxInt(verifyRetries, 1), builders)
                 else Err(NoDataset)
  {
    hide Trace, LastAttempt, Outcome, AllAnswered, Answered, Rejected, Turn, Problem, LegacyWorkflow, Verdict, Decided;
    if !datasetKnown {
      return Err(NoDataset);
    }
    NothingTraced(plan, workflow, attempts);
    var steps := [PlanStep(PlannedTools(plan)), CatalogStep];
    var maxAttempts := MaxInt(verifyRetries, 1);
    var verifyAttempts: nat := 0;
    var verified := false;
    var executed: Option<Executed> := None;
    var nagoyaDispatch: Option<Dispatch> := None;
    var attempt: nat := 1;
    while attempt <= maxAttempts && !verified
      invariant 1 <= attempt <= maxAttempts + 1 && verifyAttempts == attempt - 1
      invariant Decided(workflow, attempts, verifyAttempts, verified)
      invariant AllAnswered(workflow, attempts, verifyAttempts)
      invariant steps == Trace(plan, workflow, attempts, verifyAttempts)
      invariant verifyAttempts == 0 ==> !verified
      invariant verifyAttempts > 0 ==>
        var last := attempts(verifyAttempts);
        && Answered(workflow, last) && last.Runs? && Verdict(last) == Some(verified)
        && executed == Some(LegacyWorkflow(last.output))
        && (last.output.DensityOutput? ==> nagoyaDispatch == Some(last.output.dispatch))
      decreases maxAttempts - verifyAttempts
    {
      var next := attempts(attempt);
      var turn := RunAttempt(workflow, next, attempt);
      if turn.Err? {
        UnansweredIsLast(workflow, attempts, attempt, maxAttempts);
        OutcomeIs(plan, workflow, attempts, maxAttempts, builders);
        return Err(turn.error);
      }
      AnsweredRuns(workflow, next);
      TraceOfOneMore(plan, workflow, attempts, attempt);
      DecidedNext(workflow, attempts, attempt, turn.value.verified);
      steps := steps + turn.value.steps;
      verified, executed := turn.value.verified, Some(turn.value.executed);
      if turn.value.dispatch.Some? {
        nagoyaDispatch := turn.value.dispatch;
      }
      verifyAttempts := attempt;
      attempt := attempt + 1;
    }
    DecidedIsLast(workflow, attempts, verifyAttempts, verified, maxAttempts);
    OutcomeIs(plan, workflow, attempts, maxAttempts, builders);
    if !verified {
      return Ok(Run(false, false, verifyAttempts, steps, VerificationFailed(verifyAttempts)));
    }
    KindTellsOutput(attempts(verifyAttempts).output);
    var ask := if executed.value.kind == Density then builders.fromDispatch(nagoyaDispatch.value)
               else builders.fromExecuted(executed.value);
    if ask.None? {
      return Err(BuilderFailed);
    }
    r := Ok(Run(false, true, verifyAttempts, steps, Asked(ask.value)));
  }

  // ------------------------------------------------------------------ what a completed run shows

  /** Where each attempt's steps stand in the trace. */
  lemma {:induction false} TraceShape(plan: Plan, workflow: Workflow, attempts: nat -> Attempt, n: nat, k: nat)
    requires AllAnswered(workflow, attempts, n) && 1 <= k <= n
    ensures var steps := Trace(plan, workflow, attempts, n);
            && |steps| == 3 * n + 1 && steps[..2] == [PlanStep(PlannedTools(plan)), CatalogStep]
            && (k > 1 ==> steps[3 * k - 2] == RetryStep(k))
            && steps[3 * k - 1] == ExecuteStep(ExecuteTool(workflow, LegacyWorkflow(attempts(k).output).kind).value, k)
            && steps[3 * k] == VerifyStep(VerifyTool(workflow), Verdict(attempts(k)).value, k)
  {
    hide ExecuteTool, VerifyTool, Answered;
    if n == 1 {
      assert Trace(plan, workflow, attempts, 0) == [PlanStep(PlannedTools(plan)), CatalogStep];
    } else {
      TraceShape(plan, workflow, attempts, n - 1, if k < n then k else n - 1);
    }
  }

  /** What an attempt that ran says about itself: density runs carry their own verdict. */
  predicate PassedItself(a: Attempt)
    requires a.Runs?
  {
    if a.output.DensityOutput? then a.output.dispatch.passed else a.verifier.Some? && a.verifier.value
  }

  lemma {:induction false} AnsweredTells(workflow: Workflow, a: Attempt)
    requires Answered(workflow, a)
    ensures a.Runs? && Verdict(a).Some? && Verdict(a).value == PassedItself(a)
    ensures Rejected(workflow, a) <==> !PassedItself(a)
  {
    hide ExecuteTool;
  }

  lemma PlannedToolsAre(plan: Plan)
    ensures plan.toolCalls == [] ==> PlannedTools(plan) == ["plan_workflow"]
    ensures plan.toolCalls != [] ==>
      |PlannedTools(plan)| == |plan.toolCalls|
      && forall k :: 0 <= k < |plan.toolCalls| ==> PlannedTools(plan)[k] == plan.toolCalls[k].tool
  {}

  /**
   * A completed run: between one and the allowed number of attempts; it passes exactly when the
   * last attempt passed, every earlier one having failed; it fails only after using all attempts.
   */
  lemma {:induction false} CompletedRun(plan: Plan, workflow: Workflow, attempts: nat -> Attempt, most: nat,
                                        builders: Builders)
    requires most >= 1 && Outcome(plan, workflow, attempts, most, builders).Ok?
    ensures var run := Outcome(plan, workflow, attempts, most, builders).value;
            var n := run.verifyAttempts;
            && 1 <= n <= most && !run.planOnly
            && |run.steps| == 3 * n + 1
            && run.steps[..2] == [PlanStep(PlannedTools(plan)), CatalogStep]
            && (forall k :: 2 <= k <= n ==> run.steps[3 * k - 2] == RetryStep(k))
            && (forall k :: 1 <= k <= n ==> attempts(k).Runs?)
            && (forall k :: 1 <= k < n ==> !PassedItself(attempts(k)))
            && run.verificationPassed == PassedItself(attempts(n))
            && run.steps[3 * n] == VerifyStep(VerifyTool(workflow), run.verificationPassed, n)
            && (forall k :: 1 <= k < n ==> run.steps[3 * k] == VerifyStep(VerifyTool(workflow), false, k))
            && (!run.verificationPassed ==> n == most && run.summary == VerificationFailed(n))
            && (run.verificationPassed ==>
                  run.summary.Asked?
                  && Some(run.summary.result)
                     == if attempts(n).output.DensityOutput? then builders.fromDispatch(attempts(n).output.dispatch)
                        else builders.fromExecuted(Executed(attempts(n).output.kind, attempts(n).output.payload)))
  {
    hide ExecuteTool, VerifyTool, Trace, Answered, Rejected, LastAttempt, PlannedTools, PassedItself, Outcome;
    OutcomeIs(plan, workflow, attempts, most, builders);
    var n := LastAttempt(workflow, attempts, 1, most);
    forall k | 1 <= k <= n
      ensures |Trace(plan, workflow, attempts, n)| == 3 * n + 1 && attempts(k).Runs?
      ensures k > 1 ==> Trace(plan, workflow, attempts, n)[3 * k - 2] == RetryStep(k)
      ensures Trace(plan, workflow, attempts, n)[3 * k]
              == VerifyStep(VerifyTool(workflow), PassedItself(attempts(k)), k)
      ensures k < n ==> !PassedItself(attempts(k))
    {
      TraceShape(plan, workflow, attempts, n, k);
      AnsweredTells(workflow, attempts(k));
    }
    TraceShape(plan, workflow, attempts, n, n);
    AnsweredTells(workflow, attempts(n));
    var run := Outcome(plan, workflow, attempts, most, builders).value;
    assert run.verifyAttempts == n && !run.planOnly && run.steps == Trace(plan, workflow, attempts, n);
    assert run.verificationPassed == PassedItself(attempts(n));
    assert !run.verificationPassed ==> Rejected(workflow, attempts(n));
    assert !run.verificationPassed ==> n == most;
    assert !run.verificationPassed ==> run.summary == VerificationFailed(n);
  }

  /** Why a run breaks off: in the first attempt that is not rejected, by the step that goes wrong first. */
  lemma {:induction false} BrokenRun(plan: Plan, workflow: Workflow, attempts: nat -> Attempt, most: nat,
                                     builders: Builders)
    requires most >= 1 && Outcome(plan, workflow, attempts, most, builders).Err?
    ensures var reason := Outcome(plan, workflow, attempts, most, builders).error;
            var n := LastAttempt(workflow, attempts, 1, most);
            var a := attempts(n);
            && 1 <= n <= most && (forall k :: 1 <= k < n ==> attempts(k).Runs? && !PassedItself(attempts(k)))
            && (reason == ExecutionFailed <==> a.Fails?)
            && (reason == WorkflowMismatch
                <==> a.Runs? && ExecuteTool(workflow, LegacyWorkflow(a.output).kind).None?)
            && (reason == VerifierFailed
                <==> && a.Runs? && ExecuteTool(workflow, LegacyWorkflow(a.output).kind).Some?
                     && a.output.OtherOutput? && a.verifier.None?)
            && (reason == BuilderFailed ==> a.Runs? && PassedItself(a))
  {
    hide ExecuteTool, VerifyTool, Trace, LastAttempt, PassedItself;
    var n := LastAttempt(workflow, attempts, 1, most);
    forall k | 1 <= k < n ensures attempts(k).Runs? && !PassedItself(attempts(k)) {
      AnsweredTells(workflow, attempts(k));
    }
    if Answered(workflow, attempts(n)) {
      AnsweredTells(workflow, attempts(n));
    }
  }

  /** More retries never turn a passing run into anything else. */
  lemma MoreRetriesKeepPassing(plan: Plan, workflow: Workflow, attempts: nat -> Attempt, most: nat, more: nat,
                               builders: Builders)
    requires 1 <= most <= more
    requires var r := Outcome(plan, workflow, attempts, most, builders);
             r.Ok? && r.value.verificationPassed
    ensures Outcome(plan, workflow, attempts, more, builders) == Outcome(plan, workflow, attempts, most, builders)
  {
    hide Answered, Verdict;
    LastAttemptIs(workflow, attempts, 1, LastAttempt(workflow, attempts, 1, most), more);
  }

  // ------------------------------------------------------------------ whole prompts

  /** A plan-only prompt stops after planning. */
  function PromptOutcome(plan: Plan, workflow: Workflow, planOnly: bool, datasetKnown: bool, most: nat,
                         attempts: nat -> Attempt,
                         builders: Builders): Result<Run, Error>
    requires most >= 1
  {
    if plan.fromModel && exists call <- plan.toolCalls :: !CallAllowed(call) then Err(PlannerToolRefused)
    else if planOnly then Ok(Run(true, false, 0, [PlanStep(PlannedTools(plan))], PlanSummary))
    else if !datasetKnown then Err(NoDataset)
    else Outcome(plan, workflow, attempts, most, builders)
  }

  method RunPrompt(plan: Plan, workflow: Workflow, planOnly: bool, datasetKnown: bool, verifyRetries: nat,
                   attempts: nat -> Attempt, builders: Builders)
    returns (r: Result<Run, Error>)
    ensures r == PromptOutcome(plan, workflow, planOnly, datasetKnown, MaxInt(verifyRetries, 1), attempts, builders)
  {
    hide Outcome, CallAllowed;
    if plan.fromModel {
      var allowed := ValidatePlannerTools(plan.toolCalls);
      if !allowed {
        return Err(PlannerToolRefused);
      }
    }
    if planOnly {
      return Ok(Run(true, false, 0, [PlanStep(PlannedTools(plan))], PlanSummary));
    }
    r := ExecuteAfterPlan(plan, workflow, datasetKnown, verifyRetries, attempts, builders);
  }

  lemma {:induction false} OutcomeErrors(plan: Plan, workflow: Workflow, attempts: nat -> Attempt, most: nat,
                                         builders: Builders)
    requires most >= 1
    ensures Outcome(plan, workflow, attempts, most, builders) != Err(PlannerToolRefused)
  {
    hide Trace, LastAttempt;
  }

  /** What a prompt comes to before any attempt: a refused plan, a plan alone, or an unknown dataset. */
  lemma {:induction false} PromptStops(plan: Plan, workflow: Workflow, planOnly: bool, datasetKnown: bool, most: nat,
                                       attempts: nat -> Attempt, builders: Builders)
    requires most >= 1
    ensures var r := PromptOutcome(plan, workflow, planOnly, datasetKnown, most, attempts, builders);
            var refused := plan.fromModel && exists call <- plan.toolCalls :: call.tool !in PLANNER_TOOLS || !call.ok;
            && (r == Err(PlannerToolRefused) <==> refused)
            && (!refused && planOnly ==>
                  r.Ok? && r.value.planOnly && !r.value.verificationPassed && r.value.verifyAttempts == 0
                  && r.value.steps == [PlanStep(PlannedTools(plan))] && r.value.summary == PlanSummary)
            && (!refused && !planOnly && !datasetKnown ==> r == Err(NoDataset))
  {
    hide Outcome, PLANNER_TOOLS;
    OutcomeErrors(plan, workflow, attempts, most, builders);
    assert forall call <- plan.toolCalls :: CallAllowed(call) <==> call.tool in PLANNER_TOOLS && call.ok;
  }

  /** Attempt n passes after every earlier one was rejected, and its result can be built. */
  ghost predicate FirstPasses(workflow: Workflow, attempts: nat -> Attempt, builders: Builders, n: nat) {
    && (forall k :: 1 <= k < n ==> Rejected(workflow, attempts(k)))
    && Answered(workflow, attempts(n)) && Verdict(attempts(n)) == Some(true)
    && Ask(builders, attempts(n).output).Some?
  }

  /** What a claim of verification is worth: it is made exactly when some allowed attempt first passes. */
  lemma {:induction false} ClaimsVerificationIff(plan: Plan, workflow: Workflow, planOnly: bool, datasetKnown: bool,
                                                 most: nat,
                                                 attempts: nat -> Attempt, builders: Builders)
    requires most >= 1
    ensures var r := PromptOutcome(plan, workflow, planOnly, datasetKnown, most, attempts, builders);
            (r.Ok? && r.value.verificationPassed)
            <==> !planOnly && datasetKnown && (plan.fromModel ==> forall call <- plan.toolCalls :: CallAllowed(call))
                 && exists n: nat :: 1 <= n <= most && FirstPasses(workflow, attempts, builders, n)
  {
    hide ExecuteTool, VerifyTool, Trace, Outcome, LastAttempt, Ask;
    OutcomeIs(plan, workflow, attempts, most, builders);
    if n: nat :| 1 <= n <= most && FirstPasses(workflow, attempts, builders, n) {
      LastAttemptIs(workflow, attempts, 1, n, most);
    }
    var last := LastAttempt(workflow, attempts, 1, most);
    if Answered(workflow, attempts(last)) && Verdict(attempts(last)).value
       && Ask(builders, attempts(last).output).Some? {
      assert Verdict(attempts(last)) == Some(true);
      assert FirstPasses(workflow, attempts, builders, last);
    }
  }

  /** The tools a step is recorded under are on the allowlist of its role. */
  predicate StepAllowed(step: Step) {
    match step
    case PlanStep(tools) => forall tool <- tools :: tool in PLANNER_TOOLS
    case CatalogStep => "catalog_resolve" in EXECUTOR_TOOLS
    case RetryStep(_) => "verify_retry" in EXECUTOR_TOOLS
    case ExecuteStep(tool, _) => tool in EXECUTOR_TOOLS
    case VerifyStep(tool, _, _) => tool in VERIFIER_TOOLS
  }

  lemma {:induction false} TurnAllowed(workflow: Workflow, a: Attempt, k: nat)
    requires Answered(workflow, a)
    ensures forall step <- Turn(workflow, a, k) :: StepAllowed(step)
  {
    hide ExecuteTool, VerifyTool;
    forall step | step in Turn(workflow, a, k) ensures StepAllowed(step) {
      assert step == RetryStep(k) || step == ExecuteStep(ExecuteTool(workflow, LegacyWorkflow(a.output).kind).value, k)
             || step == VerifyStep(VerifyTool(workflow), Verdict(a).value, k);
    }
  }

  /** The planner's own step is allowed exactly when every tool it called is on its list. */
  lemma {:induction false} PlanAllowedIff(plan: Plan)
    ensures StepAllowed(PlanStep(PlannedTools(plan))) <==> forall call <- plan.toolCalls :: call.tool in PLANNER_TOOLS
    ensures StepAllowed(CatalogStep)
  {
    var tools := PlannedTools(plan);
    if plan.toolCalls == [] {
      assert forall tool <- tools :: tool == "plan_workflow";
    } else {
      assert forall k :: 0 <= k < |tools| ==> tools[k] == plan.toolCalls[k].tool;
      forall call | call in plan.toolCalls ensures call.tool in tools {
        var k :| 0 <= k < |plan.toolCalls| && plan.toolCalls[k] == call;
        assert tools[k] == call.tool;
      }
    }
  }

  lemma {:induction false} TraceAllowedIff(plan: Plan, workflow: Workflow, attempts: nat -> Attempt, n: nat)
    requires AllAnswered(workflow, attempts, n)
    ensures (forall step <- Trace(plan, workflow, attempts, n) :: StepAllowed(step))
            <==> StepAllowed(PlanStep(PlannedTools(plan)))
    ensures PlanStep(PlannedTools(plan)) in Trace(plan, workflow, attempts, n)
  {
    hide Answered, Turn, StepAllowed;
    PlanAllowedIff(plan);
    if n > 0 {
      TraceAllowedIff(plan, workflow, attempts, n - 1);
      TurnAllowed(workflow, attempts(n), n);
    }
  }

  /**
   * Every step of a run is recorded under tools of its role's allowlist exactly when the
   * planner's calls are.  Plans of a language model have been checked for that; others are
   * recorded as they come.
   */
  lemma {:induction false} EveryStepAllowedIff(plan: Plan, workflow: Workflow, planOnly: bool, datasetKnown: bool,
                                               most: nat,
                                               attempts: nat -> Attempt, builders: Builders)
    requires most >= 1
    ensures var r := PromptOutcome(plan, workflow, planOnly, datasetKnown, most, attempts, builders);
            r.Ok? ==>
              && ((forall step <- r.value.steps :: StepAllowed(step))
                  <==> forall call <- plan.toolCalls :: call.tool in PLANNER_TOOLS)
              && (plan.fromModel ==> forall step <- r.value.steps :: StepAllowed(step))
  {
    hide StepAllowed, Outcome, Trace;
    PlanAllowedIff(plan);
    OutcomeIs(plan, workflow, attempts, most, builders);
    var n := LastAttempt(workflow, attempts, 1, most);
    if AllAnswered(workflow, attempts, n) {
      TraceAllowedIff(plan, workflow, attempts, n);
    }
  }
}
