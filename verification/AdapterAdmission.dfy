/**
 * The fail-closed admission decision for external adapters: `admit`, `validate_manifest`,
 * `admission_report` and `valid_digest` of crates/genegis-adapter/src/lib.rs.
 *
 * The code collects a list of failures; what it decides is stated without the list.
 */
module AdapterAdmission {
  import opened Common

  datatype Capability =
    | FileRead | FileWrite | NetworkRead | NetworkWrite | DatabaseRead | DatabaseWrite | ProcessSpawn | NativeCode | Gpu

  datatype Hook =
    | InputDigests | OutputDigests | Parameters | QueryPlanDigest | Warnings | ComponentIdentity | EnvironmentDigest
    | IoMetrics | TransactionContext

  /** Both in declaration order, the order the sets are walked in. */
  const CAPABILITIES: seq<Capability> :=
    [FileRead, FileWrite, NetworkRead, NetworkWrite, DatabaseRead, DatabaseWrite, ProcessSpawn, NativeCode, Gpu]

  const HOOKS: seq<Hook> :=
    [InputDigests, OutputDigests, Parameters, QueryPlanDigest, Warnings, ComponentIdentity, EnvironmentDigest,
     IoMetrics, TransactionContext]

  datatype Determinism = Deterministic | Seeded | ToleranceBounded | Unknown

  datatype Family = Gdal | DuckDbSpatial | Postgis | Grass | QgisProcessing | OgcWebService | Geocoding | LiveFeed

  datatype Backend = Backend(family: Family, engineVersion: string, buildDigest: string,
                             components: map<string, string>)

  /** A port contract, with what its own validation objects to, if anything. */
  datatype Contract = Contract(id: string, objection: Option<string>)

  datatype Operation = Operation(id: string, version: string, inputs: seq<Contract>, outputs: seq<Contract>,
                                 capabilities: set<Capability>, determinism: Determinism,
                                 hooks: set<Hook>, isOpaque: bool)

  datatype Manifest = Manifest(schemaVersion: string, adapterId: string, adapterVersion: string, backend: Backend,
                               license: string, operations: seq<Operation>)

  datatype Invocation = Invocation(adapterId: string, adapterVersion: string, operationId: string,
                                   operationVersion: string, backend: Backend, requested: set<Capability>)

  datatype Policy = Policy(accepted: set<string>, allowed: set<Capability>, requiredHooks: set<Hook>,
                           rejectOpaque: bool, rejectUnknown: bool)

  datatype Subject =
    | Named(text: string) | Privilege(capability: Capability) | Evidence(hook: Hook) | Engine(family: Family)

  datatype Failure = Failure(code: string, subject: Subject)

  datatype Report = Report(admitted: bool, verificationEligible: bool, failures: seq<Failure>)

  const SCHEMA_VERSION: string := "0.1.0"

  predicate HexDigit(c: char) {
    '0' <= c <= '9' || 'a' <= c <= 'f' || 'A' <= c <= 'F'
  }

  predicate ValidDigest(value: string) {
    "sha256:" <= value && |value| == 7 + 64 && forall c <- value[7..] :: HexDigit(c)
  }

  const HEX_DIGITS: string := "0123456789abcdefABCDEF"

  lemma {:induction false} HexDigitIff(c: char)
    ensures HexDigit(c) <==> c in HEX_DIGITS
  {
    if HexDigit(c) {
      var k := c as int - if c <= '9' then '0' as int else if c >= 'a' then 'a' as int - 10 else 'A' as int - 16;
      assert HEX_DIGITS[k] == c;
    }
  }

  /** The name of the hash, a colon and 64 hexadecimal digits. */
  lemma {:induction false} DigestForm(value: string)
    ensures ValidDigest(value)
            <==> |value| == 71 && value[..7] == "sha256:" && forall k :: 7 <= k < 71 ==> value[k] in HEX_DIGITS
  {
    hide HexDigit, HEX_DIGITS;
    forall c: char ensures HexDigit(c) <==> c in HEX_DIGITS {
      HexDigitIff(c);
    }
    if |value| == 71 {
      assert forall k :: 7 <= k < 71 ==> value[k] == value[7..][k - 7];
      assert forall k :: 0 <= k < 64 ==> value[7..][k] == value[k + 7];
    }
  }

  function When(condition: bool, code: string, subject: Subject): seq<Failure> {
    if condition then [Failure(code, subject)] else []
  }

  // ------------------------------------------------------------------ what may be admitted

  predicate ValidOperation(o: Operation) {
    && !Blank(o.id) && !Blank(o.version)
    && o.inputs != [] && o.outputs != []
    && (forall c <- o.inputs :: c.objection.None?) && (forall c <- o.outputs :: c.objection.None?)
  }

  predicate UniqueIds(operations: seq<Operation>) {
    forall i, j :: 0 <= i < j < |operations| ==> operations[i].id != operations[j].id
  }

  predicate ValidManifest(m: Manifest) {
    && m.schemaVersion == SCHEMA_VERSION
    && !Blank(m.adapterId) && !Blank(m.adapterVersion) && !Blank(m.backend.engineVersion) && !Blank(m.license)
    && ValidDigest(m.backend.buildDigest)
    && m.operations != [] && (forall o <- m.operations :: ValidOperation(o))
    && UniqueIds(m.operations)
  }

  /** The reviewed operation agrees with the request and with the policy. */
  predicate Permitted(o: Operation, inv: Invocation, p: Policy) {
    && o.version == inv.operationVersion
    && o.capabilities == inv.requested && inv.requested <= p.allowed
    && p.requiredHooks <= o.hooks
    && (p.rejectOpaque ==> !o.isOpaque)
    && (p.rejectUnknown ==> o.determinism != Unknown)
  }

  /** Everything agrees, and the requested operation, which only one entry can declare, is permitted. */
  predicate Admissible(m: Manifest, inv: Invocation, p: Policy) {
    && ValidManifest(m)
    && inv.adapterId == m.adapterId && inv.adapterVersion == m.adapterVersion && inv.backend == m.backend
    && m.adapterId in p.accepted
    && exists o :: o in m.operations && o.id == inv.operationId && Permitted(o, inv, p)
  }

  // ------------------------------------------------------------------ the failures, in order

  function ContractFailures(contracts: seq<Contract>): seq<Failure> {
    if contracts == [] then []
    else
      var c := contracts[|contracts| - 1];
      ContractFailures(contracts[..|contracts| - 1])
      + When(c.objection.Some?, "invalid_operation_contract", Named(c.id))
  }

  /** The identifiers recorded so far; an operation with a blank field never gets that far. */
  function Recorded(operations: seq<Operation>): set<string> {
    set o | o in operations && !Blank(o.id) && !Blank(o.version) :: o.id
  }

  function OperationObjections(o: Operation, invalidIdentity: bool): seq<Failure> {
    When(invalidIdentity, "invalid_operation_identity", Named(o.id))
    + When(o.inputs == [] || o.outputs == [], "missing_operation_contract", Named(o.id))
    + ContractFailures(o.inputs + o.outputs)
  }

  function OperationFailures(operations: seq<Operation>): seq<Failure> {
    if operations == [] then []
    else
      var init, o := operations[..|operations| - 1], operations[|operations| - 1];
      OperationFailures(init)
      + OperationObjections(o, Blank(o.id) || Blank(o.version) || o.id in Recorded(init))
  }

  /** The identity fields in checking order: failure code, subject, value. */
  function Fields(m: Manifest): seq<(string, string, string)> {
    [("unsupported_manifest_schema", "manifest", m.schemaVersion),
     ("missing_adapter_id", "manifest", m.adapterId),
     ("missing_adapter_version", m.adapterId, m.adapterVersion),
     ("missing_backend_version", m.adapterId, m.backend.engineVersion),
     ("invalid_backend_digest", m.adapterId, m.backend.buildDigest),
     ("missing_license", m.adapterId, m.license)]
  }

  predicate ValidField(code: string, value: string) {
    if code == "unsupported_manifest_schema" then value == SCHEMA_VERSION
    else if code == "invalid_backend_digest" then ValidDigest(value)
    else !Blank(value)
  }

  function FieldFailures(fields: seq<(string, string, string)>): seq<Failure> {
    if fields == [] then []
    else
      var (code, subject, value) := fields[|fields| - 1];
      FieldFailures(fields[..|fields| - 1]) + When(!ValidField(code, value), code, Named(subject))
  }

  function ManifestFailures(m: Manifest): seq<Failure> {
    FieldFailures(Fields(m)) + When(m.operations == [], "missing_operations", Named(m.adapterId))
    + OperationFailures(m.operations)
  }

  function IdentityFailures(m: Manifest, inv: Invocation, p: Policy): seq<Failure> {
    When(inv.adapterId != m.adapterId || inv.adapterVersion != m.adapterVersion,
         "adapter_identity_mismatch", Named(inv.adapterId))
    + When(m.adapterId !in p.accepted, "adapter_not_accepted", Named(m.adapterId))
    + When(inv.backend != m.backend, "backend_identity_mismatch", Engine(inv.backend.family))
  }

  /** The first n capabilities that are requested but not allowed. */
  function Denied(requested: set<Capability>, allowed: set<Capability>, n: nat): seq<Failure>
    requires n <= |CAPABILITIES|
  {
    if n == 0 then []
    else
      var c := CAPABILITIES[n - 1];
      Denied(requested, allowed, n - 1) + When(c in requested && c !in allowed, "capability_denied", Privilege(c))
  }

  function MissingHooks(required: set<Hook>, promised: set<Hook>, n: nat): seq<Failure>
    requires n <= |HOOKS|
  {
    if n == 0 then []
    else
      var h := HOOKS[n - 1];
      MissingHooks(required, promised, n - 1)
      + When(h in required && h !in promised, "required_evidence_hook_missing", Evidence(h))
  }

  function RequestFailures(o: Operation, inv: Invocation, p: Policy): seq<Failure> {
    When(o.version != inv.operationVersion, "operation_version_mismatch", Named(inv.operationId))
    + When(inv.requested != o.capabilities, "capability_declaration_mismatch", Named(inv.operationId))
    + Denied(inv.requested, p.allowed, |CAPABILITIES|)
    + MissingHooks(p.requiredHooks, o.hooks, |HOOKS|)
    + When(p.rejectOpaque && o.isOpaque, "opaque_operation_denied", Named(o.id))
    + When(p.rejectUnknown && o.determinism == Unknown, "unknown_determinism_denied", Named(o.id))
  }

  function Find(operations: seq<Operation>, id: string): (o: Option<Operation>)
    ensures o.Some? <==> exists k :: 0 <= k < |operations| && operations[k].id == id
    ensures o.Some? ==> o.value in operations && o.value.id == id
  {
    if operations == [] then None
    else if operations[0].id == id then Some(operations[0])
    else
      assert forall k :: 1 <= k < |operations| ==> operations[k] == operations[1..][k - 1];
      Find(operations[1..], id)
  }

  function Failures(m: Manifest, inv: Invocation, p: Policy): seq<Failure> {
    ManifestFailures(m) + IdentityFailures(m, inv, p)
    + match Find(m.operations, inv.operationId)
      case None => [Failure("operation_not_declared", Named(inv.operationId))]
      case Some(o) => RequestFailures(o, inv, p)
  }

  // ------------------------------------------------------------------ the methods

  method ValidateContracts(contracts: seq<Contract>) returns (failures: seq<Failure>)
    ensures failures == ContractFailures(contracts)
  {
    failures := [];
    for k := 0 to |contracts|
      invariant failures == ContractFailures(contracts[..k])
    {
      assert contracts[..k + 1][..k] == contracts[..k];
      if contracts[k].objection.Some? {
        failures := failures + [Failure("invalid_operation_contract", Named(contracts[k].id))];
      }
    }
    assert contracts[..|contracts|] == contracts;
  }

  method ValidateFields(fields: seq<(string, string, string)>) returns (failures: seq<Failure>)
    ensures failures == FieldFailures(fields)
  {
    hide ValidField;
    failures := [];
    for k := 0 to |fields|
      invariant failures == FieldFailures(fields[..k])
    {
      assert fields[..k + 1][..k] == fields[..k];
      var (code, subject, value) := fields[k];
      if !ValidField(code, value) {
        failures := failures + [Failure(code, Named(subject))];
      }
    }
    assert fields[..|fields|] == fields;
  }

  lemma NoOperations()
    ensures Recorded([]) == {} && OperationFailures([]) == []
  {}

  lemma OneMoreOperation(init: seq<Operation>, o: Operation)
    ensures Recorded(init + [o]) == Recorded(init) + if Blank(o.id) || Blank(o.version) then {} else {o.id}
    ensures OperationFailures(init + [o])
            == OperationFailures(init)
               + OperationObjections(o, Blank(o.id) || Blank(o.version) || o.id in Recorded(init))
  {
    hide Blank, ContractFailures;
    InitAndLast(init, o);
  }

  method ValidateOperations(operations: seq<Operation>) returns (failures: seq<Failure>)
    ensures failures == OperationFailures(operations)
  {
    hide Blank, ContractFailures, OperationFailures, Recorded;
    failures := [];
    var operationIds: set<string> := {};
    NoOperations();
    for k := 0 to |operations|
      invariant operationIds == Recorded(operations[..k])
      invariant failures == OperationFailures(operations[..k])
    {
      var o := operations[k];
      OneMoreOperation(operations[..k], o);
      assert operations[..k + 1] == operations[..k] + [o];
      var isNew := false;
      if !Blank(o.id) && !Blank(o.version) {
        isNew := o.id !in operationIds;
        operationIds := operationIds + {o.id};
      }
      var objections := if isNew then [] else [Failure("invalid_operation_identity", Named(o.id))];
      if o.inputs == [] || o.outputs == [] {
        objections := objections + [Failure("missing_operation_contract", Named(o.id))];
      }
      var contractFailures := ValidateContracts(o.inputs + o.outputs);
      failures := failures + (objections + contractFailures);
    }
    assert operations[..|operations|] == operations;
  }

  method ValidateManifest(m: Manifest) returns (failures: seq<Failure>)
    ensures failures == ManifestFailures(m)
  {
    hide FieldFailures, OperationFailures;
    failures := ValidateFields(Fields(m));
    if m.operations == [] {
      failures := failures + [Failure("missing_operations", Named(m.adapterId))];
    }
    var operationFailures := ValidateOperations(m.operations);
    failures := failures + operationFailures;
  }

  method CheckCapabilities(requested: set<Capability>, allowed: set<Capability>) returns (failures: seq<Failure>)
    ensures failures == Denied(requested, allowed, |CAPABILITIES|)
  {
    failures := [];
    for n := 0 to |CAPABILITIES|
      invariant failures == Denied(requested, allowed, n)
    {
      var c := CAPABILITIES[n];
      if c in requested {
        if c !in allowed {
          failures := failures + [Failure("capability_denied", Privilege(c))];
        }
      }
    }
  }

  method CheckHooks(required: set<Hook>, promised: set<Hook>) returns (failures: seq<Failure>)
    ensures failures == MissingHooks(required, promised, |HOOKS|)
  {
    failures := [];
    for n := 0 to |HOOKS|
      invariant failures == MissingHooks(required, promised, n)
    {
      var h := HOOKS[n];
      if h in required {
        if h !in promised {
          failures := failures + [Failure("required_evidence_hook_missing", Evidence(h))];
        }
      }
    }
  }

  method CheckRequest(o: Operation, inv: Invocation, p: Policy) returns (failures: seq<Failure>)
    ensures failures == RequestFailures(o, inv, p)
  {
    hide Denied, MissingHooks;
    var version, mismatch, isOpaque, unknown: seq<Failure> := [], [], [], [];
    if o.version != inv.operationVersion {
      version := [Failure("operation_version_mismatch", Named(inv.operationId))];
    }
    if inv.requested != o.capabilities {
      mismatch := [Failure("capability_declaration_mismatch", Named(inv.operationId))];
    }
    var denied := CheckCapabilities(inv.requested, p.allowed);
    var missing := CheckHooks(p.requiredHooks, o.hooks);
    if p.rejectOpaque && o.isOpaque {
      isOpaque := [Failure("opaque_operation_denied", Named(o.id))];
    }
    if p.rejectUnknown && o.determinism == Unknown {
      unknown := [Failure("unknown_determinism_denied", Named(o.id))];
    }
    failures := version + mismatch + denied + missing + isOpaque + unknown;
  }

  lemma IdentityFailuresAre(m: Manifest, inv: Invocation, p: Policy)
    ensures IdentityFailures(m, inv, p)
            == (if inv.adapterId != m.adapterId || inv.adapterVersion != m.adapterVersion
                then [Failure("adapter_identity_mismatch", Named(inv.adapterId))] else [])
               + (if m.adapterId !in p.accepted then [Failure("adapter_not_accepted", Named(m.adapterId))] else [])
               + (if inv.backend != m.backend
                  then [Failure("backend_identity_mismatch", Engine(inv.backend.family))] else [])
  {}

  lemma FailuresAre(m: Manifest, inv: Invocation, p: Policy)
    ensures Failures(m, inv, p)
            == ManifestFailures(m) + IdentityFailures(m, inv, p)
               + match Find(m.operations, inv.operationId)
                 case None => [Failure("operation_not_declared", Named(inv.operationId))]
                 case Some(o) => RequestFailures(o, inv, p)
  {}

  // ------------------------------------------------------------------ the list is empty when it should be

  lemma {:induction false} NoContractFailures(contracts: seq<Contract>)
    ensures ContractFailures(contracts) == [] <==> forall c <- contracts :: c.objection.None?
  {
    if contracts != [] {
      NoContractFailures(contracts[..|contracts| - 1]);
    }
  }

  lemma NoObjections(o: Operation, invalidIdentity: bool)
    requires Blank(o.id) || Blank(o.version) ==> invalidIdentity
    ensures OperationObjections(o, invalidIdentity) == [] <==> ValidOperation(o) && !invalidIdentity
    ensures ValidOperation(o) ==> !Blank(o.id) && !Blank(o.version)
  {
    hide Blank, ContractFailures;
    NoContractFailures(o.inputs + o.outputs);
  }

  lemma ValidAreRecorded(operations: seq<Operation>, id: string)
    requires forall o <- operations :: ValidOperation(o)
    ensures id in Recorded(operations) <==> exists k :: 0 <= k < |operations| && operations[k].id == id
  {
    hide Blank;
    forall k | 0 <= k < |operations| && operations[k].id == id ensures id in Recorded(operations) {
      assert operations[k] in operations;
    }
  }

  lemma {:induction false} NoOperationFailures(operations: seq<Operation>)
    ensures OperationFailures(operations) == []
            <==> UniqueIds(operations) && forall o <- operations :: ValidOperation(o)
    decreases |operations|
  {
    hide Blank, ContractFailures, OperationFailures, OperationObjections, Recorded, ValidOperation;
    NoOperations();
    if operations != [] {
      var init, o := operations[..|operations| - 1], operations[|operations| - 1];
      assert operations == init + [o];
      NoOperationFailures(init);
      OneMoreOperation(init, o);
      NoObjections(o, Blank(o.id) || Blank(o.version) || o.id in Recorded(init));
      assert (forall u <- operations :: ValidOperation(u))
             <==> (forall u <- init :: ValidOperation(u)) && ValidOperation(o);
      assert UniqueIds(operations) <==> UniqueIds(init) && forall k :: 0 <= k < |init| ==> init[k].id != o.id;
      if forall u <- init :: ValidOperation(u) {
        ValidAreRecorded(init, o.id);
      }
    }
  }

  lemma {:induction false} AllFieldsValid(fields: seq<(string, string, string)>)
    ensures FieldFailures(fields) == []
            <==> forall k :: 0 <= k < |fields| ==> ValidField(fields[k].0, fields[k].2)
  {
    hide ValidField;
    if fields != [] {
      AllFieldsValid(fields[..|fields| - 1]);
    }
  }

  lemma NoFieldFailures(m: Manifest)
    ensures FieldFailures(Fields(m)) == []
            <==> && m.schemaVersion == SCHEMA_VERSION
                 && !Blank(m.adapterId) && !Blank(m.adapterVersion) && !Blank(m.backend.engineVersion)
                 && !Blank(m.license) && ValidDigest(m.backend.buildDigest)
  {
    hide Blank, ValidDigest, FieldFailures;
    var f := Fields(m);
    AllFieldsValid(f);
    assert f[0] == ("unsupported_manifest_schema", "manifest", m.schemaVersion);
    assert f[1] == ("missing_adapter_id", "manifest", m.adapterId);
    assert f[2] == ("missing_adapter_version", m.adapterId, m.adapterVersion);
    assert f[3] == ("missing_backend_version", m.adapterId, m.backend.engineVersion);
    assert f[4] == ("invalid_backend_digest", m.adapterId, m.backend.buildDigest);
    assert f[5] == ("missing_license", m.adapterId, m.license);
  }

  lemma NoManifestFailures(m: Manifest)
    ensures ManifestFailures(m) == [] <==> ValidManifest(m)
  {
    hide Blank, ValidDigest, FieldFailures, OperationFailures, ValidOperation, Fields;
    NoFieldFailures(m);
    NoOperationFailures(m.operations);
  }

  lemma {:induction false} NothingDenied(requested: set<Capability>, allowed: set<Capability>, n: nat)
    requires n <= |CAPABILITIES|
    ensures Denied(requested, allowed, n) == []
            <==> forall k :: 0 <= k < n && CAPABILITIES[k] in requested ==> CAPABILITIES[k] in allowed
  {
    if n > 0 {
      NothingDenied(requested, allowed, n - 1);
    }
  }

  lemma {:induction false} NoMissingHooks(required: set<Hook>, promised: set<Hook>, n: nat)
    requires n <= |HOOKS|
    ensures MissingHooks(required, promised, n) == []
            <==> forall k :: 0 <= k < n && HOOKS[k] in required ==> HOOKS[k] in promised
  {
    if n > 0 {
      NoMissingHooks(required, promised, n - 1);
    }
  }

  lemma EveryCapabilityListed(c: Capability)
    ensures exists k :: 0 <= k < |CAPABILITIES| && CAPABILITIES[k] == c
  {
    var k := match c
      case FileRead => 0 case FileWrite => 1 case NetworkRead => 2 case NetworkWrite => 3 case DatabaseRead => 4
      case DatabaseWrite => 5 case ProcessSpawn => 6 case NativeCode => 7 case Gpu => 8;
    assert CAPABILITIES[k] == c;
  }

  lemma EveryHookListed(h: Hook)
    ensures exists k :: 0 <= k < |HOOKS| && HOOKS[k] == h
  {
    var k := match h
      case InputDigests => 0 case OutputDigests => 1 case Parameters => 2 case QueryPlanDigest => 3 case Warnings => 4
      case ComponentIdentity => 5 case EnvironmentDigest => 6 case IoMetrics => 7 case TransactionContext => 8;
    assert HOOKS[k] == h;
  }

  lemma NoRequestFailures(o: Operation, inv: Invocation, p: Policy)
    ensures RequestFailures(o, inv, p) == [] <==> Permitted(o, inv, p)
  {
    hide Denied, MissingHooks;
    NothingDenied(inv.requested, p.allowed, |CAPABILITIES|);
    NoMissingHooks(p.requiredHooks, o.hooks, |HOOKS|);
    forall c | c in inv.requested ensures c in p.allowed || Denied(inv.requested, p.allowed, |CAPABILITIES|) != [] {
      EveryCapabilityListed(c);
    }
    forall h | h in p.requiredHooks
      ensures h in o.hooks || MissingHooks(p.requiredHooks, o.hooks, |HOOKS|) != []
    {
      EveryHookListed(h);
    }
  }

  lemma WhenHolds(condition: bool, code: string, subject: Subject, f: Failure)
    ensures f in When(condition, code, subject) <==> condition && f == Failure(code, subject)
  {}

  lemma CodesDiffer(a: string, b: string, k: nat)
    requires k < |a| && k < |b| && a[k] != b[k]
    ensures a != b
  {}

  lemma {:induction false} ContractFailureIff(contracts: seq<Contract>, f: Failure)
    ensures f in ContractFailures(contracts)
            <==> exists c <- contracts :: c.objection.Some? && f == Failure("invalid_operation_contract", Named(c.id))
  {
    hide When;
    if contracts != [] {
      var init, c := contracts[..|contracts| - 1], contracts[|contracts| - 1];
      assert contracts == init + [c];
      ContractFailureIff(init, f);
      WhenHolds(c.objection.Some?, "invalid_operation_contract", Named(c.id), f);
    }
  }

  /** Operation k is unnamed, or bears the identifier of an earlier one that was recorded. */
  ghost predicate InvalidIdentity(operations: seq<Operation>, k: nat)
    requires k < |operations|
  {
    || Blank(operations[k].id) || Blank(operations[k].version)
    || exists j :: 0 <= j < k && operations[j].id == operations[k].id && !Blank(operations[j].version)
  }

  /** What operation k contributes to the list of failures. */
  ghost predicate ObjectedTo(operations: seq<Operation>, k: nat, f: Failure)
    requires k < |operations|
  {
    var o := operations[k];
    || (f == Failure("invalid_operation_identity", Named(o.id)) && InvalidIdentity(operations, k))
    || (f == Failure("missing_operation_contract", Named(o.id)) && (o.inputs == [] || o.outputs == []))
    || (exists c <- o.inputs + o.outputs ::
          c.objection.Some? && f == Failure("invalid_operation_contract", Named(c.id)))
  }

  lemma {:induction false} ObjectionsIff(init: seq<Operation>, o: Operation, f: Failure)
    ensures f in OperationObjections(o, Blank(o.id) || Blank(o.version) || o.id in Recorded(init))
            <==> ObjectedTo(init + [o], |init|, f)
  {
    hide When, ContractFailures, Blank;
    var invalid := Blank(o.id) || Blank(o.version) || o.id in Recorded(init);
    WhenHolds(invalid, "invalid_operation_identity", Named(o.id), f);
    WhenHolds(o.inputs == [] || o.outputs == [], "missing_operation_contract", Named(o.id), f);
    ContractFailureIff(o.inputs + o.outputs, f);
    var all := init + [o];
    assert all[|init|] == o;
    if o.id in Recorded(init) {
      var u :| u in init && !Blank(u.id) && !Blank(u.version) && u.id == o.id;
      var j :| 0 <= j < |init| && init[j] == u;
      assert all[j].id == all[|init|].id && !Blank(all[j].version);
    }
    assert invalid <==> InvalidIdentity(all, |init|) by {
      if j :| 0 <= j < |init| && all[j].id == o.id && !Blank(all[j].version) && !Blank(o.id) {
        assert init[j] in init && o.id in Recorded(init);
      }
    }
  }

  lemma {:induction false} ObjectedToEarlier(init: seq<Operation>, o: Operation, k: nat, f: Failure)
    requires k < |init|
    ensures ObjectedTo(init + [o], k, f) == ObjectedTo(init, k, f)
  {
    hide Blank;
    var all := init + [o];
    assert all[k] == init[k];
    assert InvalidIdentity(all, k) == InvalidIdentity(init, k) by {
      assert forall j :: 0 <= j < k ==> all[j] == init[j];
    }
  }

  lemma {:induction false} OperationFailureIff(operations: seq<Operation>, f: Failure)
    ensures f in OperationFailures(operations) <==> exists k :: 0 <= k < |operations| && ObjectedTo(operations, k, f)
  {
    hide OperationObjections, ObjectedTo, Blank;
    if operations != [] {
      var init, o := operations[..|operations| - 1], operations[|operations| - 1];
      assert operations == init + [o];
      OperationFailureIff(init, f);
      ObjectionsIff(init, o, f);
      forall k | 0 <= k < |init| ensures ObjectedTo(operations, k, f) == ObjectedTo(init, k, f) {
        ObjectedToEarlier(init, o, k, f);
      }
    }
  }

  lemma {:induction false} FieldFailureIff(fields: seq<(string, string, string)>, f: Failure)
    ensures f in FieldFailures(fields)
            <==> exists k :: 0 <= k < |fields| && !ValidField(fields[k].0, fields[k].2)
                             && f == Failure(fields[k].0, Named(fields[k].1))
  {
    hide When, ValidField;
    if fields != [] {
      var init, last := fields[..|fields| - 1], fields[|fields| - 1];
      assert fields == init + [last];
      FieldFailureIff(init, f);
      WhenHolds(!ValidField(last.0, last.2), last.0, Named(last.1), f);
    }
  }

  /** The identity fields of a manifest that may be objected to, each with its own condition. */
  ghost predicate FieldObjectedTo(m: Manifest, f: Failure) {
    || (f == Failure("unsupported_manifest_schema", Named("manifest")) && m.schemaVersion != "0.1.0")
    || (f == Failure("missing_adapter_id", Named("manifest")) && Blank(m.adapterId))
    || (f == Failure("missing_adapter_version", Named(m.adapterId)) && Blank(m.adapterVersion))
    || (f == Failure("missing_backend_version", Named(m.adapterId)) && Blank(m.backend.engineVersion))
    || (f == Failure("invalid_backend_digest", Named(m.adapterId)) && !ValidDigest(m.backend.buildDigest))
    || (f == Failure("missing_license", Named(m.adapterId)) && Blank(m.license))
  }

  lemma {:induction false} FieldsIff(m: Manifest, f: Failure)
    ensures f in FieldFailures(Fields(m)) <==> FieldObjectedTo(m, f)
  {
    hide Blank, ValidDigest, FieldFailures;
    FieldFailureIff(Fields(m), f);
    var fields := Fields(m);
    CodesDiffer("missing_adapter_id", "unsupported_manifest_schema", 0);
    CodesDiffer("missing_adapter_id", "invalid_backend_digest", 0);
    CodesDiffer("missing_adapter_version", "unsupported_manifest_schema", 0);
    CodesDiffer("missing_adapter_version", "invalid_backend_digest", 0);
    CodesDiffer("missing_backend_version", "unsupported_manifest_schema", 0);
    CodesDiffer("missing_backend_version", "invalid_backend_digest", 0);
    CodesDiffer("missing_license", "unsupported_manifest_schema", 0);
    CodesDiffer("missing_license", "invalid_backend_digest", 0);
    CodesDiffer("invalid_backend_digest", "unsupported_manifest_schema", 0);
    assert fields[0].0 == "unsupported_manifest_schema" && fields[1].0 == "missing_adapter_id";
    assert fields[2].0 == "missing_adapter_version" && fields[3].0 == "missing_backend_version";
    assert fields[4].0 == "invalid_backend_digest" && fields[5].0 == "missing_license";
  }

  /** What the manifest checks list is one of ten failures, each exactly for its own cause. */
  lemma {:induction false} ManifestFailureIff(m: Manifest, f: Failure)
    ensures f in ManifestFailures(m)
            <==> || FieldObjectedTo(m, f)
                 || (f == Failure("missing_operations", Named(m.adapterId)) && m.operations == [])
                 || (exists k :: 0 <= k < |m.operations| && ObjectedTo(m.operations, k, f))
  {
    hide When, Fields, FieldFailures, OperationFailures, FieldObjectedTo, ObjectedTo;
    FieldsIff(m, f);
    OperationFailureIff(m.operations, f);
    WhenHolds(m.operations == [], "missing_operations", Named(m.adapterId), f);
  }

  /** Which codes the identity checks leave: each exactly for its own disagreement. */
  lemma {:induction false} IdentityCodes(m: Manifest, inv: Invocation, p: Policy)
    ensures Failure("adapter_identity_mismatch", Named(inv.adapterId)) in IdentityFailures(m, inv, p)
            <==> inv.adapterId != m.adapterId || inv.adapterVersion != m.adapterVersion
    ensures Failure("adapter_not_accepted", Named(m.adapterId)) in IdentityFailures(m, inv, p)
            <==> m.adapterId !in p.accepted
    ensures Failure("backend_identity_mismatch", Engine(inv.backend.family)) in IdentityFailures(m, inv, p)
            <==> inv.backend != m.backend
  {
    CodesDiffer("adapter_identity_mismatch", "adapter_not_accepted", 8);
  }

  lemma {:induction false} DeniedNames(requested: set<Capability>, allowed: set<Capability>, n: nat, f: Failure)
    requires n <= |CAPABILITIES|
    ensures f in Denied(requested, allowed, n)
            <==> exists k :: 0 <= k < n && CAPABILITIES[k] in requested && CAPABILITIES[k] !in allowed
                             && f == Failure("capability_denied", Privilege(CAPABILITIES[k]))
  {
    hide CAPABILITIES;
    if n > 0 {
      DeniedNames(requested, allowed, n - 1, f);
    }
  }

  lemma {:induction false} MissingNames(required: set<Hook>, promised: set<Hook>, n: nat, f: Failure)
    requires n <= |HOOKS|
    ensures f in MissingHooks(required, promised, n)
            <==> exists k :: 0 <= k < n && HOOKS[k] in required && HOOKS[k] !in promised
                             && f == Failure("required_evidence_hook_missing", Evidence(HOOKS[k]))
  {
    hide HOOKS;
    if n > 0 {
      MissingNames(required, promised, n - 1, f);
    }
  }

  lemma {:induction false} DeniedIff(requested: set<Capability>, allowed: set<Capability>, f: Failure)
    ensures f in Denied(requested, allowed, |CAPABILITIES|)
            <==> exists c: Capability :: c in requested && c !in allowed
                                         && f == Failure("capability_denied", Privilege(c))
  {
    hide CAPABILITIES;
    DeniedNames(requested, allowed, |CAPABILITIES|, f);
    if c: Capability :| c in requested && c !in allowed && f == Failure("capability_denied", Privilege(c)) {
      EveryCapabilityListed(c);
    }
  }

  lemma {:induction false} MissingIff(required: set<Hook>, promised: set<Hook>, f: Failure)
    ensures f in MissingHooks(required, promised, |HOOKS|)
            <==> exists h: Hook :: h in required && h !in promised
                                   && f == Failure("required_evidence_hook_missing", Evidence(h))
  {
    hide HOOKS;
    MissingNames(required, promised, |HOOKS|, f);
    if h: Hook :| h in required && h !in promised && f == Failure("required_evidence_hook_missing", Evidence(h)) {
      EveryHookListed(h);
    }
  }

  /** A failure the request leaves is one of six, each for its own cause. */
  lemma {:induction false} RequestFailureIff(o: Operation, inv: Invocation, p: Policy, f: Failure)
    ensures f in RequestFailures(o, inv, p)
            <==> || (f == Failure("operation_version_mismatch", Named(inv.operationId))
                     && o.version != inv.operationVersion)
                 || (f == Failure("capability_declaration_mismatch", Named(inv.operationId))
                     && inv.requested != o.capabilities)
                 || (exists c: Capability :: c in inv.requested && c !in p.allowed
                                             && f == Failure("capability_denied", Privilege(c)))
                 || (exists h: Hook :: h in p.requiredHooks && h !in o.hooks
                                       && f == Failure("required_evidence_hook_missing", Evidence(h)))
                 || (f == Failure("opaque_operation_denied", Named(o.id)) && p.rejectOpaque && o.isOpaque)
                 || (f == Failure("unknown_determinism_denied", Named(o.id))
                     && p.rejectUnknown && o.determinism == Unknown)
  {
    hide When, Denied, MissingHooks, CAPABILITIES, HOOKS;
    DeniedIff(inv.requested, p.allowed, f);
    MissingIff(p.requiredHooks, o.hooks, f);
    WhenHolds(o.version != inv.operationVersion, "operation_version_mismatch", Named(inv.operationId), f);
    WhenHolds(inv.requested != o.capabilities, "capability_declaration_mismatch", Named(inv.operationId), f);
    WhenHolds(p.rejectOpaque && o.isOpaque, "opaque_operation_denied", Named(o.id), f);
    WhenHolds(p.rejectUnknown && o.determinism == Unknown, "unknown_determinism_denied", Named(o.id), f);
  }

  /** Of a valid manifest's operations only one bears the requested identifier. */
  lemma FoundIsOnly(m: Manifest, id: string, o: Operation)
    requires UniqueIds(m.operations) && o in m.operations && o.id == id
    ensures Find(m.operations, id) == Some(o)
  {
    var found := Find(m.operations, id);
    var k :| 0 <= k < |m.operations| && m.operations[k] == o;
    var j :| 0 <= j < |m.operations| && m.operations[j] == found.value;
  }

  /** The list of failures is empty exactly when the invocation is admissible. */
  lemma FailuresSayWhy(m: Manifest, inv: Invocation, p: Policy)
    ensures Failures(m, inv, p) == [] <==> Admissible(m, inv, p)
  {
    hide ManifestFailures, RequestFailures, Permitted, Find, ValidOperation, Blank, ValidDigest;
    NoManifestFailures(m);
    var found := Find(m.operations, inv.operationId);
    if found.Some? {
      NoRequestFailures(found.value, inv, p);
    }
    if Admissible(m, inv, p) {
      var o :| o in m.operations && o.id == inv.operationId && Permitted(o, inv, p);
      FoundIsOnly(m, inv.operationId, o);
    }
  }

  lemma OnlyOne(m: Manifest, inv: Invocation, p: Policy, o: Operation)
    requires Admissible(m, inv, p) && Find(m.operations, inv.operationId) == Some(o)
    ensures forall u :: u in m.operations && u.id == inv.operationId ==> u == o
  {
    hide Permitted, Find, ValidOperation, Blank, ValidDigest;
    forall u | u in m.operations && u.id == inv.operationId ensures u == o {
      FoundIsOnly(m, inv.operationId, u);
    }
  }

  /** Validate and admit one invocation. */
  method Admit(m: Manifest, inv: Invocation, p: Policy) returns (report: Report)
    ensures report.failures == Failures(m, inv, p)
    ensures report.admitted <==> Admissible(m, inv, p)
    ensures report.verificationEligible <==>
      Admissible(m, inv, p)
      && exists o :: o in m.operations && o.id == inv.operationId && !o.isOpaque && o.determinism != Unknown
  {
    hide *;
    FailuresSayWhy(m, inv, p);
    var failures := ValidateManifest(m);
    ghost var identity := failures;
    if inv.adapterId != m.adapterId || inv.adapterVersion != m.adapterVersion {
      failures := failures + [Failure("adapter_identity_mismatch", Named(inv.adapterId))];
    }
    if m.adapterId !in p.accepted {
      failures := failures + [Failure("adapter_not_accepted", Named(m.adapterId))];
    }
    if inv.backend != m.backend {
      failures := failures + [Failure("backend_identity_mismatch", Engine(inv.backend.family))];
    }
    IdentityFailuresAre(m, inv, p);
    assert failures == identity + IdentityFailures(m, inv, p);
    FailuresAre(m, inv, p);
    var operation := Find(m.operations, inv.operationId);
    if operation.None? {
      failures := failures + [Failure("operation_not_declared", Named(inv.operationId))];
      return Report(|failures| == 0, false, failures);
    }
    var o := operation.value;
    var requestFailures := CheckRequest(o, inv, p);
    failures := failures + requestFailures;
    var eligible := !o.isOpaque && o.determinism != Unknown;
    if |failures| == 0 {
      OnlyOne(m, inv, p, o);
    }
    report := Report(|failures| == 0, |failures| == 0 && eligible, failures);
  }

  // ------------------------------------------------------------------ policies and order

  /** Grants at least as much and asks for no more. */
  predicate Looser(p: Policy, q: Policy) {
    && p.accepted <= q.accepted && p.allowed <= q.allowed && q.requiredHooks <= p.requiredHooks
    && (q.rejectOpaque ==> p.rejectOpaque) && (q.rejectUnknown ==> p.rejectUnknown)
  }

  lemma {:induction false} DeniedByLooser(requested: set<Capability>, allowed: set<Capability>, more: set<Capability>,
                                          n: nat, f: Failure)
    requires n <= |CAPABILITIES| && allowed <= more && f in Denied(requested, more, n)
    ensures f in Denied(requested, allowed, n)
  {
    if n > 0 && f in Denied(requested, more, n - 1) {
      DeniedByLooser(requested, allowed, more, n - 1, f);
    }
  }

  lemma {:induction false} MissingForLooser(required: set<Hook>, fewer: set<Hook>, promised: set<Hook>, n: nat,
                                            f: Failure)
    requires n <= |HOOKS| && fewer <= required && f in MissingHooks(fewer, promised, n)
    ensures f in MissingHooks(required, promised, n)
  {
    if n > 0 && f in MissingHooks(fewer, promised, n - 1) {
      MissingForLooser(required, fewer, promised, n - 1, f);
    }
  }

  /** Loosening the policy adds no failure, so it never revokes an admission. */
  lemma {:induction false} LooserAddsNoFailure(m: Manifest, inv: Invocation, p: Policy, q: Policy)
    requires Looser(p, q)
    ensures forall f <- Failures(m, inv, q) :: f in Failures(m, inv, p)
    ensures Admissible(m, inv, p) ==> Admissible(m, inv, q)
  {
    hide ManifestFailures, Admissible, Denied, MissingHooks, Find;
    FailuresSayWhy(m, inv, p);
    FailuresSayWhy(m, inv, q);
    var found := Find(m.operations, inv.operationId);
    forall f | f in Failures(m, inv, q) ensures f in Failures(m, inv, p) {
      if f in Denied(inv.requested, q.allowed, |CAPABILITIES|) {
        DeniedByLooser(inv.requested, p.allowed, q.allowed, |CAPABILITIES|, f);
      }
      if found.Some? && f in MissingHooks(q.requiredHooks, found.value.hooks, |HOOKS|) {
        MissingForLooser(p.requiredHooks, q.requiredHooks, found.value.hooks, |HOOKS|, f);
      }
    }
    if Failures(m, inv, q) != [] {
      assert Failures(m, inv, q)[0] in Failures(m, inv, q);
    }
  }

  function IdSet(operations: seq<Operation>): set<string> {
    set o | o in operations :: o.id
  }

  lemma {:induction false} IdsOfNone()
    ensures IdSet([]) == {} && UniqueIds([])
  {}

  lemma {:induction false} IdSetGrows(init: seq<Operation>, last: Operation)
    ensures IdSet(init + [last]) == IdSet(init) + {last.id}
  {}

  lemma {:induction false} IdListed(operations: seq<Operation>, id: string)
    ensures id in IdSet(operations) <==> exists k :: 0 <= k < |operations| && operations[k].id == id
  {
    forall k | 0 <= k < |operations| && operations[k].id == id ensures id in IdSet(operations) {
      assert operations[k] in operations;
    }
  }

  lemma {:induction false} IdsOfOneMore(init: seq<Operation>, last: Operation)
    ensures IdSet(init + [last]) == IdSet(init) + {last.id}
    ensures UniqueIds(init + [last]) <==> UniqueIds(init) && last.id !in IdSet(init)
  {
    hide IdSet;
    IdListed(init, last.id);
    IdSetGrows(init, last);
    var operations := init + [last];
    assert forall k :: 0 <= k < |init| ==> operations[k] == init[k];
    if last.id in IdSet(init) {
      var k :| 0 <= k < |init| && init[k].id == last.id;
      assert operations[k].id == operations[|init|].id;
    }
  }

  /** Identifiers are unique exactly when there are as many as operations. */
  lemma {:induction false} UniqueIffCounted(operations: seq<Operation>)
    ensures |IdSet(operations)| <= |operations|
    ensures UniqueIds(operations) <==> |IdSet(operations)| == |operations|
  {
    hide IdSet, UniqueIds;
    IdsOfNone();
    if operations != [] {
      var init, last := operations[..|operations| - 1], operations[|operations| - 1];
      assert operations == init + [last];
      UniqueIffCounted(init);
      IdsOfOneMore(init, last);
    }
  }

  lemma {:induction false} SameIds(a: seq<Operation>, b: seq<Operation>)
    requires forall o :: o in a <==> o in b
    ensures IdSet(a) == IdSet(b)
  {}

  /** The order in which a manifest lists its operations never decides an admission. */
  lemma OperationOrderIrrelevant(m: Manifest, operations: seq<Operation>, inv: Invocation, p: Policy)
    requires multiset(operations) == multiset(m.operations)
    ensures Admissible(m, inv, p) <==> Admissible(m.(operations := operations), inv, p)
  {
    hide Permitted, ValidOperation, Blank, ValidDigest, UniqueIds, IdSet;
    UniqueIffCounted(m.operations);
    UniqueIffCounted(operations);
    assert |multiset(operations)| == |operations| && |multiset(m.operations)| == |m.operations|;
    forall o ensures o in operations <==> o in m.operations {
      assert o in operations <==> o in multiset(operations);
      assert o in m.operations <==> o in multiset(m.operations);
    }
    SameIds(operations, m.operations);
  }
}
