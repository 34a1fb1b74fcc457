/**
  * Public recovery documents: the projection the service builds from a native observation and the
  * check a client applies to the reply. A request is taken as its closed decoder leaves it; a reply
  * is an arbitrary tree. The digest of a document is an arbitrary function.
  */
module PublisherRecovery {
  import opened Bytes
  import opened JsonObject
  import opened PublisherDocuments

  /** Member names: those the documents use, and any others, numbered. */
  datatype Field =
    | Schema | Status | RequestSha | Operation | InstallId | TransactionId | ServiceName | ServiceSid | ProcessId
    | RecoveryResponse | OperationAdmission | RegisteredAdmission | Payload
    | OriginalPlanId | OriginalPlanDigest | InspectionRequestId | TargetRoot | NativeBinding | AvailableActions | Effects
    | CreatedAt | PlanId | PlanDigest | RecordedAt | ReportId | ReportDigest
    | ReviewedPlanId | ReviewedPlanDigest | SelectedAction | CompletedSnapshot | CompletedHistory
    | OriginalIntent | OriginalCustody | InstalledRevision | LeaseRecords | LeaseRecordCount | LeasePendingNames
    | Namespace | ObjectCount | AbsentFiles | AbsentDirectories | JournalSnapshot | EffectHistory | JournalDigest
    | SourceDigest | CommitStarted | CommitConfirmed | ObservedState | PendingKind | Reconciliation | NextKind
    | EffectsComplete | Sealed | Kind
    | Other(number: nat)

  datatype Node = Text(s: Bytes) | Flag(b: bool) | Number(n: nat) | List(items: seq<Node>) | Record(m: map<Field, Node>) | Nothing

  type Fields = map<Field, Node>

  const BINDING_SCHEMA: Bytes := Ascii("usk.native_maintenance_inspection_binding.v1")
  const PLAN_SCHEMA: Bytes := Ascii("usk.recovery_plan.v2")
  const REPORT_SCHEMA: Bytes := Ascii("usk.recovery_report.v2")
  const ADMISSION_SCHEMA: Bytes := Ascii("usk.publisher_registered_admission_observation.v1")
  const OBSERVATION_SCHEMA: Bytes := Ascii("usk.publisher_lab_service_observation.v1")
  const RESPONSE_SCHEMA: Bytes := Ascii("usk.command_response.v1")
  const INSTALL_LOCAL: Bytes := Ascii("install_local")
  const REPAIR: Bytes := Ascii("repair")
  const FINALIZE: Bytes := Ascii("finalize")
  const REPORT_PREFIX: Bytes := Ascii("recovery.inspect.")

  // ----- requests, as decoded -----

  datatype Inspection = Inspection(operation: Bytes, installId: Bytes, transactionId: Bytes, planId: Bytes,
                                   planDigest: Bytes, requestId: Bytes, targetRoot: Bytes)

  datatype PlanRequest = PlanRequest(inspection: Inspection, recoveryPlanId: Bytes, createdAt: Bytes)

  datatype Request =
    | Inspect(i: Inspection)
    | Plan(p: PlanRequest)
    | Apply(p: PlanRequest, reviewedPlanId: Bytes, reviewedPlanDigest: Bytes, selectedAction: Bytes, appliedAt: Bytes)
  {
    function Inspected(): Inspection {
      if Inspect? then i else p.inspection
    }

    /** The request whose read-only document the client recreates. */
    function Basis(): Request {
      if Apply? then Plan(p) else this
    }
  }

  // ----- reading -----

  predicate Has(m: Fields, f: Field, v: Node) {
    f in m && m[f] == v
  }

  predicate Reads(m: Fields, f: Field, text: Bytes) {
    Has(m, f, Text(text))
  }

  predicate HasText(m: Fields, f: Field) {
    f in m && m[f].Text?
  }

  predicate HasFlag(m: Fields, f: Field) {
    f in m && m[f].Flag?
  }

  predicate HasNumber(m: Fields, f: Field) {
    f in m && m[f].Number?
  }

  predicate HasDigest(m: Fields, f: Field) {
    HasText(m, f) && LowerHex(m[f].s, 64)
  }

  /** The source counts members, then looks each one up. */
  predicate Closed(m: Fields, fields: set<Field>) {
    |m| == |fields| && forall f :: f in m ==> f in fields
  }

  // ----- the native binding -----

  const BINDING_DIGESTS: set<Field> :=
    {OriginalIntent, OriginalCustody, OriginalPlanDigest, InstalledRevision, LeaseRecords, LeasePendingNames, Namespace,
     AbsentFiles, AbsentDirectories, JournalSnapshot, EffectHistory, JournalDigest, SourceDigest}

  const BINDING_FLAGS: set<Field> := {CommitStarted, CommitConfirmed, EffectsComplete, Sealed}

  const BINDING_TEXTS: set<Field> := {RecordedAt, ObservedState, PendingKind, Reconciliation, NextKind}

  const BINDING_FIELDS: set<Field> :=
    BINDING_DIGESTS + BINDING_FLAGS + BINDING_TEXTS + {Schema, LeaseRecordCount, ObjectCount}

  predicate Shaped(b: Fields) {
    && (forall f :: f in BINDING_FLAGS ==> HasFlag(b, f))
    && (forall f :: f in BINDING_TEXTS ==> HasText(b, f))
  }

  predicate BindingAccepted(b: Fields, i: Inspection) {
    && Closed(b, BINDING_FIELDS)
    && Reads(b, Schema, BINDING_SCHEMA)
    && Reads(b, OriginalPlanDigest, i.planDigest)
    && HasNumber(b, LeaseRecordCount) && 0 < b[LeaseRecordCount].n <= 4096
    && HasNumber(b, ObjectCount) && 0 < b[ObjectCount].n
    && (forall f :: f in BINDING_DIGESTS ==> HasDigest(b, f))
    && Shaped(b)
  }

  predicate Compatible(b: Fields)
    requires Shaped(b)
  {
    if b[PendingKind].s == [] then b[NextKind].s != [] || b[EffectsComplete].b
    else b[Reconciliation].s == Ascii("compatible_before_effect") || b[Reconciliation].s == Ascii("compatible_after_effect")
  }

  predicate PublishedRepair(b: Fields, operation: Bytes)
    requires Shaped(b)
  {
    && operation == REPAIR && !b[CommitConfirmed].b && b[ObservedState].s == Ascii("committing")
    && b[PendingKind].s == Ascii("publish_target") && b[NextKind].s == Ascii("publish_target")
    && b[Reconciliation].s == Ascii("compatible_after_effect") && !b[EffectsComplete].b && !b[Sealed].b
  }

  predicate Committed(b: Fields)
    requires Shaped(b)
  {
    && b[CommitConfirmed].b
    && (|| b[ObservedState].s == Ascii("committing") || b[ObservedState].s == Ascii("committed")
        || b[ObservedState].s == Ascii("recovery_required"))
  }

  predicate Finalizable(b: Fields, operation: Bytes)
    requires Shaped(b)
  {
    Compatible(b) && b[CommitStarted].b && (PublishedRepair(b, operation) || Committed(b))
  }

  // ----- the projection -----

  function Actions(finalizable: bool): Node {
    List(if finalizable then [Text(FINALIZE)] else [])
  }

  function Effect(operation: Bytes): Fields {
    map[Kind := Text(Ascii("resume_original_maintenance")), Operation := Text(operation)]
  }

  function EffectList(finalizable: bool, operation: Bytes): Node {
    List(if finalizable then [Record(Effect(operation))] else [])
  }

  function SchemaText(r: Request): Bytes {
    if r.Plan? then PLAN_SCHEMA else REPORT_SCHEMA
  }

  function StatusText(r: Request): Bytes {
    match r
    case Inspect(_) => Ascii("inspection_only")
    case Plan(_) => Ascii("planned")
    case Apply(_, _, _, _, _) => Ascii("completed")
  }

  /** The members every recovery document has. */
  const COMMON_FIELDS: set<Field> :=
    {Schema, Status, Operation, InstallId, TransactionId, OriginalPlanId, OriginalPlanDigest, InspectionRequestId, TargetRoot,
     NativeBinding, AvailableActions, Effects}

  function Common(r: Request, b: Fields): Fields
    requires Shaped(b)
  {
    var i := r.Inspected();
    map[Schema := Text(SchemaText(r)), Status := Text(StatusText(r)),
        Operation := Text(i.operation), InstallId := Text(i.installId), TransactionId := Text(i.transactionId),
        OriginalPlanId := Text(i.planId), OriginalPlanDigest := Text(i.planDigest),
        InspectionRequestId := Text(i.requestId), TargetRoot := Text(i.targetRoot), NativeBinding := Record(b),
        AvailableActions := Actions(Finalizable(b, i.operation)), Effects := EffectList(Finalizable(b, i.operation), i.operation)]
  }

  function SealField(r: Request): Field {
    if r.Plan? then PlanDigest else ReportDigest
  }

  function Seal(r: Request, body: Fields, digest: Node -> Bytes): Fields {
    body[SealField(r) := Text(digest(Record(body)))]
  }

  /** The members a document has of its own; only an apply has a reviewed seal and two digests. */
  function Own(r: Request, b: Fields, seal: Bytes, snapshot: Bytes, history: Bytes): Fields
    requires Shaped(b)
  {
    match r
    case Inspect(i) => map[RecordedAt := b[RecordedAt], ReportId := Text(REPORT_PREFIX + i.requestId)]
    case Plan(p) => map[CreatedAt := Text(p.createdAt), PlanId := Text(p.recoveryPlanId)]
    case Apply(p, _, _, action, appliedAt) =>
      map[RecordedAt := Text(appliedAt), ReportId := Text(REPORT_PREFIX + p.inspection.requestId),
          ReviewedPlanId := Text(p.recoveryPlanId), ReviewedPlanDigest := Text(seal), SelectedAction := Text(action),
          CompletedSnapshot := Text(snapshot), CompletedHistory := Text(history)]
  }

  /** The read-only document before its seal. */
  function Body(q: Request, b: Fields): Fields
    requires !q.Apply? && Shaped(b)
  {
    Common(q, b) + Own(q, b, [], [], [])
  }

  /** `public_native_recovery_document`. */
  function Document(q: Request, b: Fields, digest: Node -> Bytes): Fields
    requires !q.Apply? && Shaped(b)
  {
    Seal(q, Body(q, b), digest)
  }

  // ----- the reply check -----

  function OwnFields(r: Request): set<Field> {
    match r
    case Inspect(_) => {RecordedAt, ReportId}
    case Plan(_) => {CreatedAt, PlanId}
    case Apply(_, _, _, _, _) =>
      {RecordedAt, ReportId, ReviewedPlanId, ReviewedPlanDigest, SelectedAction, CompletedSnapshot, CompletedHistory}
  }

  function PayloadFields(r: Request): set<Field> {
    COMMON_FIELDS + OwnFields(r) + {SealField(r)}
  }

  const ENVELOPE_FIELDS: set<Field> :=
    {Schema, Status, RequestSha, Operation, InstallId, TransactionId, ServiceName, ServiceSid, ProcessId, RecoveryResponse,
     OperationAdmission, RegisteredAdmission}

  /** Endpoint identity: the live service names itself twice, the same way. */
  predicate EndpointAccepted(o: Fields) {
    && HasText(o, ServiceName) && o[ServiceName].s != [] && HasText(o, ServiceSid) && o[ServiceSid].s != []
    && HasNumber(o, ProcessId) && 0 < o[ProcessId].n <= 0xFFFF_FFFF
    && RegisteredAdmission in o && o[RegisteredAdmission].Record?
    && AdmissionAccepted(o[RegisteredAdmission].m, o[ServiceName].s, o[ServiceSid].s, o[ProcessId].n)
    && OperationAdmission in o && o[OperationAdmission].Record?
  }

  predicate AdmissionAccepted(a: Fields, name: Bytes, sid: Bytes, processId: nat) {
    Reads(a, Schema, ADMISSION_SCHEMA) && Reads(a, ServiceName, name) && Reads(a, ServiceSid, sid) && Has(a, ProcessId, Number(processId))
  }

  predicate HasPayload(o: Fields) {
    && RecoveryResponse in o && o[RecoveryResponse].Record?
    && Closed(o[RecoveryResponse].m, {Schema, Status, Payload})
    && Payload in o[RecoveryResponse].m && o[RecoveryResponse].m[Payload].Record?
  }

  function PayloadOf(o: Fields): Fields
    requires HasPayload(o)
  {
    o[RecoveryResponse].m[Payload].m
  }

  /** What is asked of the reply around its payload. */
  predicate EnvelopeAccepted(r: Request, requestSha: Bytes, o: Fields) {
    var i := r.Inspected();
    && Closed(o, ENVELOPE_FIELDS) && EndpointAccepted(o) && HasPayload(o)
    && Reads(o, Schema, OBSERVATION_SCHEMA) && Reads(o, Status, Ascii("pass")) && Reads(o, RequestSha, requestSha)
    && Reads(o[RecoveryResponse].m, Schema, RESPONSE_SCHEMA) && Reads(o[RecoveryResponse].m, Status, Ascii("ok"))
    && Reads(o, Operation, i.operation) && Reads(o, InstallId, i.installId) && Reads(o, TransactionId, i.transactionId)
  }

  predicate FramingAccepted(r: Request, payload: Fields) {
    var i := r.Inspected();
    && Closed(payload, PayloadFields(r))
    && Reads(payload, Schema, SchemaText(r)) && Reads(payload, Status, StatusText(r))
    && Reads(payload, Operation, i.operation) && Reads(payload, InstallId, i.installId)
    && Reads(payload, TransactionId, i.transactionId)
    && Reads(payload, OriginalPlanId, i.planId) && Reads(payload, OriginalPlanDigest, i.planDigest)
    && Reads(payload, InspectionRequestId, i.requestId) && Reads(payload, TargetRoot, i.targetRoot)
  }

  predicate ActionsAccepted(i: Inspection, payload: Fields) {
    && AvailableActions in payload && payload[AvailableActions].List?
    && Effects in payload && payload[Effects].List?
    && (var actions, effects := payload[AvailableActions].items, payload[Effects].items;
        && |actions| <= 1 && |effects| == |actions|
        && (actions != [] ==> actions[0] == Text(FINALIZE))
        && (effects != [] ==>
              && effects[0].Record? && Closed(effects[0].m, {Kind, Operation})
              && Reads(effects[0].m, Kind, Ascii("resume_original_maintenance")) && Reads(effects[0].m, Operation, i.operation)))
  }

  /** The recreated document against the payload. */
  predicate ProjectionAccepted(r: Request, payload: Fields, b: Fields, digest: Node -> Bytes)
    requires Shaped(b)
  {
    var expected := Document(r.Basis(), b, digest);
    && AvailableActions in payload && payload[AvailableActions] == expected[AvailableActions]
    && Effects in payload && payload[Effects] == expected[Effects]
    && (if r.Apply? then
          Has(payload, ReviewedPlanId, expected[PlanId]) && Has(payload, ReviewedPlanDigest, expected[PlanDigest])
        else payload == expected)
  }

  predicate SealAccepted(r: Request, payload: Fields, digest: Node -> Bytes) {
    Reads(payload, SealField(r), digest(Record(payload - {SealField(r)})))
  }

  predicate ReportAccepted(r: Request, payload: Fields, b: Fields)
    requires Shaped(b)
  {
    match r
    case Plan(p) => Reads(payload, PlanId, p.recoveryPlanId) && Reads(payload, CreatedAt, p.createdAt)
    case Inspect(i) =>
      Reads(payload, ReportId, REPORT_PREFIX + i.requestId) && Reads(payload, RecordedAt, b[RecordedAt].s)
    case Apply(p, id, planDigest, action, appliedAt) =>
      && Reads(payload, ReportId, REPORT_PREFIX + p.inspection.requestId) && Reads(payload, RecordedAt, appliedAt)
      && Reads(payload, ReviewedPlanId, id) && Reads(payload, ReviewedPlanDigest, planDigest)
      && Reads(payload, SelectedAction, action) && action == FINALIZE
      && HasDigest(payload, CompletedSnapshot) && HasDigest(payload, CompletedHistory)
  }

  /** What is asked of the payload. */
  predicate PayloadAccepted(r: Request, payload: Fields, digest: Node -> Bytes) {
    && FramingAccepted(r, payload)
    && NativeBinding in payload && payload[NativeBinding].Record?
    && (var b := payload[NativeBinding].m;
        && BindingAccepted(b, r.Inspected())
        && ActionsAccepted(r.Inspected(), payload)
        && ProjectionAccepted(r, payload, b, digest)
        && SealAccepted(r, payload, digest)
        && ReportAccepted(r, payload, b))
  }

  /** `require_public_native_recovery_response`: the reply passes. */
  predicate Accepted(r: Request, requestSha: Bytes, o: Fields, digest: Node -> Bytes) {
    && r.Inspected().operation != INSTALL_LOCAL
    && EnvelopeAccepted(r, requestSha, o) && PayloadAccepted(r, PayloadOf(o), digest)
  }
}
