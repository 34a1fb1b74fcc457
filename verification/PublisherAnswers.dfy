/**
  * What a publisher client call amounts to: its world, its preparation, the table of its answers
  * and what those answers tell the caller.
  */
module PublisherAnswers {
  import opened Bytes
  import opened Wrappers
  import opened Json
  import opened JsonParser
  import opened JsonObject
  import opened JsonTheorems
  import opened PublisherDocuments
  import opened PublisherResponse

  /** Places where `execute` needs memory. */
  datatype Point = AtRequest | AtIdentity | AtWire | AtResult | AtRefusal

  datatype World = World(
    decodePlan: Value -> Attempt<bool>,
    decodeRecovery: Value -> Attempt<bool>,
    prepare: Option<(Bytes, Value) -> Attempt<Value>>,
    transport: Option<Bytes -> Attempt<Bytes>>,
    completion: Completion,
    available: Point -> bool)

  datatype Status = OkStatus | ErrorStatus | InvalidArgumentStatus

  /** A static text, or bytes owned by the context. */
  datatype ClientText = InvalidRequest | PreparationFailed | Owned(bytes: Bytes)

  datatype ClientResult = ClientResult(status: Status, json: ClientText)

  const REQUEST_LIMIT := 0x10_0000
  const FALLBACK_LIMIT := 0x1_0000

  const PREPARATION_FAILED: Bytes := Ascii("{\"schema\":") + Ascii(
    "\"usk.command_response.v1\",\"status\":\"error\",\"payload\":null,\"error\":" +
    "{\"code\":\"publisher_request_not_dispatched\",\"message\":\"Publisher request preparation failed before dispatch\"}}")

  const INVALID_REQUEST: Bytes := Ascii("{\"schema\":") + Ascii(
    "\"usk.command_response.v1\",\"status\":\"invalid_argument\",\"payload\":null,\"error\":" +
    "{\"code\":\"invalid_argument\",\"message\":\"Public publisher request is invalid\"}}")

  const REQUEST_LIMITS := ParseLimits(REQUEST_LIMIT, 64, 100000, REQUEST_LIMIT / 2)

  // ----- before dispatch -----

  /** Shape, schema and family checks, in source order. */
  function Decode(c: Command, submitted: Value, world: World): Attempt<bool> {
    if !submitted.Object? then Threw(InvalidArgument)
    else if c.InstallPlan? && world.decodePlan(submitted).Threw? then Threw(world.decodePlan(submitted).exception)
    else if !Preserving(c) && !ClosedShape(c, submitted) then Threw(InvalidArgument)
    else
      match Get(submitted, Ascii("schema"))
      case None => Threw(if IsRecovery(c) then InvalidArgument else OtherFailure)
      case Some(schema) =>
        if !schema.String? then Threw(if IsRecovery(c) then InvalidArgument else OtherFailure)
        else if schema.s != SchemaOf(c) then Threw(InvalidArgument)
        else if IsRecovery(c) then world.decodeRecovery(submitted)
        else Returned(true)
  }

  /** A call whose request is about to be handed to the transport. */
  datatype Prepared = Prepared(name: Bytes, command: Command, submitted: Value, identity: Value, wire: Value)

  /** `p` is what this call's own arguments amount to, and nothing else. */
  ghost predicate Belongs(p: Prepared, name: Option<Bytes>, request: Option<Bytes>, world: World) {
    && name == Some(p.name) && CommandOf(p.name) == Some(p.command)
    && request.Some? && 0 < |request.value| <= REQUEST_LIMIT
    && Parse(request.value, REQUEST_LIMITS).Ok? && p.submitted == Parse(request.value, REQUEST_LIMITS).value
    && Decode(p.command, p.submitted, world).Returned?
    && Identity(p.name, p.command, p.submitted) == Returned(p.identity)
    && |Canonical(UnknownDocument(p.identity))| <= FALLBACK_LIMIT
    && world.transport.Some? && world.prepare.Some? && (world.prepare.value)(p.name, p.submitted) == Returned(p.wire)
    && (Preserving(p.command) ==> p.wire == p.submitted)
    && |Canonical(p.wire)| <= REQUEST_LIMIT
    && world.available(AtRequest) && world.available(AtIdentity) && world.available(AtWire)
  }

  // ----- after dispatch -----

  /** A handed-over request and what the transport did with it. */
  datatype Sent = Sent(call: Prepared, reply: Attempt<Bytes>)

  function Unknown(identity: Value): ClientResult {
    ClientResult(ErrorStatus, Owned(Canonical(UnknownDocument(identity))))
  }

  function WithDiagnostic(identity: Value, diagnostic: Value): Value {
    if diagnostic.Null? || !identity.Object? then identity
    else Object(Emplace(identity.members, Member(Ascii("diagnostic"), diagnostic)))
  }

  /** How an accepted reply is presented. */
  function Presented(v: Validation, identity: Value): ClientResult
    requires v.Accepted?
  {
    match v.disposition
    case Completed => ClientResult(OkStatus, Owned(Canonical(v.result)))
    case Refused =>
      ClientResult(ErrorStatus, Owned(Canonical(Outcome(Ascii("refused"), v.code, WithDiagnostic(identity, v.result)))))
    case RecoveryRequired =>
      ClientResult(ErrorStatus, Owned(Canonical(Outcome(Ascii("recovery_required"), v.code, WithDiagnostic(identity, v.result)))))
  }

  /** A refusal on the transport's own proof that nothing was sent. */
  function RefusedBeforeDispatch(e: Exception, invocation: Value, world: World): ClientResult
    requires e.NotDispatched?
  {
    var code := ReasonCode(e.reason);
    var diagnostic := OperationDiagnostic(if e.reference == [] then None else Some(e.reference), code);
    if !world.available(AtRefusal) || diagnostic.Threw? || (e.reference != [] && !invocation.Object?) then
      ClientResult(ErrorStatus, PreparationFailed)
    else ClientResult(ErrorStatus, Owned(Canonical(Outcome(Ascii("refused"), code, WithDiagnostic(invocation, diagnostic.value)))))
  }

  /** The table of answers once a request has been handed over. */
  ghost function Answer(s: Sent, world: World): ClientResult {
    match s.reply
    case Threw(e) =>
      if e.NotDispatched? then RefusedBeforeDispatch(e, s.call.identity, world) else Unknown(s.call.identity)
    case Returned(bytes) =>
      var v := Validated(s.call.name, s.call.wire, bytes, false, world.completion);
      if v.Accepted? && world.available(AtResult) then Presented(v, s.call.identity) else Unknown(s.call.identity)
  }

  // ----- what the answers mean -----

  /** One of the two constant texts, or an outcome that reads as refused. */
  ghost predicate SaysNotSent(r: ClientResult) {
    || r == ClientResult(InvalidArgumentStatus, InvalidRequest)
    || r == ClientResult(ErrorStatus, PreparationFailed)
    || Says(r, Ascii("refused"))
  }

  /** An outcome document of this status. */
  ghost predicate Says(r: ClientResult, status: Bytes) {
    exists code: Bytes, payload: Value :: r == ClientResult(ErrorStatus, Owned(Canonical(Outcome(status, code, payload))))
  }

  /** An answer has one status. */
  lemma SaysOnce(r: ClientResult, a: Bytes, b: Bytes)
    requires Says(r, a) && Says(r, b)
    ensures a == b
  {
    var c, p :| r == ClientResult(ErrorStatus, Owned(Canonical(Outcome(a, c, p))));
    var d, q :| r == ClientResult(ErrorStatus, Owned(Canonical(Outcome(b, d, q))));
    CanonicalInjective(Outcome(a, c, p), Outcome(b, d, q));
    assert Outcome(a, c, p).members[3].value == String(a) && Outcome(b, d, q).members[3].value == String(b);
  }

  /** The bytes behind a text. */
  function Spelled(t: ClientText): Bytes {
    match t
    case InvalidRequest => INVALID_REQUEST
    case PreparationFailed => PREPARATION_FAILED
    case Owned(bytes) => bytes
  }

  predicate IsConstant(text: Bytes) {
    text == INVALID_REQUEST || text == PREPARATION_FAILED
  }

  lemma UnknownIsNoConstant(identity: Value)
    ensures Unknown(identity).json.Owned? && !IsConstant(Spelled(Unknown(identity).json))
  {
    OutcomeIsNoConstant(Ascii("unknown"), Ascii("publisher_outcome_unknown"), identity);
  }

  lemma PresentedIsNoConstant(v: Validation, identity: Value)
    requires v.Accepted?
    ensures var r := Presented(v, identity);
            && r.json.Owned? && r.status != InvalidArgumentStatus && (r.status == ErrorStatus ==> !IsConstant(Spelled(r.json)))
  {
    OutcomeIsNoConstant(Ascii("refused"), v.code, WithDiagnostic(identity, v.result));
    OutcomeIsNoConstant(Ascii("recovery_required"), v.code, WithDiagnostic(identity, v.result));
  }

  /**
    * After a possible dispatch that the transport did not itself deny, the answer is an accepted
    * service outcome or the unknown document, and an error reads as neither constant text.
    */
  lemma UncertaintyIsKept(s: Sent, world: World)
    requires s.reply.Threw? ==> !s.reply.exception.NotDispatched?
    ensures var r := Answer(s, world);
            && (r == Unknown(s.call.identity) ||
                (s.reply.Returned? && Validated(s.call.name, s.call.wire, s.reply.value, false, world.completion).Accepted?))
            && r.status != InvalidArgumentStatus && r.json.Owned?
            && (r.status == ErrorStatus ==> !IsConstant(Spelled(r.json)))
  {
    UnknownIsNoConstant(s.call.identity);
    if s.reply.Returned? && Validated(s.call.name, s.call.wire, s.reply.value, false, world.completion).Accepted? {
      PresentedIsNoConstant(Validated(s.call.name, s.call.wire, s.reply.value, false, world.completion), s.call.identity);
    }
  }

  /** The constants open with their schema, an outcome with its error. */
  lemma OutcomeIsNoConstant(status: Bytes, code: Bytes, payload: Value)
    ensures !IsConstant(Canonical(Outcome(status, code, payload)))
  {
    assert Ascii("error")[0] == 0x65;
    FirstKeyByte(Outcome(status, code, payload).members);
    assert Ascii("{\"schema\":")[2] == 0x73;
  }

  /** Unknown answers of two calls agree only if the calls agree on command and request digest. */
  lemma UnknownIsOfThisCall(a: Prepared, b: Prepared)
    requires Identity(a.name, a.command, a.submitted) == Returned(a.identity)
    requires Identity(b.name, b.command, b.submitted) == Returned(b.identity)
    requires Unknown(a.identity) == Unknown(b.identity)
    ensures a.name == b.name && RequestDigest(a.submitted) == RequestDigest(b.submitted)
  {
    UnknownInjective(a.identity, b.identity);
    IdentityNamesCall(a.name, a.command, a.submitted);
    IdentityNamesCall(b.name, b.command, b.submitted);
  }
}
