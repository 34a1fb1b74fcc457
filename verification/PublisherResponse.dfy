/**
  * The client's reading of a service reply: its framing, its status, the refusals and the drift
  * report. What a reply of status "pass" must hold for its command is an arbitrary function.
  */
module PublisherResponse {
  import opened Bytes
  import opened Wrappers
  import opened Json
  import opened JsonParser
  import opened JsonParserObject
  import opened JsonObject
  import opened PublisherDocuments

  datatype Disposition = Completed | Refused | RecoveryRequired

  /** An accepted reply, or the kind of exception that refuses it; it knows nothing of dispatch. */
  datatype Validation =
    | Accepted(disposition: Disposition, result: Value, code: Bytes)
    | Rejected(isArgument: bool)

  /** What a reply of status "pass" amounts to for its command and request. */
  type Completion = (Bytes, Value, Value, bool) -> Attempt<Value>

  const RESPONSE_LIMIT := 0x100_0000
  const RESPONSE_LIMITS := ParseLimits(RESPONSE_LIMIT, 64, 100000, RESPONSE_LIMIT / 2)

  const RESPONDING: seq<Bytes> :=
    Names(["recovery.inspect", "recovery.plan", "recovery.apply", "install_local.plan", "install_local.apply", "installed.verify",
           "install_local.recover", "repair.apply", "move.apply", "uninstall.apply", "repair.recover", "move.recover",
           "uninstall.recover"])

  /** The text at a path; nothing where the source throws. */
  function TextAt(v: Value, path: seq<string>): Option<Bytes> {
    match Descend(v, Names(path))
    case None => None
    case Some(found) => if found.String? then Some(found.s) else None
  }

  predicate SameText(a: Option<Bytes>, b: Option<Bytes>) {
    a.Some? && a == b
  }

  predicate IsText(a: Option<Bytes>, text: string) {
    a == Some(Ascii(text))
  }

  /** `publisher_operation_error_code`: a listed code, none, or an exception. */
  function ErrorCode(observed: Value): Attempt<Option<Bytes>> {
    if Get(observed, Ascii("error_code")).None? then Returned(None)
    else
      match TextAt(observed, ["error_code"])
      case None => Threw(OtherFailure)
      case Some(code) =>
        if code in Names(["operation_conflict", "operation_cancelled", "lease_stale", "state_revision_stale", "stale_plan"])
        then Returned(Some(code)) else Returned(None)
  }

  /** The diagnostic beside a code, if the reply refers to an inspection. */
  function Diagnostic(observed: Value, code: Option<Bytes>): Attempt<Value> {
    if code.None? || Get(observed, Ascii("operation_inspection_ref")).None? then Returned(Null)
    else
      match TextAt(observed, ["operation_inspection_ref"])
      case None => Threw(OtherFailure)
      case Some(reference) => OperationDiagnostic(Some(reference), code.value)
  }

  /** A reply that reports no completion. */
  function ReadFailure(observed: Value, disposition: Disposition, otherwise: Bytes, retain: bool): Validation {
    match ErrorCode(observed)
    case Threw(_) => Rejected(false)
    case Returned(code) =>
      match Diagnostic(observed, code)
      case Threw(_) => Rejected(false)
      case Returned(diagnostic) =>
        Accepted(disposition, if retain then observed else diagnostic, if code.Some? then code.value else otherwise)
  }

  /** A valid drift report is a completed diagnosis. */
  function ReadDrift(submitted: Value, observed: Value, retain: bool): Validation {
    var field := "verify_response";
    var status := TextAt(observed, [field, "payload", "status"]);
    if && IsText(TextAt(observed, [field, "schema"]), "usk.command_response.v1") && IsText(TextAt(observed, [field, "status"]), "ok")
       && IsText(TextAt(observed, [field, "payload", "schema"]), "usk.verification_report.v1")
       && (IsText(status, "fail") || IsText(status, "warn") || IsText(status, "unknown"))
       && SameText(TextAt(observed, [field, "payload", "report_digest"]), TextAt(observed, ["bound_report_digest"]))
       && (retain ||
           (&& SameText(TextAt(observed, [field, "payload", "install_id"]), TextAt(submitted, ["install_id"]))
            && SameText(TextAt(observed, [field, "payload", "report_id"]), TextAt(submitted, ["report_id"]))
            && SameText(TextAt(observed, [field, "payload", "verified_at"]), TextAt(submitted, ["verified_at"]))))
    then
      match Get(observed, Ascii(field))
      case Some(response) => Accepted(Completed, if retain then observed else response, [])
      case None => Rejected(false)
    else Rejected(false)
  }

  predicate IsDrift(name: Bytes, observed: Value) {
    name == Ascii("installed.verify") && Get(observed, Ascii("verify_response")).Some?
  }

  /** The dispatch on a reply's status. */
  function ReadStatus(name: Bytes, submitted: Value, observed: Value, status: Bytes, retain: bool, completion: Completion): Validation {
    if status == Ascii("pass") then
      match completion(name, submitted, observed, retain)
      case Threw(e) => Rejected(e.InvalidArgument?)
      case Returned(result) => Accepted(Completed, result, [])
    else if status == Ascii("failed") && IsDrift(name, observed) then ReadDrift(submitted, observed, retain)
    else if status == Ascii("failed") then ReadFailure(observed, Refused, Ascii("publisher_failed"), retain)
    else if status == Ascii("recovery_required") then
      ReadFailure(observed, RecoveryRequired, Ascii("recovery_required"), retain)
    else Rejected(false)
  }

  /** A parsed reply: its schema, then its status. */
  function ReadReply(name: Bytes, submitted: Value, observed: Value, retain: bool, completion: Completion): Validation {
    if !IsText(TextAt(observed, ["schema"]), "usk.publisher_lab_service_observation.v1") then Rejected(false)
    else
      match TextAt(observed, ["status"])
      case None => Rejected(false)
      case Some(status) => ReadStatus(name, submitted, observed, status, retain, completion)
  }

  /** `validate_publisher_response`. */
  ghost function Validated(name: Bytes, submitted: Value, reply: Bytes, retain: bool, completion: Completion): Validation {
    if name !in RESPONDING then Rejected(true)
    else
      match Parse(reply, RESPONSE_LIMITS)
      case Err(_) => Rejected(false)
      case Ok(observed, _, _) => ReadReply(name, submitted, observed, retain, completion)
  }

  method ValidateResponse(name: Bytes, submitted: Value, reply: Bytes, retain: bool, completion: Completion) returns (v: Validation)
    ensures v == Validated(name, submitted, reply, retain, completion)
  {
    if name !in RESPONDING {
      return Rejected(true);
    }
    var observed := ParseText(reply, RESPONSE_LIMITS);
    if observed.Failure? {
      return Rejected(false);
    }
    return ReadReply(name, submitted, observed.value, retain, completion);
  }

  lemma StatusesDiffer()
    ensures Ascii("failed") != Ascii("pass") && Ascii("failed") != Ascii("recovery_required")
    ensures Ascii("pass") != Ascii("recovery_required")
  {
    assert |Ascii("failed")| == 6 && |Ascii("pass")| == 4 && |Ascii("recovery_required")| == 17;
  }

  /** A reply is read as refused exactly when it says so, is no drift report, and its diagnostic is readable. */
  lemma RefusedExact(name: Bytes, submitted: Value, observed: Value, retain: bool, completion: Completion)
    ensures var v := ReadReply(name, submitted, observed, retain, completion);
            v.Accepted? && v.disposition.Refused? <==>
            && IsText(TextAt(observed, ["schema"]), "usk.publisher_lab_service_observation.v1")
            && IsText(TextAt(observed, ["status"]), "failed") && !IsDrift(name, observed)
            && ErrorCode(observed).Returned? && Diagnostic(observed, ErrorCode(observed).value).Returned?
  {
    StatusesDiffer();
  }

  /** A reply that requires recovery is read as that, or not at all. */
  lemma RecoveryIsKept(name: Bytes, submitted: Value, observed: Value, retain: bool, completion: Completion)
    requires IsText(TextAt(observed, ["status"]), "recovery_required")
    ensures var v := ReadReply(name, submitted, observed, retain, completion);
            v.Accepted? ==> v.disposition.RecoveryRequired?
  {
    StatusesDiffer();
  }
}
