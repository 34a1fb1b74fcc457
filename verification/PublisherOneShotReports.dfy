/** What a one-shot run prints and how it exits, read off the reply and the printed document's own members. */
module PublisherOneShotReports {
  import opened Bytes
  import opened Wrappers
  import opened Json
  import opened JsonParser
  import opened JsonObject
  import opened PublisherDocuments
  import opened PublisherResponse
  import opened PublisherAnswers
  import opened PublisherReports
  import opened PublisherOneShot

  // ----- reading a printed document -----

  predicate EnvelopeTells(doc: Value, id: Bytes, status: string, result: Value, code: Option<Bytes>) {
    && Get(doc, Ascii("schema")) == Some(String(Ascii("usk.oneshot_response.v1")))
    && Get(doc, Ascii("request_id")) == Some(String(id)) && Get(doc, Ascii("status")) == Some(String(Ascii(status)))
    && Get(doc, Ascii("result")) == Some(result)
    && match code
       case None => Get(doc, Ascii("error")) == Some(Null)
       case Some(c) => Inner(doc, "error", "code") == Some(String(c))
  }

  /** The document and the exit code, or the bare unknown outcome where the document is above 16 MiB. */
  ghost predicate Emits(r: OneShotResult, id: Bytes, status: string, result: Value, code: Option<Bytes>, exit: int) {
    exists doc: Value ::
      && EnvelopeTells(doc, id, status, result, code)
      && if |Canonical(doc)| <= 0x100_0000 then r == OneShotResult(Canonical(doc), [], exit) else EmitsBare(r, id)
  }

  ghost predicate EmitsBare(r: OneShotResult, id: Bytes) {
    exists doc: Value ::
      && EnvelopeTells(doc, id, "unknown", Null, Some(Ascii("publisher_outcome_unknown")))
      && r == OneShotResult(Canonical(doc), [], 5)
  }

  lemma EnvelopeKeysDiffer()
    ensures var k := Names(["error", "request_id", "result", "schema", "status"]);
            forall i, j :: 0 <= i < j < 5 ==> k[i] != k[j]
  {
    assert Ascii("error")[0] == 0x65 && Ascii("request_id")[2] == 0x71 && Ascii("result")[2] == 0x73;
    assert Ascii("request_id")[0] == 0x72 && Ascii("result")[0] == 0x72;
    assert Ascii("schema")[0] == 0x73 && Ascii("status")[0] == 0x73 && Ascii("schema")[1] == 0x63 && Ascii("status")[1] == 0x74;
  }

  lemma EnvelopeReads(id: Bytes, status: string, result: Value, code: Option<Bytes>)
    ensures EnvelopeTells(Envelope(id, Ascii(status), result, code), id, status, result, code)
  {
    var members := Envelope(id, Ascii(status), result, code).members;
    var k := Names(["error", "request_id", "result", "schema", "status"]);
    assert k[0] == Ascii("error") && k[1] == Ascii("request_id") && k[2] == Ascii("result");
    assert k[3] == Ascii("schema") && k[4] == Ascii("status");
    EnvelopeKeysDiffer();
    FiveMembers(members, k);
  }

  lemma FiveMembers(members: seq<Member>, k: seq<Bytes>)
    requires |members| == |k| == 5 && (forall i :: 0 <= i < 5 ==> members[i].key == k[i])
    requires forall i, j :: 0 <= i < j < 5 ==> k[i] != k[j]
    ensures forall i :: 0 <= i < 5 ==> Lookup(members, k[i]) == Some(members[i].value)
  {
    forall i | 0 <= i < 5 ensures Lookup(members, k[i]) == Some(members[i].value) {
      LookupFirst(members, i);
    }
  }

  lemma CandidateEmits(id: Bytes, status: string, result: Value, code: Option<Bytes>, exit: int)
    ensures Emits(Candidate(id, Ascii(status), result, code, exit), id, status, result, code, exit)
  {
    EnvelopeReads(id, status, result, code);
    EnvelopeReads(id, "unknown", Null, Some(Ascii("publisher_outcome_unknown")));
  }

  // ----- what must be printed -----

  /** What stands beside an error: the whole reply if it is to be retained, else the diagnostic. */
  predicate ResultTells(w: Value, observed: Value, retain: bool, code: Bytes, reference: Option<Bytes>) {
    if retain then w == observed
    else
      match reference
      case None => w == Null
      case Some(r) =>
        Get(w, Ascii("inspection_reference")) == Some(String(r)) && Get(w, Ascii("error_code")) == Some(String(code))
  }

  ghost predicate EmitsFailure(r: OneShotResult, id: Bytes, status: string, code: Bytes, exit: int, observed: Value, retain: bool,
                               reference: Option<Bytes>)
  {
    exists w: Value :: ResultTells(w, observed, retain, code, reference) && Emits(r, id, status, w, Some(code), exit)
  }

  ghost predicate FailurePrinted(r: OneShotResult, observed: Value, id: Bytes, status: string, otherwise: string, exit: int, retain: bool,
                                 unknown: OneShotResult)
  {
    match Get(observed, Ascii("error_code"))
    case None => EmitsFailure(r, id, status, Ascii(otherwise), exit, observed, retain, None)
    case Some(code) =>
      if !code.String? then r == unknown
      else if !ListedCode(code.s) then EmitsFailure(r, id, status, Ascii(otherwise), exit, observed, retain, None)
      else
        match Get(observed, Ascii("operation_inspection_ref"))
        case None => EmitsFailure(r, id, status, code.s, exit, observed, retain, None)
        case Some(reference) =>
          if reference.String? && IsReference(reference.s) then
            EmitsFailure(r, id, status, code.s, exit, observed, retain, Some(reference.s))
          else r == unknown
  }

  /** A report of drift is a completed diagnosis; a retained one need not repeat the request. */
  ghost predicate DriftPrinted(r: OneShotResult, id: Bytes, submitted: Value, observed: Value, retain: bool, unknown: OneShotResult)
    requires Get(observed, Ascii("verify_response")).Some?
  {
    if DriftFound(observed) && (retain || DriftReport(observed, submitted)) then
      Emits(r, id, "ok", if retain then observed else Get(observed, Ascii("verify_response")).value, None, 0)
    else r == unknown
  }

  /** Status words and exit codes for each status of a reply. */
  ghost predicate StatusPrinted(r: OneShotResult, id: Bytes, name: Bytes, submitted: Value, observed: Value, status: Bytes, retain: bool,
                                unknown: OneShotResult, world: World)
  {
    if status == Ascii("pass") then
      match world.completion(name, submitted, observed, retain)
      case Returned(x) => Emits(r, id, "ok", x, None, 0)
      case Threw(_) => r == unknown
    else if status == Ascii("failed") then
      if name == Ascii("installed.verify") && Get(observed, Ascii("verify_response")).Some? then
        DriftPrinted(r, id, submitted, observed, retain, unknown)
      else FailurePrinted(r, observed, id, "refused", "publisher_failed", 4, retain, unknown)
    else if status == Ascii("recovery_required") then
      FailurePrinted(r, observed, id, "recovery_required", "recovery_required", 5, retain, unknown)
    else r == unknown
  }

  ghost predicate ObservedPrinted(r: OneShotResult, id: Bytes, name: Bytes, submitted: Value, observed: Value, retain: bool,
                                  unknown: OneShotResult, world: World)
  {
    if TextAt(observed, ["schema"]) != Some(Ascii("usk.publisher_lab_service_observation.v1")) then r == unknown
    else
      match TextAt(observed, ["status"])
      case None => r == unknown
      case Some(status) => StatusPrinted(r, id, name, submitted, observed, status, retain, unknown, world)
  }

  ghost predicate ReplyPrinted(r: OneShotResult, id: Bytes, name: Bytes, submitted: Value, reply: Bytes, retain: bool,
                               unknown: OneShotResult, world: World)
  {
    if name !in RESPONDING || Parse(reply, RESPONSE_LIMITS).Err? || !world.available(AtResult) then r == unknown
    else ObservedPrinted(r, id, name, submitted, Parse(reply, RESPONSE_LIMITS).value, retain, unknown, world)
  }

  // ----- and is -----

  /** The answer to a validated reply. */
  function Printed(id: Bytes, v: Validation, unknown: OneShotResult): OneShotResult {
    if v.Rejected? then unknown
    else
      Candidate(id, StatusText(v.disposition), v.result, if v.disposition.Completed? then None else Some(v.code),
                ExitCode(v.disposition))
  }

  function Exit(d: Disposition): int {
    if d.Refused? then 4 else 5
  }

  lemma FailureEmitted(id: Bytes, d: Disposition, w: Value, code: Bytes, observed: Value, retain: bool, reference: Option<Bytes>,
                       unknown: OneShotResult, r: OneShotResult)
    requires IsFailure(d) && ResultTells(w, observed, retain, code, reference) && r == Printed(id, Accepted(d, w, code), unknown)
    ensures EmitsFailure(r, id, FailureWord(d), code, Exit(d), observed, retain, reference)
  {
    CandidateEmits(id, FailureWord(d), w, Some(code), Exit(d));
  }

  lemma FailurePrintedAs(id: Bytes, d: Disposition, observed: Value, retain: bool, unknown: OneShotResult, r: OneShotResult)
    requires IsFailure(d) && r == Printed(id, ReadFailure(observed, d, Ascii(DefaultWord(d)), retain), unknown)
    ensures FailurePrinted(r, observed, id, FailureWord(d), DefaultWord(d), Exit(d), retain, unknown)
  {
    CodeRead(observed);
    var w := if retain then observed else Null;
    match Get(observed, Ascii("error_code"))
    case None => FailureEmitted(id, d, w, Ascii(DefaultWord(d)), observed, retain, None, unknown, r);
    case Some(code) =>
      if code.String? && ListedCode(code.s) {
        ListedPrintedAs(id, d, observed, retain, unknown, r, code.s);
      } else if code.String? {
        FailureEmitted(id, d, w, Ascii(DefaultWord(d)), observed, retain, None, unknown, r);
      }
  }

  lemma ListedPrintedAs(id: Bytes, d: Disposition, observed: Value, retain: bool, unknown: OneShotResult, r: OneShotResult, code: Bytes)
    requires IsFailure(d) && ErrorCode(observed) == Returned(Some(code))
    requires r == Printed(id, ReadFailure(observed, d, Ascii(DefaultWord(d)), retain), unknown)
    ensures match Get(observed, Ascii("operation_inspection_ref"))
            case None => EmitsFailure(r, id, FailureWord(d), code, Exit(d), observed, retain, None)
            case Some(reference) =>
              if reference.String? && IsReference(reference.s) then
                EmitsFailure(r, id, FailureWord(d), code, Exit(d), observed, retain, Some(reference.s))
              else r == unknown
  {
    DiagnosticRead(observed, code);
    match Get(observed, Ascii("operation_inspection_ref"))
    case None => FailureEmitted(id, d, if retain then observed else Null, code, observed, retain, None, unknown, r);
    case Some(reference) =>
      if reference.String? && IsReference(reference.s) {
        ReferenceRead(reference.s, code);
        var diagnostic := OperationDiagnostic(Some(reference.s), code).value;
        FailureEmitted(id, d, if retain then observed else diagnostic, code, observed, retain, Some(reference.s), unknown, r);
      } else if reference.String? {
        NoReference(reference.s, code);
      }
  }

  lemma DriftPrintedAs(id: Bytes, submitted: Value, observed: Value, retain: bool, unknown: OneShotResult, r: OneShotResult)
    requires Get(observed, Ascii("verify_response")).Some? && r == Printed(id, ReadDrift(submitted, observed, retain), unknown)
    ensures DriftPrinted(r, id, submitted, observed, retain, unknown)
  {
    DriftRead(submitted, observed, retain);
    CandidateEmits(id, "ok", if retain then observed else Get(observed, Ascii("verify_response")).value, None, 0);
  }

  lemma StatusPrintedAs(id: Bytes, name: Bytes, submitted: Value, observed: Value, status: Bytes, retain: bool, unknown: OneShotResult,
                        world: World, r: OneShotResult)
    requires r == Printed(id, ReadStatus(name, submitted, observed, status, retain, world.completion), unknown)
    ensures StatusPrinted(r, id, name, submitted, observed, status, retain, unknown, world)
  {
    StatusesDiffer();
    if status == Ascii("pass") {
      if world.completion(name, submitted, observed, retain).Returned? {
        CandidateEmits(id, "ok", world.completion(name, submitted, observed, retain).value, None, 0);
      }
    } else if status == Ascii("failed") {
      if IsDrift(name, observed) {
        DriftPrintedAs(id, submitted, observed, retain, unknown, r);
      } else {
        FailurePrintedAs(id, Refused, observed, retain, unknown, r);
      }
    } else if status == Ascii("recovery_required") {
      FailurePrintedAs(id, RecoveryRequired, observed, retain, unknown, r);
    }
  }

  lemma ObservedPrintedAs(id: Bytes, name: Bytes, submitted: Value, observed: Value, retain: bool, unknown: OneShotResult,
                          world: World, r: OneShotResult)
    requires r == Printed(id, ReadReply(name, submitted, observed, retain, world.completion), unknown)
    ensures ObservedPrinted(r, id, name, submitted, observed, retain, unknown, world)
  {
    if TextAt(observed, ["status"]).Some? && IsText(TextAt(observed, ["schema"]), "usk.publisher_lab_service_observation.v1") {
      StatusPrintedAs(id, name, submitted, observed, TextAt(observed, ["status"]).value, retain, unknown, world, r);
    }
  }

  /** For every reply to an effect command: the printed document and the exit code, word for word. */
  lemma AnswerPrinted(id: Bytes, name: Bytes, submitted: Value, reply: Bytes, retain: bool, unknown: OneShotResult, world: World)
    ensures ReplyPrinted(OneShotAnswer(id, name, submitted, Returned(reply), retain, unknown, world),
                         id, name, submitted, reply, retain, unknown, world)
  {
    var r := OneShotAnswer(id, name, submitted, Returned(reply), retain, unknown, world);
    if name in RESPONDING && Parse(reply, RESPONSE_LIMITS).Ok? && world.available(AtResult) {
      ObservedPrintedAs(id, name, submitted, Parse(reply, RESPONSE_LIMITS).value, retain, unknown, world, r);
    }
  }

  /** A transport that denies dispatch: an ordinary failure for a refused admission, else a refusal. */
  lemma DenialPrinted(id: Bytes, e: Exception, unknown: OneShotResult, world: World)
    requires e.NotDispatched?
    ensures var r := UndispatchedAnswer(id, e, unknown, world);
            if e.reason.AdmissionRefused? then
              exists doc :: EnvelopeTells(doc, id, "refused", Null, Some(Ascii("publisher_admission_refused"))) &&
                            r == OneShotResult(Canonical(doc), Ascii("request refused"), 2)
            else
              var code := if e.reason.OperationCancelled? then Ascii("operation_cancelled") else Ascii("operation_conflict");
              if !world.available(AtRefusal) then r == unknown
              else if e.reference == [] then EmitsFailure(r, id, "refused", code, 4, Null, false, None)
              else if IsReference(e.reference) then EmitsFailure(r, id, "refused", code, 4, Null, false, Some(e.reference))
              else r == unknown
  {
    if e.reason.AdmissionRefused? {
      EnvelopeReads(id, "refused", Null, Some(Ascii("publisher_admission_refused")));
    } else if world.available(AtRefusal) {
      var code := ReasonCode(e.reason);
      if e.reference == [] {
        CandidateEmits(id, "refused", Null, Some(code), 4);
      } else if IsReference(e.reference) {
        ReferenceRead(e.reference, code);
        CandidateEmits(id, "refused", OperationDiagnostic(Some(e.reference), code).value, Some(code), 4);
      } else {
        NoReference(e.reference, code);
      }
    }
  }
}
