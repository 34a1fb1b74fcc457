/** What the caller of the publisher client is told, read off the reply and the answer's own members. */
module PublisherReports {
  import opened Bytes
  import opened Wrappers
  import opened Json
  import opened JsonParser
  import opened JsonObject
  import opened PublisherDocuments
  import opened PublisherResponse
  import opened PublisherAnswers

  // ----- reading an answer -----

  /** A member of a member. */
  function Inner(v: Value, outer: string, inner: string): Option<Value> {
    match Get(v, Ascii(outer))
    case None => None
    case Some(o) => Get(o, Ascii(inner))
  }

  /** The payload names the call and, if there is one, the inspection reference with its code. */
  predicate PayloadTells(payload: Value, code: Bytes, call: Prepared, reference: Option<Bytes>) {
    && Get(payload, Ascii("command")) == Some(String(call.name))
    && Get(payload, Ascii("request_sha256")) == Some(String(RequestDigest(call.submitted)))
    && match reference
       case None => Get(payload, Ascii("diagnostic")) == None
       case Some(r) =>
         && Inner(payload, "diagnostic", "inspection_reference") == Some(String(r))
         && Inner(payload, "diagnostic", "error_code") == Some(String(code))
  }

  predicate DocumentTells(doc: Value, status: string, code: Bytes, call: Prepared, reference: Option<Bytes>) {
    && Get(doc, Ascii("schema")) == Some(String(Ascii("usk.command_response.v1")))
    && Get(doc, Ascii("status")) == Some(String(Ascii(status)))
    && Inner(doc, "error", "code") == Some(String(code))
    && match Get(doc, Ascii("payload"))
       case None => false
       case Some(payload) => PayloadTells(payload, code, call, reference)
  }

  /** An error whose document says this of this call. */
  ghost predicate Reported(r: ClientResult, status: string, code: Bytes, call: Prepared, reference: Option<Bytes>) {
    exists doc: Value ::
      r == ClientResult(ErrorStatus, Owned(Canonical(doc))) && DocumentTells(doc, status, code, call, reference)
  }

  ghost predicate ReportedUnknown(r: ClientResult, call: Prepared) {
    Reported(r, "unknown", Ascii("publisher_outcome_unknown"), call, None)
  }

  // ----- what must be told -----

  predicate ListedCode(code: Bytes) {
    || code == Ascii("operation_conflict") || code == Ascii("operation_cancelled") || code == Ascii("lease_stale")
    || code == Ascii("state_revision_stale") || code == Ascii("stale_plan")
  }

  predicate IsReference(s: Bytes) {
    var prefix := Ascii("usk.operation-inspection.v1:");
    && |s| == |prefix| + 64 && s[..|prefix|] == prefix
    && forall i :: |prefix| <= i < |s| ==> 0x30 <= s[i] <= 0x39 || 0x61 <= s[i] <= 0x66
  }

  /** A reply that reports no completion: its listed code and its reference as sent, or the default code. */
  ghost predicate FailureTold(r: ClientResult, observed: Value, status: string, otherwise: string, call: Prepared) {
    match Get(observed, Ascii("error_code"))
    case None => Reported(r, status, Ascii(otherwise), call, None)
    case Some(code) =>
      if !code.String? then ReportedUnknown(r, call)
      else if !ListedCode(code.s) then Reported(r, status, Ascii(otherwise), call, None)
      else
        match Get(observed, Ascii("operation_inspection_ref"))
        case None => Reported(r, status, code.s, call, None)
        case Some(reference) =>
          if reference.String? && IsReference(reference.s) then Reported(r, status, code.s, call, Some(reference.s))
          else ReportedUnknown(r, call)
  }

  // ----- the members of an outcome -----

  lemma KeysDiffer()
    ensures Ascii("error") != Ascii("payload") && Ascii("error") != Ascii("schema") && Ascii("error") != Ascii("status")
    ensures Ascii("payload") != Ascii("schema") && Ascii("payload") != Ascii("status") && Ascii("schema") != Ascii("status")
  {
    assert Ascii("error")[0] == 0x65 && Ascii("payload")[0] == 0x70 && Ascii("schema")[0] == 0x73 && Ascii("status")[0] == 0x73;
    assert Ascii("schema")[1] == 0x63 && Ascii("status")[1] == 0x74;
  }

  /** Reading one of four members with different keys. */
  lemma FourMembers(a: Member, b: Member, c: Member, d: Member)
    requires a.key != b.key && a.key != c.key && a.key != d.key && b.key != c.key && b.key != d.key && c.key != d.key
    ensures var o := Object([a, b, c, d]);
            && Get(o, a.key) == Some(a.value) && Get(o, b.key) == Some(b.value)
            && Get(o, c.key) == Some(c.value) && Get(o, d.key) == Some(d.value)
  {
    var s := [a, b, c, d];
    LookupFirst(s, 0);
    LookupFirst(s, 1);
    LookupFirst(s, 2);
    LookupFirst(s, 3);
  }

  lemma OutcomeReads(status: Bytes, code: Bytes, payload: Value)
    ensures var doc := Outcome(status, code, payload);
            && Get(doc, Ascii("schema")) == Some(String(Ascii("usk.command_response.v1")))
            && Get(doc, Ascii("status")) == Some(String(status)) && Get(doc, Ascii("payload")) == Some(payload)
            && Inner(doc, "error", "code") == Some(String(code))
  {
    var members := Outcome(status, code, payload).members;
    KeysDiffer();
    FourMembers(members[0], members[1], members[2], members[3]);
  }

  lemma OutcomeTells(status: string, code: Bytes, payload: Value, call: Prepared, reference: Option<Bytes>)
    requires PayloadTells(payload, code, call, reference)
    ensures DocumentTells(Outcome(Ascii(status), code, payload), status, code, call, reference)
  {
    OutcomeReads(Ascii(status), code, payload);
  }

  // ----- the receipt -----

  /** No identity field is called "diagnostic". */
  lemma SourceNames(c: Command, k: nat)
    requires k < |IdentitySources(c)|
    ensures IdentitySources(c)[k].field != [] && IdentitySources(c)[k].field[0] != 0x64
  {
  }

  lemma HeaderNames(name: Bytes, digest: Bytes, k: nat)
    requires k < 3
    ensures IdentityHeader(name, digest)[k].key != Ascii("diagnostic")
  {
    assert Ascii("schema")[0] == 0x73 && Ascii("command")[0] == 0x63 && Ascii("request_sha256")[0] == 0x72;
    assert Ascii("diagnostic")[0] == 0x64;
  }

  lemma NotAmong(header: seq<Member>, fields: seq<Member>, key: Bytes)
    requires forall i :: 0 <= i < |header| ==> header[i].key != key
    requires forall i :: 0 <= i < |fields| ==> fields[i].key != key
    ensures !HasKey(FromPairs(header + fields), key)
  {
    LookupPairs(header + fields, key);
    HasKeyAt(header + fields, key);
  }

  lemma NoDiagnosticField(name: Bytes, c: Command, submitted: Value, identity: Value)
    requires Identity(name, c, submitted) == Returned(identity)
    ensures identity.Object? && !HasKey(identity.members, Ascii("diagnostic"))
  {
    var fields := IdentityFields(submitted, IdentitySources(c), 0).value;
    var header := IdentityHeader(name, RequestDigest(submitted));
    forall i | 0 <= i < |header| ensures header[i].key != Ascii("diagnostic") {
      HeaderNames(name, RequestDigest(submitted), i);
    }
    forall i | 0 <= i < |fields| ensures fields[i].key != Ascii("diagnostic") {
      SourceNames(c, i);
      assert Ascii("diagnostic")[0] == 0x64;
    }
    NotAmong(header, fields, Ascii("diagnostic"));
  }

  /** The call's receipt is the one its request gives. */
  ghost predicate OwnReceipt(call: Prepared) {
    Identity(call.name, call.command, call.submitted) == Returned(call.identity)
  }

  lemma ReceiptTells(call: Prepared, code: Bytes)
    requires OwnReceipt(call)
    ensures PayloadTells(call.identity, code, call, None)
  {
    IdentityNamesCall(call.name, call.command, call.submitted);
    NoDiagnosticField(call.name, call.command, call.submitted, call.identity);
    LookupSplit(call.identity.members, [], Ascii("diagnostic"));
  }

  /** A well-formed reference gives a diagnostic that holds it and the code. */
  lemma ReferenceRead(reference: Bytes, code: Bytes)
    requires IsReference(reference)
    ensures OperationDiagnostic(Some(reference), code).Returned?
    ensures var d := OperationDiagnostic(Some(reference), code).value;
            Get(d, Ascii("inspection_reference")) == Some(String(reference)) && Get(d, Ascii("error_code")) == Some(String(code))
  {
    var prefix := Ascii("usk.operation-inspection.v1:");
    assert prefix <= reference && LowerHex(reference[|prefix|..], 64);
    DiagnosticReads(reference, code, OperationDiagnostic(Some(reference), code).value);
  }

  /** The diagnostic of a reference, beside the receipt. */
  lemma DiagnosticTells(call: Prepared, code: Bytes, reference: Bytes)
    requires OwnReceipt(call) && IsReference(reference)
    ensures OperationDiagnostic(Some(reference), code).Returned?
    ensures PayloadTells(WithDiagnostic(call.identity, OperationDiagnostic(Some(reference), code).value), code, call, Some(reference))
  {
    ReferenceRead(reference, code);
    ReceiptTells(call, code);
    NoDiagnosticField(call.name, call.command, call.submitted, call.identity);
    EmplacedReads(call.identity.members, OperationDiagnostic(Some(reference), code).value);
  }

  lemma EmplacedReads(members: seq<Member>, d: Value)
    requires !HasKey(members, Ascii("diagnostic"))
    ensures var o := Object(Emplace(members, Member(Ascii("diagnostic"), d)));
            && Get(o, Ascii("diagnostic")) == Some(d) && Get(o, Ascii("command")) == Lookup(members, Ascii("command"))
            && Get(o, Ascii("request_sha256")) == Lookup(members, Ascii("request_sha256"))
  {
    var m := Member(Ascii("diagnostic"), d);
    assert Ascii("diagnostic")[0] == 0x64 && Ascii("command")[0] == 0x63 && Ascii("request_sha256")[0] == 0x72;
    LookupEmplace(members, m, Ascii("diagnostic"));
    LookupEmplace(members, m, Ascii("command"));
    LookupEmplace(members, m, Ascii("request_sha256"));
  }

  lemma DiagnosticReads(reference: Bytes, code: Bytes, d: Value)
    requires OperationDiagnostic(Some(reference), code) == Returned(d)
    ensures Get(d, Ascii("inspection_reference")) == Some(String(reference)) && Get(d, Ascii("error_code")) == Some(String(code))
  {
    assert Ascii("error_code")[0] == 0x65 && Ascii("inspection_reference")[0] == 0x69;
    LookupFirst(d.members, 0);
    LookupFirst(d.members, 1);
  }

  lemma NoReference(reference: Bytes, code: Bytes)
    requires !IsReference(reference)
    ensures OperationDiagnostic(Some(reference), code).Threw?
  {
    var prefix := Ascii("usk.operation-inspection.v1:");
    if prefix <= reference && LowerHex(reference[|prefix|..], 64) {
      forall i | |prefix| <= i < |reference| ensures 0x30 <= reference[i] <= 0x39 || 0x61 <= reference[i] <= 0x66 {
        assert reference[i] == reference[|prefix|..][i - |prefix|];
      }
    }
  }

  lemma UnknownTold(call: Prepared)
    requires OwnReceipt(call)
    ensures ReportedUnknown(Unknown(call.identity), call)
  {
    var code := Ascii("publisher_outcome_unknown");
    ReceiptTells(call, code);
    OutcomeTells("unknown", code, call.identity, call, None);
  }

  /** An outcome with this payload reports what the payload tells. */
  lemma OutcomeReported(r: ClientResult, status: string, code: Bytes, payload: Value, call: Prepared, reference: Option<Bytes>)
    requires PayloadTells(payload, code, call, reference)
    requires r == ClientResult(ErrorStatus, Owned(Canonical(Outcome(Ascii(status), code, payload))))
    ensures Reported(r, status, code, call, reference)
  {
    OutcomeTells(status, code, payload, call, reference);
  }

  // ----- failures -----

  predicate IsFailure(d: Disposition) {
    d.Refused? || d.RecoveryRequired?
  }

  function FailureWord(d: Disposition): string {
    if d.Refused? then "refused" else "recovery_required"
  }

  function DefaultWord(d: Disposition): string {
    if d.Refused? then "publisher_failed" else "recovery_required"
  }

  lemma CodeRead(observed: Value)
    ensures match Get(observed, Ascii("error_code"))
            case None => ErrorCode(observed) == Returned(None)
            case Some(code) =>
              if !code.String? then ErrorCode(observed).Threw?
              else ErrorCode(observed) == Returned(if ListedCode(code.s) then Some(code.s) else None)
  {
    if Get(observed, Ascii("error_code")).Some? {
      TextAtOne(observed, "error_code");
      if TextAt(observed, ["error_code"]).Some? {
        ListedIs(TextAt(observed, ["error_code"]).value);
      }
    }
  }

  lemma ListedIs(code: Bytes)
    ensures code in Names(["operation_conflict", "operation_cancelled", "lease_stale", "state_revision_stale", "stale_plan"]) <==>
            ListedCode(code)
  {
    var l := Names(["operation_conflict", "operation_cancelled", "lease_stale", "state_revision_stale", "stale_plan"]);
    assert l[0] == Ascii("operation_conflict") && l[1] == Ascii("operation_cancelled") && l[2] == Ascii("lease_stale");
    assert l[3] == Ascii("state_revision_stale") && l[4] == Ascii("stale_plan");
  }

  lemma TextAtOne(v: Value, name: string)
    ensures TextAt(v, [name]) ==
            match Get(v, Ascii(name)) case Some(found) => (if found.String? then Some(found.s) else None) case None => None
  {
    var path := Names([name]);
    assert path[0] == Ascii(name) && path[1..] == [];
    if Get(v, Ascii(name)).Some? {
      assert Descend(Get(v, Ascii(name)).value, path[1..]) == Get(v, Ascii(name));
    }
  }

  lemma DiagnosticRead(observed: Value, code: Bytes)
    ensures match Get(observed, Ascii("operation_inspection_ref"))
            case None => Diagnostic(observed, Some(code)) == Returned(Null)
            case Some(reference) =>
              Diagnostic(observed, Some(code)) ==
              if reference.String? then OperationDiagnostic(Some(reference.s), code) else Threw(OtherFailure)
  {
    if Get(observed, Ascii("operation_inspection_ref")).Some? {
      TextAtOne(observed, "operation_inspection_ref");
    }
  }

  lemma FailureAnswered(observed: Value, d: Disposition, call: Prepared, r: ClientResult)
    requires OwnReceipt(call) && IsFailure(d)
    requires var v := ReadFailure(observed, d, Ascii(DefaultWord(d)), false);
             r == if v.Accepted? then Presented(v, call.identity) else Unknown(call.identity)
    ensures FailureTold(r, observed, FailureWord(d), DefaultWord(d), call)
  {
    CodeRead(observed);
    UnknownTold(call);
    var otherwise := Ascii(DefaultWord(d));
    match Get(observed, Ascii("error_code"))
    case None =>
      ReceiptTells(call, otherwise);
      OutcomeReported(r, FailureWord(d), otherwise, call.identity, call, None);
    case Some(code) =>
      if code.String? && ListedCode(code.s) {
        ListedAnswered(observed, d, call, r, code.s);
      } else if code.String? {
        ReceiptTells(call, otherwise);
        OutcomeReported(r, FailureWord(d), otherwise, call.identity, call, None);
      }
  }

  lemma ListedAnswered(observed: Value, d: Disposition, call: Prepared, r: ClientResult, code: Bytes)
    requires OwnReceipt(call) && IsFailure(d) && ErrorCode(observed) == Returned(Some(code))
    requires var v := ReadFailure(observed, d, Ascii(DefaultWord(d)), false);
             r == if v.Accepted? then Presented(v, call.identity) else Unknown(call.identity)
    ensures match Get(observed, Ascii("operation_inspection_ref"))
            case None => Reported(r, FailureWord(d), code, call, None)
            case Some(reference) =>
              if reference.String? && IsReference(reference.s) then Reported(r, FailureWord(d), code, call, Some(reference.s))
              else ReportedUnknown(r, call)
  {
    DiagnosticRead(observed, code);
    match Get(observed, Ascii("operation_inspection_ref"))
    case None =>
      ReceiptTells(call, code);
      OutcomeReported(r, FailureWord(d), code, call.identity, call, None);
    case Some(reference) =>
      if reference.String? && IsReference(reference.s) {
        DiagnosticTells(call, code, reference.s);
        var payload := WithDiagnostic(call.identity, OperationDiagnostic(Some(reference.s), code).value);
        OutcomeReported(r, FailureWord(d), code, payload, call, Some(reference.s));
      } else {
        if reference.String? {
          NoReference(reference.s, code);
        }
        UnknownTold(call);
      }
  }

  // ----- every answer -----

  /** A verification report that found drift, bound to the reply. */
  predicate DriftFound(observed: Value) {
    var status := TextAt(observed, ["verify_response", "payload", "status"]);
    && TextAt(observed, ["verify_response", "schema"]) == Some(Ascii("usk.command_response.v1"))
    && TextAt(observed, ["verify_response", "status"]) == Some(Ascii("ok"))
    && TextAt(observed, ["verify_response", "payload", "schema"]) == Some(Ascii("usk.verification_report.v1"))
    && (status == Some(Ascii("fail")) || status == Some(Ascii("warn")) || status == Some(Ascii("unknown")))
    && SameText(TextAt(observed, ["verify_response", "payload", "report_digest"]), TextAt(observed, ["bound_report_digest"]))
  }

  /** And to the request. */
  predicate DriftReport(observed: Value, wire: Value) {
    && DriftFound(observed)
    && SameText(TextAt(observed, ["verify_response", "payload", "install_id"]), TextAt(wire, ["install_id"]))
    && SameText(TextAt(observed, ["verify_response", "payload", "report_id"]), TextAt(wire, ["report_id"]))
    && SameText(TextAt(observed, ["verify_response", "payload", "verified_at"]), TextAt(wire, ["verified_at"]))
  }

  /** Such a report is returned as it was sent. */
  ghost predicate DriftTold(r: ClientResult, observed: Value, call: Prepared)
    requires Get(observed, Ascii("verify_response")).Some?
  {
    if DriftReport(observed, call.wire) then
      r == ClientResult(OkStatus, Owned(Canonical(Get(observed, Ascii("verify_response")).value)))
    else ReportedUnknown(r, call)
  }

  /** What the status of a reply obliges the client to answer. */
  ghost predicate StatusTold(r: ClientResult, observed: Value, status: Bytes, call: Prepared, world: World) {
    if status == Ascii("pass") then
      match world.completion(call.name, call.wire, observed, false)
      case Returned(x) => r == ClientResult(OkStatus, Owned(Canonical(x)))
      case Threw(_) => ReportedUnknown(r, call)
    else if status == Ascii("failed") then
      if call.name == Ascii("installed.verify") && Get(observed, Ascii("verify_response")).Some? then DriftTold(r, observed, call)
      else FailureTold(r, observed, "refused", "publisher_failed", call)
    else if status == Ascii("recovery_required") then
      FailureTold(r, observed, "recovery_required", "recovery_required", call)
    else ReportedUnknown(r, call)
  }

  ghost predicate ReplyTold(r: ClientResult, observed: Value, call: Prepared, world: World) {
    if !world.available(AtResult) then ReportedUnknown(r, call)
    else if TextAt(observed, ["schema"]) != Some(Ascii("usk.publisher_lab_service_observation.v1")) then ReportedUnknown(r, call)
    else
      match TextAt(observed, ["status"])
      case None => ReportedUnknown(r, call)
      case Some(status) => StatusTold(r, observed, status, call, world)
  }

  /** What a transport that claims to have sent nothing obliges it to answer. */
  ghost predicate UndispatchedTold(r: ClientResult, e: Exception, call: Prepared, world: World)
    requires e.NotDispatched?
  {
    var word := match e.reason
                case OperationCancelled => "operation_cancelled"
                case OperationConflict => "operation_conflict"
                case AdmissionRefused => "publisher_admission_refused";
    if !world.available(AtRefusal) then r == ClientResult(ErrorStatus, PreparationFailed)
    else if e.reference == [] then Reported(r, "refused", Ascii(word), call, None)
    else if IsReference(e.reference) then Reported(r, "refused", Ascii(word), call, Some(e.reference))
    else r == ClientResult(ErrorStatus, PreparationFailed)
  }

  ghost predicate Told(r: ClientResult, s: Sent, world: World) {
    match s.reply
    case Threw(e) => if e.NotDispatched? then UndispatchedTold(r, e, s.call, world) else ReportedUnknown(r, s.call)
    case Returned(bytes) =>
      if s.call.name !in RESPONDING || Parse(bytes, RESPONSE_LIMITS).Err? then ReportedUnknown(r, s.call)
      else ReplyTold(r, Parse(bytes, RESPONSE_LIMITS).value, s.call, world)
  }

  lemma UndispatchedAnswered(e: Exception, call: Prepared, world: World)
    requires OwnReceipt(call) && e.NotDispatched?
    ensures UndispatchedTold(RefusedBeforeDispatch(e, call.identity, world), e, call, world)
  {
    var code := ReasonCode(e.reason);
    var r := RefusedBeforeDispatch(e, call.identity, world);
    NoDiagnosticField(call.name, call.command, call.submitted, call.identity);
    if world.available(AtRefusal) {
      if e.reference == [] {
        ReceiptTells(call, code);
        OutcomeReported(r, "refused", code, call.identity, call, None);
      } else if IsReference(e.reference) {
        DiagnosticTells(call, code, e.reference);
        var payload := WithDiagnostic(call.identity, OperationDiagnostic(Some(e.reference), code).value);
        OutcomeReported(r, "refused", code, payload, call, Some(e.reference));
      } else {
        NoReference(e.reference, code);
      }
    }
  }

  /** Exactly a bound report is read; a retained one need not repeat the request. */
  lemma DriftRead(submitted: Value, observed: Value, retain: bool)
    requires Get(observed, Ascii("verify_response")).Some?
    ensures ReadDrift(submitted, observed, retain) ==
            if DriftFound(observed) && (retain || DriftReport(observed, submitted))
            then Validation.Accepted(Completed, if retain then observed else Get(observed, Ascii("verify_response")).value, [])
            else Rejected(false)
  {
  }

  lemma DriftAnswered(observed: Value, call: Prepared, r: ClientResult)
    requires OwnReceipt(call) && Get(observed, Ascii("verify_response")).Some?
    requires var v := ReadDrift(call.wire, observed, false);
             r == if v.Accepted? then Presented(v, call.identity) else Unknown(call.identity)
    ensures DriftTold(r, observed, call)
  {
    DriftRead(call.wire, observed, false);
    UnknownTold(call);
  }

  lemma FailedAnswered(observed: Value, call: Prepared, r: ClientResult)
    requires OwnReceipt(call)
    requires var v := if IsDrift(call.name, observed) then ReadDrift(call.wire, observed, false)
                      else ReadFailure(observed, Refused, Ascii("publisher_failed"), false);
             r == if v.Accepted? then Presented(v, call.identity) else Unknown(call.identity)
    ensures if call.name == Ascii("installed.verify") && Get(observed, Ascii("verify_response")).Some? then DriftTold(r, observed, call)
            else FailureTold(r, observed, "refused", "publisher_failed", call)
  {
    if IsDrift(call.name, observed) {
      DriftAnswered(observed, call, r);
    } else {
      FailureAnswered(observed, Refused, call, r);
    }
  }

  lemma StatusAnswered(observed: Value, status: Bytes, call: Prepared, world: World, r: ClientResult)
    requires OwnReceipt(call)
    requires var v := ReadStatus(call.name, call.wire, observed, status, false, world.completion);
             r == if v.Accepted? then Presented(v, call.identity) else Unknown(call.identity)
    ensures StatusTold(r, observed, status, call, world)
  {
    UnknownTold(call);
    StatusesDiffer();
    if status == Ascii("failed") {
      FailedAnswered(observed, call, r);
    } else if status == Ascii("recovery_required") {
      FailureAnswered(observed, RecoveryRequired, call, r);
    }
  }

  lemma ReplyAnswered(observed: Value, call: Prepared, world: World, r: ClientResult)
    requires OwnReceipt(call)
    requires var v := ReadReply(call.name, call.wire, observed, false, world.completion);
             r == if v.Accepted? && world.available(AtResult) then Presented(v, call.identity) else Unknown(call.identity)
    ensures ReplyTold(r, observed, call, world)
  {
    UnknownTold(call);
    if world.available(AtResult) && TextAt(observed, ["status"]).Some? {
      if IsText(TextAt(observed, ["schema"]), "usk.publisher_lab_service_observation.v1") {
        StatusAnswered(observed, TextAt(observed, ["status"]).value, call, world, r);
      }
    }
  }

  /** The answer to a request that was handed over tells exactly this. */
  lemma AnswerTold(s: Sent, world: World)
    requires OwnReceipt(s.call)
    ensures Told(Answer(s, world), s, world)
  {
    UnknownTold(s.call);
    match s.reply
    case Threw(e) =>
      if e.NotDispatched? {
        UndispatchedAnswered(e, s.call, world);
      }
    case Returned(bytes) =>
      if s.call.name in RESPONDING && Parse(bytes, RESPONSE_LIMITS).Ok? {
        ReplyAnswered(Parse(bytes, RESPONSE_LIMITS).value, s.call, world, Answer(s, world));
      }
  }

  // ----- what is handed over -----

  predicate Asks(p: Prepared, name: string, schema: string) {
    p.name == Ascii(name) && Get(p.submitted, Ascii("schema")) == Some(String(Ascii(schema)))
  }

  lemma SchemaRead(p: Prepared, world: World)
    requires Decode(p.command, p.submitted, world).Returned?
    ensures Get(p.submitted, Ascii("schema")) == Some(String(SchemaOf(p.command)))
  {
  }

  function NameOf(c: Command): Bytes {
    match c
    case InstallPlan => Ascii("install_local.plan")
    case InstallApply => Ascii("install_local.apply")
    case InstalledVerify => Ascii("installed.verify")
    case RepairApply => Ascii("repair.apply")
    case MoveApply => Ascii("move.apply")
    case UninstallApply => Ascii("uninstall.apply")
    case RecoveryInspect => Ascii("recovery.inspect")
    case RecoveryPlan => Ascii("recovery.plan")
    case RecoveryApply => Ascii("recovery.apply")
  }

  lemma NameRead(name: Bytes, c: Command)
    requires CommandOf(name) == Some(c)
    ensures name == NameOf(c)
  {
  }

  /** Nine names, each with its own request schema; plans and recoveries reach the wire as submitted. */
  lemma CallTold(p: Prepared, name: Option<Bytes>, request: Option<Bytes>, world: World)
    requires Belongs(p, name, request, world)
    ensures match p.command
            case InstallPlan => Asks(p, "install_local.plan", "usk.install_local_plan_request.v1") && p.wire == p.submitted
            case InstallApply => Asks(p, "install_local.apply", "usk.install_local_apply_request.v1")
            case InstalledVerify => Asks(p, "installed.verify", "usk.installed_verify_request.v1")
            case RepairApply => Asks(p, "repair.apply", "usk.repair_apply_request.v1")
            case MoveApply => Asks(p, "move.apply", "usk.move_apply_request.v1")
            case UninstallApply => Asks(p, "uninstall.apply", "usk.uninstall_apply_request.v1")
            case RecoveryInspect => Asks(p, "recovery.inspect", "usk.recovery_inspect_request.v1") && p.wire == p.submitted
            case RecoveryPlan => Asks(p, "recovery.plan", "usk.recovery_plan_request.v1") && p.wire == p.submitted
            case RecoveryApply => Asks(p, "recovery.apply", "usk.recovery_apply_request.v1") && p.wire == p.submitted
  {
    NameRead(p.name, p.command);
    SchemaRead(p, world);
  }
}
