/**
  * The documents a publisher client exchanges: registered commands, the bounded identity of one
  * invocation and the outcome envelope. A thrown exception is a result.
  */
module PublisherDocuments {
  import opened Bytes
  import opened Wrappers
  import opened Json
  import opened JsonParser
  import opened JsonObject
  import opened JsonTheorems
  import Sha256

  /** Why a transport says that nothing was sent. */
  datatype Reason = AdmissionRefused | OperationConflict | OperationCancelled

  /** The exception kinds the publisher client tells apart. */
  datatype Exception =
    | InvalidArgument
    | NotDispatched(reason: Reason, reference: Bytes)
    | OtherFailure

  datatype Attempt<+T> = Returned(value: T) | Threw(exception: Exception)

  // ----- commands -----

  datatype Command =
    | InstallPlan | InstallApply | InstalledVerify | RepairApply | MoveApply | UninstallApply
    | RecoveryInspect | RecoveryPlan | RecoveryApply

  /** The registered command names. */
  function CommandOf(name: Bytes): Option<Command> {
    if name == Ascii("install_local.plan") then Some(InstallPlan)
    else if name == Ascii("install_local.apply") then Some(InstallApply)
    else if name == Ascii("installed.verify") then Some(InstalledVerify)
    else if name == Ascii("repair.apply") then Some(RepairApply)
    else if name == Ascii("move.apply") then Some(MoveApply)
    else if name == Ascii("uninstall.apply") then Some(UninstallApply)
    else if name == Ascii("recovery.inspect") then Some(RecoveryInspect)
    else if name == Ascii("recovery.plan") then Some(RecoveryPlan)
    else if name == Ascii("recovery.apply") then Some(RecoveryApply)
    else None
  }

  /** `request_schema`. */
  function SchemaOf(c: Command): Bytes {
    match c
    case InstallPlan => Ascii("usk.install_local_plan_request.v1")
    case InstallApply => Ascii("usk.install_local_apply_request.v1")
    case InstalledVerify => Ascii("usk.installed_verify_request.v1")
    case RepairApply => Ascii("usk.repair_apply_request.v1")
    case MoveApply => Ascii("usk.move_apply_request.v1")
    case UninstallApply => Ascii("usk.uninstall_apply_request.v1")
    case RecoveryInspect => Ascii("usk.recovery_inspect_request.v1")
    case RecoveryPlan => Ascii("usk.recovery_plan_request.v1")
    case RecoveryApply => Ascii("usk.recovery_apply_request.v1")
  }

  predicate IsRecovery(c: Command) {
    c.RecoveryInspect? || c.RecoveryPlan? || c.RecoveryApply?
  }

  /** Commands whose complete public request must reach the wire unchanged. */
  predicate Preserving(c: Command) {
    c.InstallPlan? || IsRecovery(c)
  }

  // ----- the closed shape of a request -----

  function Names(names: seq<string>): (r: seq<Bytes>)
    ensures |r| == |names|
  {
    seq(|names|, i requires 0 <= i < |names| => Ascii(names[i]))
  }

  function RequiredFields(c: Command): seq<Bytes> {
    if c.InstalledVerify? then Names(["schema", "request_id", "install_id", "report_id", "verified_at"])
    else Names(["schema", "plan_request", "reviewed_plan_id", "reviewed_plan_digest", "transaction_id", "applied_at", "confirmation"])
  }

  predicate FieldShaped(v: Value, field: Bytes) {
    match Get(v, field)
    case None => false
    case Some(found) =>
      if field == Ascii("plan_request") then found.Object? else found.String? && found.s != []
  }

  /** `require_shape` for the commands it decodes itself. */
  predicate ClosedShape(c: Command, v: Value) {
    && v.Object?
    && (forall i :: 0 <= i < |RequiredFields(c)| ==> FieldShaped(v, RequiredFields(c)[i]))
    && (forall i :: 0 <= i < |v.members| ==>
          || v.members[i].key in RequiredFields(c)
          || (c.InstallApply? && v.members[i].key == Ascii("restart_from")))
    && (!c.InstalledVerify? ==> Get(v, Ascii("confirmation")) == Some(String(Ascii("APPLY"))))
  }

  // ----- identity of an invocation -----

  /** Where an identity field is read: the objects to descend through, then the member. */
  datatype Source = Source(path: seq<Bytes>, field: Bytes)

  function Fields(path: seq<Bytes>, names: seq<string>): (r: seq<Source>)
    ensures |r| == |names|
  {
    seq(|names|, i requires 0 <= i < |names| => Source(path, Ascii(names[i])))
  }

  function IdentitySources(c: Command): seq<Source> {
    var inspected := ["request_id", "install_id", "transaction_id", "operation", "plan_id", "plan_digest"];
    match c
    case InstallPlan => Fields([], ["request_id", "install_id"])
    case InstalledVerify => Fields([], ["request_id", "install_id", "report_id"])
    case RecoveryInspect => Fields([], inspected)
    case RecoveryPlan => Fields([Ascii("inspection")], inspected) + Fields([], ["recovery_plan_id"])
    case RecoveryApply =>
      Fields([Ascii("plan_request"), Ascii("inspection")], inspected) +
      Fields([], ["reviewed_plan_id", "reviewed_plan_digest", "selected_action"])
    case _ =>
      Fields([], ["reviewed_plan_id", "reviewed_plan_digest", "transaction_id"]) +
      Fields([Ascii("plan_request")], ["request_id", "install_id"])
  }

  function Descend(v: Value, path: seq<Bytes>): Option<Value>
    decreases path
  {
    if path == [] then Some(v)
    else
      match Get(v, path[0])
      case None => None
      case Some(inner) => Descend(inner, path[1..])
  }

  /** `identity_field`: a present, non-empty, bounded string. */
  function IdentityField(submitted: Value, source: Source): Attempt<Member> {
    match Descend(submitted, source.path + [source.field])
    case None => Threw(OtherFailure)
    case Some(v) =>
      if !v.String? then Threw(OtherFailure)
      else if v.s == [] || |v.s| > 1024 then Threw(InvalidArgument)
      else Returned(Member(source.field, v))
  }

  function IdentityFields(submitted: Value, sources: seq<Source>, i: nat): (r: Attempt<seq<Member>>)
    requires i <= |sources|
    ensures r.Returned? ==> |r.value| == |sources| - i
    ensures r.Returned? ==> forall k :: 0 <= k < |r.value| ==> IdentityField(submitted, sources[i + k]) == Returned(r.value[k])
    decreases |sources| - i
  {
    if i == |sources| then Returned([])
    else
      match IdentityField(submitted, sources[i])
      case Threw(e) => Threw(e)
      case Returned(m) =>
        match IdentityFields(submitted, sources, i + 1)
        case Threw(e) => Threw(e)
        case Returned(rest) => Returned([m] + rest)
  }

  /** The digest that ties a receipt to its request; a request is bounded far below 2^61 bytes. */
  function RequestDigest(submitted: Value): Bytes {
    if |Canonical(submitted)| < 0x2000_0000_0000_0000 then Sha256.HexDigest(Canonical(submitted)) else []
  }

  function IdentityHeader(name: Bytes, digest: Bytes): seq<Member> {
    [Member(Ascii("schema"), String(Ascii("usk.publisher_client_outcome.v1"))),
     Member(Ascii("command"), String(name)),
     Member(Ascii("request_sha256"), String(digest))]
  }

  /** `invocation_identity`. */
  function Identity(name: Bytes, c: Command, submitted: Value): Attempt<Value> {
    match IdentityFields(submitted, IdentitySources(c), 0)
    case Threw(e) => Threw(e)
    case Returned(fields) => Returned(Object(FromPairs(IdentityHeader(name, RequestDigest(submitted)) + fields)))
  }

  // ----- outcomes -----

  /** `outcome`: the four members in map order. */
  function Outcome(status: Bytes, code: Bytes, payload: Value): Value {
    Object([Member(Ascii("error"), Object([Member(Ascii("code"), String(code))])),
            Member(Ascii("payload"), payload),
            Member(Ascii("schema"), String(Ascii("usk.command_response.v1"))),
            Member(Ascii("status"), String(status))])
  }

  function UnknownDocument(identity: Value): Value {
    Outcome(Ascii("unknown"), Ascii("publisher_outcome_unknown"), identity)
  }

  predicate LowerHex(s: Bytes, n: nat) {
    |s| == n && forall i :: 0 <= i < n ==> 0x30 <= s[i] <= 0x39 || 0x61 <= s[i] <= 0x66
  }

  /** `publisher_operation_diagnostic` of an observation that carries this reference, if any. */
  function OperationDiagnostic(reference: Option<Bytes>, code: Bytes): Attempt<Value> {
    var prefix := Ascii("usk.operation-inspection.v1:");
    match reference
    case None => Returned(Null)
    case Some(r) =>
      if prefix <= r && LowerHex(r[|prefix|..], 64) then
        Returned(Object([Member(Ascii("error_code"), String(code)),
                         Member(Ascii("inspection_reference"), String(r)),
                         Member(Ascii("schema"), String(Ascii("usk.publisher_operation_diagnostic.v1")))]))
      else Threw(OtherFailure)
  }

  function ReasonCode(reason: Reason): Bytes {
    match reason
    case OperationCancelled => Ascii("operation_cancelled")
    case OperationConflict => Ascii("operation_conflict")
    case AdmissionRefused => Ascii("publisher_admission_refused")
  }

  // ----- what the receipts say -----

  lemma HeaderReads(name: Bytes, digest: Bytes, rest: seq<Member>)
    ensures Lookup(IdentityHeader(name, digest) + rest, Ascii("command")) == Some(String(name))
    ensures Lookup(IdentityHeader(name, digest) + rest, Ascii("request_sha256")) == Some(String(digest))
  {
    var h := IdentityHeader(name, digest);
    assert Ascii("schema")[0] != Ascii("command")[0] && Ascii("request_sha256")[0] != Ascii("schema")[0];
    assert Ascii("request_sha256")[0] != Ascii("command")[0];
    LookupSplit(h, rest, Ascii("command"));
    LookupSplit(h, rest, Ascii("request_sha256"));
    assert h[1..][0] == h[1];
    assert Lookup(h[1..][1..], Ascii("request_sha256")) == Some(String(digest)) by {
      assert h[1..][1..][0] == h[2];
    }
    assert HasKey(h, Ascii("request_sha256")) by {
      assert h[2].key == Ascii("request_sha256");
    }
  }

  /** The receipt of an invocation names its command and the digest of its request. */
  lemma IdentityNamesCall(name: Bytes, c: Command, submitted: Value)
    requires Identity(name, c, submitted).Returned?
    ensures var identity := Identity(name, c, submitted).value;
            && Get(identity, Ascii("command")) == Some(String(name))
            && Get(identity, Ascii("request_sha256")) == Some(String(RequestDigest(submitted)))
  {
    var fields := IdentityFields(submitted, IdentitySources(c), 0).value;
    var pairs := IdentityHeader(name, RequestDigest(submitted)) + fields;
    HeaderReads(name, RequestDigest(submitted), fields);
    LookupPairs(pairs, Ascii("command"));
    LookupPairs(pairs, Ascii("request_sha256"));
  }

  /** An object's text opens with its first key. */
  lemma FirstKeyByte(members: seq<Member>)
    requires members != [] && members[0].key != [] && 0x5C < members[0].key[0]
    ensures |Canonical(Object(members))| > 2 && Canonical(Object(members))[2] == members[0].key[0]
  {
    var key := members[0].key;
    var escaped := EscapedFrom(key, 0);
    assert EscapedByte(key[0]) == [key[0]];
    assert |escaped| > 0 && escaped[0] == key[0];
    assert |Quoted(key)| > 1 && Quoted(key)[1] == key[0];
    var text := MemberText(members[0]);
    assert |text| > 1 && text[1] == key[0];
    var all := MembersFrom(members, 0);
    assert Separator(0) == [] && |all| > 1 && all[1] == key[0];
  }

  /** The bytes of an unknown document determine the receipt inside it. */
  lemma UnknownInjective(a: Value, b: Value)
    requires Canonical(UnknownDocument(a)) == Canonical(UnknownDocument(b))
    ensures a == b
  {
    CanonicalInjective(UnknownDocument(a), UnknownDocument(b));
    assert UnknownDocument(a).members[1].value == a;
    assert UnknownDocument(b).members[1].value == b;
  }
}
