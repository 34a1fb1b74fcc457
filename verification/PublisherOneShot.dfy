/**
  * The one-shot publisher adapter from the point where its request is decoded: the answer for a
  * lost reply is prepared first, then the transport runs.
  */
module PublisherOneShot {
  import opened Bytes
  import opened Wrappers
  import opened Json
  import opened JsonObject
  import opened JsonParser
  import opened JsonParserObject
  import opened JsonTheorems
  import opened PublisherDocuments
  import opened PublisherResponse
  import opened PublisherAnswers

  datatype OneShotResult = OneShotResult(document: Bytes, diagnostic: Bytes, exitCode: int)

  const MAX_RESPONSE_BYTES := 0x100_0000

  /** `safe_id`. */
  predicate SafeId(id: Bytes) {
    && 0 < |id| <= 128
    && forall i :: 0 <= i < |id| ==> SafeByte(id[i])
  }

  predicate SafeByte(b: byte) {
    0x41 <= b <= 0x5A || 0x61 <= b <= 0x7A || 0x30 <= b <= 0x39 || b == 0x2E || b == 0x5F || b == 0x2D
  }

  /** The response envelope, members in map order. */
  function Envelope(id: Bytes, status: Bytes, result: Value, code: Option<Bytes>): Value {
    var error := if code.None? then Null else Object([Member(Ascii("code"), String(code.value))]);
    Object([Member(Ascii("error"), error), Member(Ascii("request_id"), String(id)), Member(Ascii("result"), result),
            Member(Ascii("schema"), String(Ascii("usk.oneshot_response.v1"))), Member(Ascii("status"), String(status))])
  }

  function Failure(id: Bytes, code: Bytes): OneShotResult {
    OneShotResult(Canonical(Envelope(id, Ascii("refused"), Null, Some(code))), Ascii("request refused"), 2)
  }

  function BareUnknown(id: Bytes): Value {
    Envelope(id, Ascii("unknown"), Null, Some(Ascii("publisher_outcome_unknown")))
  }

  /** The outcome, or the bare unknown document in place of one that is too large. */
  function Candidate(id: Bytes, status: Bytes, result: Value, code: Option<Bytes>, exitCode: int): OneShotResult {
    var document := Canonical(Envelope(id, status, result, code));
    if |document| <= MAX_RESPONSE_BYTES then OneShotResult(document, [], exitCode)
    else OneShotResult(Canonical(BareUnknown(id)), [], 5)
  }

  // ----- the replacement always fits -----

  lemma {:induction false} EscapedLength(s: Bytes, i: nat)
    requires i <= |s|
    ensures |EscapedFrom(s, i)| <= 6 * (|s| - i) + 1
    decreases |s| - i
  {
    if i < |s| {
      EscapedLength(s, i + 1);
    }
  }

  lemma MemberLength(m: Member)
    ensures |MemberText(m)| <= 6 * |m.key| + 3 + |Canonical(m.value)|
  {
    EscapedLength(m.key, 0);
  }

  lemma StringLength(s: Bytes)
    ensures |Canonical(String(s))| <= 6 * |s| + 2
  {
    EscapedLength(s, 0);
  }

  lemma NextMember(members: seq<Member>, i: nat)
    requires i < |members|
    ensures |MembersFrom(members, i)| <= |MemberText(members[i])| + 1 + |MembersFrom(members, i + 1)|
  {
  }

  lemma {:induction false} MembersLength(members: seq<Member>, i: nat)
    requires i <= |members| && forall k :: 0 <= k < |members| ==> |MemberText(members[k])| <= 0xFFFF
    ensures |MembersFrom(members, i)| <= 0x1_0000 * (|members| - i) + 1
    decreases |members| - i
  {
    if i < |members| {
      NextMember(members, i);
      MembersLength(members, i + 1);
    }
  }

  lemma ErrorLength(code: Option<Bytes>)
    requires code.Some? ==> |code.value| <= 64
    ensures |Canonical(Envelope([], [], Null, code).members[0].value)| <= 0x1000
  {
    if code.Some? {
      var error := [Member(Ascii("code"), String(code.value))];
      StringLength(code.value);
      MemberLength(error[0]);
      MembersLength(error, 0);
      assert MembersFrom(error, 1) == [CLOSE_BRACE];
      assert |MembersFrom(error, 0)| == |MemberText(error[0])| + 1;
    }
  }

  predicate Small(m: Member) {
    |m.key| <= 64 && |Canonical(m.value)| <= 0x8000
  }

  lemma SmallText(key: Bytes, s: Bytes)
    requires |key| <= 64 && |s| <= 128
    ensures Small(Member(key, String(s)))
  {
    StringLength(s);
  }

  /** Everything but the result is small. */
  lemma EnvelopeFits(id: Bytes, status: Bytes, result: Value, code: Option<Bytes>)
    requires SafeId(id) && |status| <= 64 && (code.Some? ==> |code.value| <= 64) && |Canonical(result)| <= 0x8000
    ensures |Canonical(Envelope(id, status, result, code))| <= MAX_RESPONSE_BYTES
  {
    ErrorLength(code);
    SmallText(Ascii("request_id"), id);
    SmallText(Ascii("schema"), Ascii("usk.oneshot_response.v1"));
    SmallText(Ascii("status"), status);
    FiveFit(Envelope(id, status, result, code).members);
  }

  lemma FiveFit(members: seq<Member>)
    requires |members| == 5
    requires Small(members[0]) && Small(members[1]) && Small(members[2]) && Small(members[3]) && Small(members[4])
    ensures |Canonical(Object(members))| <= 5 * 0x1_0000 + 2
  {
    forall k | 0 <= k < |members|
      ensures |MemberText(members[k])| <= 0xFFFF
    {
      MemberLength(members[k]);
    }
    MembersLength(members, 0);
  }

  lemma BareUnknownFits(id: Bytes)
    requires SafeId(id)
    ensures |Canonical(BareUnknown(id))| <= MAX_RESPONSE_BYTES
  {
    EnvelopeFits(id, Ascii("unknown"), Null, Some(Ascii("publisher_outcome_unknown")));
  }

  /** The recursion of the source ends: its second document is never too large. */
  method CandidateOutcome(id: Bytes, status: Bytes, result: Value, code: Option<Bytes>, exitCode: int) returns (r: OneShotResult)
    requires SafeId(id)
    ensures r == Candidate(id, status, result, code, exitCode)
    decreases |Canonical(Envelope(id, status, result, code))|
  {
    var document := Canonical(Envelope(id, status, result, code));
    if |document| > MAX_RESPONSE_BYTES {
      BareUnknownFits(id);
      r := CandidateOutcome(id, Ascii("unknown"), Null, Some(Ascii("publisher_outcome_unknown")), 5);
      return;
    }
    return OneShotResult(document, [], exitCode);
  }

  // ----- dispatch -----

  function StatusText(d: Disposition): Bytes {
    match d
    case Completed => Ascii("ok")
    case Refused => Ascii("refused")
    case RecoveryRequired => Ascii("recovery_required")
  }

  function ExitCode(d: Disposition): int {
    match d
    case Completed => 0
    case Refused => 4
    case RecoveryRequired => 5
  }

  /** The table of answers to an effect command once the transport was called. */
  ghost function OneShotAnswer(id: Bytes, name: Bytes, submitted: Value, reply: Attempt<Bytes>, retain: bool,
                               unknown: OneShotResult, world: World): OneShotResult
  {
    match reply
    case Returned(bytes) =>
      var v := Validated(name, submitted, bytes, retain, world.completion);
      if v.Rejected? || !world.available(AtResult) then unknown
      else Candidate(id, StatusText(v.disposition), v.result, if v.disposition.Completed? then None else Some(v.code),
                     ExitCode(v.disposition))
    case Threw(e) => if e.NotDispatched? then UndispatchedAnswer(id, e, unknown, world) else unknown
  }

  /** The transport's own proof that nothing was sent. */
  function UndispatchedAnswer(id: Bytes, e: Exception, unknown: OneShotResult, world: World): OneShotResult
    requires e.NotDispatched?
  {
    if e.reason.AdmissionRefused? then Failure(id, ReasonCode(e.reason))
    else
      var diagnostic := OperationDiagnostic(if e.reference == [] then None else Some(e.reference), ReasonCode(e.reason));
      if diagnostic.Threw? || !world.available(AtRefusal) then unknown
      else Candidate(id, Ascii("refused"), diagnostic.value, Some(ReasonCode(e.reason)), 4)
  }

  /** What a lost reply is answered with; a public recovery names its own invocation. */
  function UnknownResult(name: Bytes, submitted: Value, recovery: Option<Command>): Attempt<Value> {
    if recovery.None? then Returned(Null)
    else
      match Identity(name, recovery.value, submitted)
      case Threw(e) => Threw(e)
      case Returned(identity) => Returned(UnknownDocument(identity))
  }

  /** Only an accepted reply can give exit code 0 or 4; an ordinary failure, exit code 2, cannot occur. */
  ghost predicate Uncertain(name: Bytes, submitted: Value, reply: Attempt<Bytes>, retain: bool, r: OneShotResult, world: World) {
    || r.exitCode == 5
    || (&& reply.Returned? && Validated(name, submitted, reply.value, retain, world.completion).Accepted?
        && r.exitCode == ExitCode(Validated(name, submitted, reply.value, retain, world.completion).disposition))
  }

  /** What the transport does with the request. */
  function Received(submitted: Value, world: World): Attempt<Bytes>
    requires world.transport.Some?
  {
    (world.transport.value)(Canonical(submitted))
  }

  lemma AnswerIsUncertain(id: Bytes, name: Bytes, submitted: Value, reply: Attempt<Bytes>, retain: bool, unknown: OneShotResult,
                          world: World)
    requires unknown.exitCode == 5 && !(reply.Threw? && reply.exception.NotDispatched?)
    ensures Uncertain(name, submitted, reply, retain, OneShotAnswer(id, name, submitted, reply, retain, unknown, world), world)
  {
  }

  /** A command that may have effects. */
  method Effect(id: Bytes, name: Bytes, submitted: Value, retain: bool, unknown: OneShotResult, world: World)
    returns (r: OneShotResult)
    requires SafeId(id) && world.transport.Some? && unknown.exitCode == 5
    ensures r == OneShotAnswer(id, name, submitted, Received(submitted, world), retain, unknown, world)
    ensures var reply := Received(submitted, world);
            !(reply.Threw? && reply.exception.NotDispatched?) ==> Uncertain(name, submitted, reply, retain, r, world)
  {
    var received := Received(submitted, world);
    if !(received.Threw? && received.exception.NotDispatched?) {
      AnswerIsUncertain(id, name, submitted, received, retain, unknown, world);
    }
    r := unknown;
    match received {
    case Returned(bytes) =>
      var v := ValidateResponse(name, submitted, bytes, retain, world.completion);
      if v.Accepted? && world.available(AtResult) {
        r := CandidateOutcome(id, StatusText(v.disposition), v.result,
          if v.disposition.Completed? then None else Some(v.code), ExitCode(v.disposition));
      }
    case Threw(e) =>
      if e.NotDispatched? {
        r := Undispatched(id, e, unknown, world);
      }
    }
  }

  method Undispatched(id: Bytes, e: Exception, unknown: OneShotResult, world: World) returns (r: OneShotResult)
    requires SafeId(id) && e.NotDispatched?
    ensures r == UndispatchedAnswer(id, e, unknown, world)
  {
    if e.reason.AdmissionRefused? {
      return Failure(id, ReasonCode(e.reason));
    }
    var diagnostic := OperationDiagnostic(if e.reference == [] then None else Some(e.reference), ReasonCode(e.reason));
    if diagnostic.Threw? || !world.available(AtRefusal) {
      return unknown;
    }
    r := CandidateOutcome(id, Ascii("refused"), diagnostic.value, Some(ReasonCode(e.reason)), 4);
  }

  // ----- capability commands -----

  const CAPABILITY_LIMITS := ParseLimits(16384, 64, 100000, 4096)

  /** The checks of a capability observation against its request. */
  type Capability = (Bytes, Value, Value) -> bool

  /** What the capability commands accept as an observation. */
  ghost predicate Observed(id: Bytes, submitted: Value, reply: Attempt<Bytes>, capability: Capability) {
    && reply.Returned? && Parse(reply.value, CAPABILITY_LIMITS).Ok?
    && capability(id, submitted, Parse(reply.value, CAPABILITY_LIMITS).value)
  }

  method ReadCapability(id: Bytes, submitted: Value, capability: Capability, world: World)
    returns (observation: Option<Value>)
    requires world.transport.Some?
    ensures observation.Some? <==> Observed(id, submitted, Received(submitted, world), capability)
    ensures observation.Some? ==>
            && observation.value == Parse(Received(submitted, world).value, CAPABILITY_LIMITS).value
            && |Canonical(observation.value)| <= 16384
  {
    var received := Received(submitted, world);
    if received.Threw? {
      return None;
    }
    var parsed := ParseText(received.value, CAPABILITY_LIMITS);
    if parsed.Failure? || !capability(id, submitted, parsed.value) {
      return None;
    }
    Normalises(received.value, CAPABILITY_LIMITS);
    return Some(parsed.value);
  }

  /** An unavailable observation is a refusal, never an unknown outcome: no effects were asked for. */
  method Inspect(id: Bytes, submitted: Value, capability: Capability, world: World)
    returns (r: OneShotResult)
    requires SafeId(id) && world.transport.Some?
    ensures r.exitCode == 0 || r == Failure(id, Ascii("publisher_capability_unavailable"))
    ensures r.exitCode == 0 <==> Observed(id, submitted, Received(submitted, world), capability)
    ensures r.exitCode == 0 ==>
            r.document == Canonical(Envelope(id, Ascii("ok"), Parse(Received(submitted, world).value, CAPABILITY_LIMITS).value, None))
  {
    var observation := ReadCapability(id, submitted, capability, world);
    if observation.None? {
      return Failure(id, Ascii("publisher_capability_unavailable"));
    }
    EnvelopeFits(id, Ascii("ok"), observation.value, None);
    r := CandidateOutcome(id, Ascii("ok"), observation.value, None, 0);
  }

  lemma {:induction false} MemberWithin(members: seq<Member>, key: Bytes, i: nat)
    requires i <= |members| && Lookup(members[i..], key).Some?
    ensures |Canonical(Lookup(members[i..], key).value)| <= |MembersFrom(members, i)|
    decreases |members| - i
  {
    var rest := members[i..];
    assert rest != [] && rest[0] == members[i];
    if rest[0].key != key {
      assert rest[1..] == members[i + 1..];
      MemberWithin(members, key, i + 1);
    }
  }

  /** The part of an observation that is published. */
  function Published(observation: Value, retain: bool): Option<Value> {
    if retain then Some(observation) else Get(observation, Ascii("capability_observation"))
  }

  lemma PublishedFits(id: Bytes, observation: Value, retain: bool)
    requires SafeId(id) && |Canonical(observation)| <= 16384 && Published(observation, retain).Some?
    ensures |Canonical(Envelope(id, Ascii("ok"), Published(observation, retain).value, None))| <= MAX_RESPONSE_BYTES
  {
    if !retain {
      var members := observation.members;
      assert members[0..] == members;
      MemberWithin(members, Ascii("capability_observation"), 0);
    }
    EnvelopeFits(id, Ascii("ok"), Published(observation, retain).value, None);
  }

  /** Observation may start the service: once called, no answer says that nothing was sent. */
  method Observe(id: Bytes, submitted: Value, retain: bool, unknown: OneShotResult, capability: Capability, world: World)
    returns (r: OneShotResult)
    requires SafeId(id) && world.transport.Some? && unknown.exitCode == 5
    ensures r.exitCode == 0 || r == unknown
    ensures var reply := Received(submitted, world);
            r.exitCode == 0 <==>
            && Observed(id, submitted, reply, capability)
            && Published(Parse(reply.value, CAPABILITY_LIMITS).value, retain).Some?
    ensures r.exitCode == 0 ==>
            var observation := Parse(Received(submitted, world).value, CAPABILITY_LIMITS).value;
            r.document == Canonical(Envelope(id, Ascii("ok"), Published(observation, retain).value, None))
  {
    var observation := ReadCapability(id, submitted, capability, world);
    if observation.None? {
      return unknown;
    }
    var result := Published(observation.value, retain);
    if result.None? {
      return unknown;
    }
    PublishedFits(id, observation.value, retain);
    r := CandidateOutcome(id, Ascii("ok"), result.value, None, 0);
  }

  // ----- the adapter -----

  predicate IsInspect(name: Bytes) {
    name == Ascii("publisher.inspect")
  }

  predicate IsObserve(name: Bytes) {
    name == Ascii("publisher.observe")
  }

  function UnknownCode(name: Bytes): Bytes {
    if IsObserve(name) then Ascii("publisher_observation_unknown") else Ascii("publisher_outcome_unknown")
  }

  /** What each family of commands may answer once the transport was called. */
  ghost predicate Answers(id: Bytes, name: Bytes, submitted: Value, retain: bool, capability: Capability, world: World,
                          unknown: OneShotResult, reply: Attempt<Bytes>, r: OneShotResult)
  {
    if IsInspect(name) then
      && (r.exitCode == 0 <==> Observed(id, submitted, reply, capability))
      && (r.exitCode != 0 ==> r == Failure(id, Ascii("publisher_capability_unavailable")))
    else if IsObserve(name) then
      && (r.exitCode == 0 ==> Observed(id, submitted, reply, capability))
      && (r.exitCode != 0 ==> r == unknown)
    else
      && r == OneShotAnswer(id, name, submitted, reply, retain, unknown, world)
      && (!(reply.Threw? && reply.exception.NotDispatched?) ==> Uncertain(name, submitted, reply, retain, r, world))
  }

  /** An exception here leaves the adapter before the transport was called. */
  method Dispatch(id: Bytes, name: Bytes, submitted: Value, recovery: Option<Command>, retain: bool,
                  capability: Capability, world: World)
    returns (r: Attempt<OneShotResult>, ghost reply: Option<Attempt<Bytes>>)
    requires SafeId(id)
    ensures r.Threw? <==> UnknownResult(name, submitted, recovery).Threw?
    ensures reply.None? <==> r.Threw? || world.transport.None?
    ensures reply.None? && r.Returned? ==> r.value == Failure(id, Ascii("transport_unavailable"))
    ensures reply.Some? ==>
            && reply.value == Received(submitted, world)
            && Answers(id, name, submitted, retain, capability, world,
                       Candidate(id, Ascii("unknown"), UnknownResult(name, submitted, recovery).value, Some(UnknownCode(name)), 5),
                       reply.value, r.value)
  {
    reply := None;
    var lost := UnknownResult(name, submitted, recovery);
    if lost.Threw? {
      return Threw(lost.exception), None;
    }
    var unknown := CandidateOutcome(id, Ascii("unknown"), lost.value, Some(UnknownCode(name)), 5);
    if world.transport.None? {
      return Returned(Failure(id, Ascii("transport_unavailable"))), None;
    }
    reply := Some(Received(submitted, world));
    var answer;
    if IsInspect(name) {
      answer := Inspect(id, submitted, capability, world);
    } else if IsObserve(name) {
      answer := Observe(id, submitted, retain, unknown, capability, world);
    } else {
      answer := Effect(id, name, submitted, retain, unknown, world);
    }
    r := Returned(answer);
  }
}
