/**
  * The publisher client context: one request at a time over a transport that may lose the reply.
  * Callbacks, decoders of other modules and allocation are an arbitrary world.
  */
module PublisherClient {
  import opened Bytes
  import opened Wrappers
  import opened Json
  import opened JsonParser
  import opened JsonParserObject
  import opened JsonObject
  import opened JsonTheorems
  import opened JsonDigest
  import opened PublisherDocuments
  import opened PublisherResponse
  import opened PublisherAnswers
  import opened PublisherReports

  class PublisherClientContext {
    var output: Bytes
    var unknown: Bytes

    constructor ()
      ensures output == [] && unknown == []
    {
      output := [];
      unknown := [];
    }

    method Clear()
      modifies this
      ensures output == [] && unknown == []
    {
      output := [];
      unknown := [];
    }

    /** The identity receipt, its digest computed by the streaming hash. */
    method MakeIdentity(name: Bytes, c: Command, submitted: Value, request: Bytes) returns (r: Attempt<Value>)
      requires |request| <= REQUEST_LIMIT
      requires Parse(request, REQUEST_LIMITS).Ok? && Parse(request, REQUEST_LIMITS).value == submitted
      ensures r == Identity(name, c, submitted)
    {
      Normalises(request, REQUEST_LIMITS);
      var digest := Sha256Canonical(submitted);
      var fields := IdentityFields(submitted, IdentitySources(c), 0);
      if fields.Threw? {
        return Threw(fields.exception);
      }
      return Returned(Object(FromPairs(IdentityHeader(name, digest) + fields.value)));
    }

    /** Decoding the request: everything that needs no receipt. */
    method TryDecode(name: Option<Bytes>, request: Option<Bytes>, world: World) returns (r: Attempt<(Command, Value)>)
      ensures r.Returned? <==>
              && name.Some? && CommandOf(name.value).Some?
              && request.Some? && 0 < |request.value| <= REQUEST_LIMIT
              && world.available(AtRequest) && Parse(request.value, REQUEST_LIMITS).Ok?
              && Decode(CommandOf(name.value).value, Parse(request.value, REQUEST_LIMITS).value, world).Returned?
      ensures r.Returned? ==> r.value == (CommandOf(name.value).value, Parse(request.value, REQUEST_LIMITS).value)
    {
      if name.None? || request.None? || request.value == [] || |request.value| > REQUEST_LIMIT {
        return Threw(InvalidArgument);
      }
      var command := CommandOf(name.value);
      if command.None? {
        return Threw(InvalidArgument);
      }
      if !world.available(AtRequest) {
        return Threw(OtherFailure);
      }
      var parsed := ParseText(request.value, REQUEST_LIMITS);
      if parsed.Failure? {
        return Threw(OtherFailure);
      }
      var decoded := Decode(command.value, parsed.value, world);
      if decoded.Threw? {
        return Threw(decoded.exception);
      }
      return Returned((command.value, parsed.value));
    }

    /** The receipt and the fallback bytes, owned before any callback runs. */
    method TryBind(name: Bytes, c: Command, submitted: Value, request: Bytes, world: World) returns (r: Attempt<Value>)
      requires |request| <= REQUEST_LIMIT
      requires Parse(request, REQUEST_LIMITS).Ok? && Parse(request, REQUEST_LIMITS).value == submitted
      requires unknown == []
      modifies this`unknown
      ensures r.Returned? <==>
              && world.available(AtIdentity) && Identity(name, c, submitted).Returned?
              && |Canonical(UnknownDocument(Identity(name, c, submitted).value))| <= FALLBACK_LIMIT
      ensures r.Returned? ==> Identity(name, c, submitted) == r && unknown == Canonical(UnknownDocument(r.value))
    {
      if !world.available(AtIdentity) {
        return Threw(OtherFailure);
      }
      r := MakeIdentity(name, c, submitted, request);
      if r.Threw? {
        return;
      }
      var fallback := Canonical(UnknownDocument(r.value));
      if |fallback| > FALLBACK_LIMIT {
        return Threw(InvalidArgument);
      }
      unknown := fallback;
    }

    /** The preparation callback: the wire request. */
    method TryWire(name: Bytes, c: Command, submitted: Value, world: World) returns (r: Attempt<Value>)
      ensures r.Returned? <==>
              && world.transport.Some? && world.prepare.Some?
              && (world.prepare.value)(name, submitted).Returned?
              && (Preserving(c) ==> (world.prepare.value)(name, submitted).value == submitted)
              && world.available(AtWire)
              && |Canonical((world.prepare.value)(name, submitted).value)| <= REQUEST_LIMIT
      ensures r.Returned? ==> (world.prepare.value)(name, submitted) == r
    {
      if world.prepare.None? || world.transport.None? {
        return Threw(InvalidArgument);
      }
      r := (world.prepare.value)(name, submitted);
      if r.Threw? {
        return;
      }
      EqualIsIdentity(r.value, submitted);
      if Preserving(c) && !EqualValues(r.value, submitted) {
        return Threw(OtherFailure);
      }
      if !world.available(AtWire) {
        return Threw(OtherFailure);
      }
      if |Canonical(r.value)| > REQUEST_LIMIT {
        return Threw(InvalidArgument);
      }
    }

    /** Everything before the request may leave. */
    method TryPrepare(name: Option<Bytes>, request: Option<Bytes>, world: World)
      returns (r: Attempt<Prepared>, invocation: Value)
      requires unknown == []
      modifies this`unknown
      ensures r.Returned? ==>
              && Belongs(r.value, name, request, world)
              && invocation == r.value.identity && unknown == Canonical(UnknownDocument(invocation))
      ensures r.Threw? ==> forall p: Prepared :: !Belongs(p, name, request, world)
    {
      invocation := Null;
      var decoded := TryDecode(name, request, world);
      if decoded.Threw? {
        return Threw(decoded.exception), invocation;
      }
      var (command, submitted) := decoded.value;
      var identity := TryBind(name.value, command, submitted, request.value, world);
      if identity.Threw? {
        return Threw(identity.exception), invocation;
      }
      invocation := identity.value;
      var wire := TryWire(name.value, command, submitted, world);
      if wire.Threw? {
        return Threw(wire.exception), invocation;
      }
      r := Returned(Prepared(name.value, command, submitted, invocation, wire.value));
    }

    /** The transport and everything after it. */
    method TryDispatch(p: Prepared, world: World) returns (r: Attempt<ClientResult>, ghost s: Sent)
      requires world.transport.Some?
      modifies this`output
      ensures s == Sent(p, (world.transport.value)(Canonical(p.wire)))
      ensures r.Returned? ==> r.value == Answer(s, world) && Owned(output) == r.value.json
      ensures r.Threw? && r.exception.NotDispatched? ==> s.reply == Threw(r.exception)
      ensures r.Threw? && !r.exception.NotDispatched? ==> Answer(s, world) == Unknown(p.identity)
    {
      var received := (world.transport.value)(Canonical(p.wire));
      s := Sent(p, received);
      if received.Threw? {
        return Threw(received.exception), s;
      }
      var validated := ValidateResponse(p.name, p.wire, received.value, false, world.completion);
      if validated.Rejected? {
        return Threw(if validated.isArgument then InvalidArgument else OtherFailure), s;
      }
      if !world.available(AtResult) {
        return Threw(OtherFailure), s;
      }
      var result := Presented(validated, p.identity);
      output := result.json.bytes;
      return Returned(result), s;
    }

    /** The catch clauses. */
    method Recover(e: Exception, possibleDispatch: bool, invocation: Value, world: World) returns (r: ClientResult)
      modifies this`output
      ensures e.NotDispatched? ==> r == RefusedBeforeDispatch(e, invocation, world)
      ensures !possibleDispatch ==> SaysNotSent(r)
      ensures !e.NotDispatched? && possibleDispatch && unknown != [] ==> r == ClientResult(ErrorStatus, Owned(unknown))
      ensures e.InvalidArgument? && (!possibleDispatch || unknown == []) ==>
              r == ClientResult(InvalidArgumentStatus, InvalidRequest)
      ensures e.OtherFailure? && (!possibleDispatch || unknown == []) ==> r == ClientResult(ErrorStatus, PreparationFailed)
    {
      match e
      case NotDispatched(_, _) =>
        r := RefusedBeforeDispatch(e, invocation, world);
        if r.json.Owned? {
          output := r.json.bytes;
        }
      case InvalidArgument =>
        if possibleDispatch && unknown != [] {
          return ClientResult(ErrorStatus, Owned(unknown));
        }
        return ClientResult(InvalidArgumentStatus, InvalidRequest);
      case OtherFailure =>
        if possibleDispatch && unknown != [] {
          return ClientResult(ErrorStatus, Owned(unknown));
        }
        return ClientResult(ErrorStatus, PreparationFailed);
    }

    /** From the moment the request may have left. */
    method Deliver(p: Prepared, world: World) returns (r: ClientResult, ghost s: Sent)
      requires world.transport.Some? && unknown == Canonical(UnknownDocument(p.identity))
      modifies this`output
      ensures s == Sent(p, (world.transport.value)(Canonical(p.wire))) && r == Answer(s, world)
    {
      var done;
      done, s := TryDispatch(p, world);
      if done.Returned? {
        r := done.value;
        return;
      }
      NeverEmpty(UnknownDocument(p.identity));
      r := Recover(done.exception, true, p.identity, world);
    }

    /**
      * One call, whatever earlier calls left in the context: the request is handed over exactly
      * when this call's own arguments prepare it, and then the answer is the table's and tells the
      * caller what the reply says.
      */
    method Execute(name: Option<Bytes>, request: Option<Bytes>, world: World)
      returns (r: ClientResult, ghost sent: Option<Sent>)
      modifies this
      ensures sent.Some? ==>
              && Belongs(sent.value.call, name, request, world)
              && sent.value.reply == (world.transport.value)(Canonical(sent.value.call.wire))
              && r == Answer(sent.value, world) && Told(r, sent.value, world)
      ensures sent.None? ==> SaysNotSent(r) && forall p: Prepared :: !Belongs(p, name, request, world)
    {
      Clear();
      var prepared, invocation := TryPrepare(name, request, world);
      if prepared.Threw? {
        sent := None;
        r := Recover(prepared.exception, false, invocation, world);
        return;
      }
      ghost var s;
      r, s := Deliver(prepared.value, world);
      AnswerTold(s, world);
      sent := Some(s);
    }
  }

  lemma NeverEmpty(v: Value)
    requires v.Object?
    ensures Canonical(v) != [] && Canonical(v)[0] == 0x7B
  {
  }
}
