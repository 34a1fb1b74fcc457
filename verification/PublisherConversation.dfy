/** A whole exchange: one service run, the delivery of its replies, one client call. */
module PublisherConversation {
  import opened Bytes
  import opened Wrappers
  import opened Json
  import opened JsonParser
  import opened JsonObject
  import opened PublisherDocuments
  import opened PublisherResponse
  import opened PublisherAnswers
  import opened PublisherClient
  import Service = PublisherService

  function StatusName(status: Service.Status): string {
    match status
    case Pass => "pass"
    case Failed => "failed"
    case RecoveryRequired => "recovery_required"
  }

  /** Whoever can read this document reads the status of the reply. */
  ghost predicate Spells(document: Bytes, reply: Service.Reply) {
    Parse(document, RESPONSE_LIMITS).Ok? ==>
      IsText(TextAt(Parse(document, RESPONSE_LIMITS).value, ["status"]), StatusName(reply.status))
  }

  /** What a transport may do with a service's replies: hand one of them over, or lose them. */
  ghost predicate Conveys(received: Attempt<Bytes>, replies: seq<Service.Reply>) {
    match received
    case Threw(e) => !e.NotDispatched?
    case Returned(document) => exists i :: 0 <= i < |replies| && Spells(document, replies[i])
  }

  /** Only a reply of status failed makes the client answer that the request was refused. */
  lemma RefusedSaysFailed(s: Sent, world: World, reply: Service.Reply)
    requires s.reply.Returned? && Spells(s.reply.value, reply)
    requires Says(Answer(s, world), Ascii("refused"))
    ensures reply.status == Service.Failed
  {
    var r := Answer(s, world);
    var v := Validated(s.call.name, s.call.wire, s.reply.value, false, world.completion);
    AnswerSays(s, world);
    StatusWordsDiffer();
    if !v.Accepted? || !world.available(AtResult) {
      SaysOnce(r, Ascii("refused"), Ascii("unknown"));
      assert false;
    } else if v.disposition.RecoveryRequired? {
      SaysOnce(r, Ascii("refused"), Ascii("recovery_required"));
      assert false;
    }
    var observed := Parse(s.reply.value, RESPONSE_LIMITS).value;
    RefusedExact(s.call.name, s.call.wire, observed, false, world.completion);
    StatusesDiffer();
  }

  lemma StatusWordsDiffer()
    ensures Ascii("refused") != Ascii("unknown") && Ascii("refused") != Ascii("recovery_required")
  {
    assert Ascii("refused")[0] != Ascii("unknown")[0];
    assert |Ascii("refused")| != |Ascii("recovery_required")|;
  }

  /** The status of an answer that is no completion. */
  lemma AnswerSays(s: Sent, world: World)
    requires s.reply.Returned?
    ensures var v := Validated(s.call.name, s.call.wire, s.reply.value, false, world.completion);
            if !v.Accepted? || !world.available(AtResult) then Says(Answer(s, world), Ascii("unknown"))
            else if v.disposition.Completed? then Answer(s, world).status == OkStatus
            else Says(Answer(s, world), if v.disposition.Refused? then Ascii("refused") else Ascii("recovery_required"))
  {
    var v := Validated(s.call.name, s.call.wire, s.reply.value, false, world.completion);
    if !v.Accepted? || !world.available(AtResult) {
      assert Unknown(s.call.identity) ==
             ClientResult(ErrorStatus, Owned(Canonical(Outcome(Ascii("unknown"), Ascii("publisher_outcome_unknown"), s.call.identity))));
    }
  }

  /** A reply that requires recovery is passed on as that, or as unknown. */
  lemma RecoveryIsPassedOn(s: Sent, world: World, reply: Service.Reply)
    requires s.reply.Returned? && Spells(s.reply.value, reply) && reply.status == Service.RecoveryRequired
    ensures Says(Answer(s, world), Ascii("recovery_required")) || Answer(s, world) == Unknown(s.call.identity)
  {
    AnswerSays(s, world);
    if Validated(s.call.name, s.call.wire, s.reply.value, false, world.completion).Accepted? {
      var observed := Parse(s.reply.value, RESPONSE_LIMITS).value;
      RecoveryIsKept(s.call.name, s.call.wire, observed, false, world.completion);
    }
  }

  lemma UnknownIsNotRefused(identity: Value)
    ensures !Says(Unknown(identity), Ascii("refused"))
  {
    if Says(Unknown(identity), Ascii("refused")) {
      assert Unknown(identity) ==
             ClientResult(ErrorStatus, Owned(Canonical(Outcome(Ascii("unknown"), Ascii("publisher_outcome_unknown"), identity))));
      SaysOnce(Unknown(identity), Ascii("refused"), Ascii("unknown"));
      StatusWordsDiffer();
    }
  }

  /** What the client hears of an unresolved run, if the service never calls such a run failed. */
  lemma HeardOfRun(s: Sent, world: World, replies: seq<Service.Reply>, unresolved: bool)
    requires Conveys(s.reply, replies)
    requires unresolved ==> forall i :: 0 <= i < |replies| ==> replies[i].status == Service.RecoveryRequired
    ensures Says(Answer(s, world), Ascii("refused")) ==> !unresolved
    ensures unresolved ==> Says(Answer(s, world), Ascii("recovery_required")) || Answer(s, world) == Unknown(s.call.identity)
  {
    if s.reply.Threw? {
      UnknownIsNotRefused(s.call.identity);
    } else {
      var i :| 0 <= i < |replies| && Spells(s.reply.value, replies[i]);
      if Says(Answer(s, world), Ascii("refused")) {
        RefusedSaysFailed(s, world, replies[i]);
      }
      if unresolved {
        RecoveryIsPassedOn(s, world, replies[i]);
      }
    }
  }

  /** One client call whose transport does one fixed thing. */
  method Ask(context: PublisherClientContext, name: Option<Bytes>, request: Option<Bytes>, world: World, received: Attempt<Bytes>)
    returns (r: ClientResult, ghost sent: Option<Sent>, ghost here: World)
    modifies context
    ensures sent.Some? ==> sent.value.reply == received && r == Answer(sent.value, here)
  {
    here := world.(transport := Some((wire: Bytes) => received));
    r, sent := context.Execute(name, request, world.(transport := Some((wire: Bytes) => received)));
  }

  /**
    * Every exchange outside verify-only mode: if the client is told that its request was refused,
    * the service left no worker and no volume unresolved, and an unresolved run is answered as
    * unknown or as requiring recovery, never as completed.
    */
  method Converse(run: Service.PublisherServiceRun, context: PublisherClientContext, env: Service.Environment,
                  mode: Service.Mode, name: Option<Bytes>, request: Option<Bytes>, world: World,
                  convey: seq<Service.Reply> -> Attempt<Bytes>)
    returns (r: ClientResult, ghost sent: Option<Sent>)
    requires run.Fresh() && forall replies :: replies != [] ==> Conveys(convey(replies), replies)
    modifies run, context
    ensures sent.Some? && !mode.verifyInstalled && Says(r, Ascii("refused")) ==> !Service.Unresolved(env)
    ensures sent.Some? && !mode.verifyInstalled && Service.Unresolved(env) ==>
            Says(r, Ascii("recovery_required")) || r == Unknown(sent.value.call.identity)
  {
    var replies := run.Serve(env, mode);
    var received := convey(replies);
    assert Conveys(received, replies);
    ghost var here;
    r, sent, here := Ask(context, name, request, world, received);
    if sent.Some? && !mode.verifyInstalled {
      HeardOfRun(sent.value, here, replies, Service.Unresolved(env));
    }
  }
}
