/**
  * What the recovery check amounts to: for every reply whatever, it passes exactly when it is the
  * correct envelope of the one payload its native binding allows.
  */
module PublisherRecoveryExact {
  import opened Bytes
  import opened JsonObject
  import opened PublisherDocuments
  import opened PublisherRecovery

  // ----- closed objects -----

  lemma {:induction false} SameSize<T>(a: set<T>, b: set<T>)
    requires a <= b && |a| == |b|
    ensures a == b
  {
    if a != b {
      var x :| x in b && x !in a;
      Sequences.SubsetSize(a, b - {x});
    }
  }

  /** Counting members and looking each one up admits exactly the listed fields. */
  lemma ClosedExact(m: Fields, fields: set<Field>)
    ensures Closed(m, fields) <==> m.Keys == fields
  {
    if Closed(m, fields) {
      SameSize(m.Keys, fields);
    }
  }

  // ----- payloads, member by member -----

  /** The digest of the plan document a completed apply must have been reviewed under. */
  function PlanSeal(r: Request, b: Fields, digest: Node -> Bytes): Bytes
    requires r.Apply? && Shaped(b)
  {
    digest(Record(Body(Plan(r.p), b)))
  }

  /** The one payload an observation allows, given the two digests only an apply has. */
  function Honest(r: Request, b: Fields, snapshot: Bytes, history: Bytes, digest: Node -> Bytes): Fields
    requires Shaped(b)
  {
    if r.Apply? then Seal(r, Common(r, b) + Own(r, b, PlanSeal(r, b, digest), snapshot, history), digest)
    else Document(r, b, digest)
  }

  predicate SaysCommon(r: Request, p: Fields, b: Fields)
    requires Shaped(b)
  {
    var i := r.Inspected();
    && Reads(p, Schema, SchemaText(r)) && Reads(p, Status, StatusText(r))
    && Reads(p, Operation, i.operation) && Reads(p, InstallId, i.installId) && Reads(p, TransactionId, i.transactionId)
    && Reads(p, OriginalPlanId, i.planId) && Reads(p, OriginalPlanDigest, i.planDigest)
    && Reads(p, InspectionRequestId, i.requestId) && Reads(p, TargetRoot, i.targetRoot) && Has(p, NativeBinding, Record(b))
    && Has(p, AvailableActions, Actions(Finalizable(b, i.operation)))
    && Has(p, Effects, EffectList(Finalizable(b, i.operation), i.operation))
  }

  predicate SaysOwn(r: Request, p: Fields, b: Fields, seal: Bytes, snapshot: Bytes, history: Bytes)
    requires Shaped(b)
  {
    match r
    case Inspect(i) => Has(p, RecordedAt, b[RecordedAt]) && Reads(p, ReportId, REPORT_PREFIX + i.requestId)
    case Plan(q) => Reads(p, CreatedAt, q.createdAt) && Reads(p, PlanId, q.recoveryPlanId)
    case Apply(q, _, _, action, appliedAt) =>
      && Reads(p, RecordedAt, appliedAt) && Reads(p, ReportId, REPORT_PREFIX + q.inspection.requestId)
      && Reads(p, ReviewedPlanId, q.recoveryPlanId) && Reads(p, ReviewedPlanDigest, seal)
      && Reads(p, SelectedAction, action) && Reads(p, CompletedSnapshot, snapshot) && Reads(p, CompletedHistory, history)
  }

  function SealOf(r: Request, b: Fields, digest: Node -> Bytes): Bytes
    requires Shaped(b)
  {
    if r.Apply? then PlanSeal(r, b, digest) else []
  }

  /** Every member of the payload, and no other. */
  predicate Says(r: Request, p: Fields, b: Fields, seal: Bytes, snapshot: Bytes, history: Bytes, digest: Node -> Bytes)
    requires Shaped(b)
  {
    && p.Keys == PayloadFields(r)
    && SaysCommon(r, p, b) && SaysOwn(r, p, b, seal, snapshot, history) && SealAccepted(r, p, digest)
  }

  lemma CommonSays(r: Request, b: Fields)
    requires Shaped(b)
    ensures Common(r, b).Keys == COMMON_FIELDS && SaysCommon(r, Common(r, b), b)
  {
  }

  lemma OwnSays(r: Request, b: Fields, seal: Bytes, snapshot: Bytes, history: Bytes)
    requires Shaped(b)
    ensures Own(r, b, seal, snapshot, history).Keys == OwnFields(r)
    ensures SaysOwn(r, Own(r, b, seal, snapshot, history), b, seal, snapshot, history)
  {
  }

  /** `q` has every member `p` has, unchanged. */
  predicate Extends(q: Fields, p: Fields) {
    forall f :: f in p ==> f in q && q[f] == p[f]
  }

  lemma StillSays(r: Request, p: Fields, q: Fields, b: Fields, seal: Bytes, snapshot: Bytes, history: Bytes)
    requires Shaped(b) && Extends(q, p)
    ensures SaysCommon(r, p, b) ==> SaysCommon(r, q, b)
    ensures SaysOwn(r, p, b, seal, snapshot, history) ==> SaysOwn(r, q, b, seal, snapshot, history)
  {
  }

  lemma FieldsApart(r: Request)
    ensures COMMON_FIELDS !! OwnFields(r) && SealField(r) !in COMMON_FIELDS && SealField(r) !in OwnFields(r)
  {
  }

  lemma SealExtends(r: Request, common: Fields, own: Fields, digest: Node -> Bytes)
    requires common.Keys !! own.Keys && SealField(r) !in common && SealField(r) !in own
    ensures var p := Seal(r, common + own, digest);
            Extends(p, common) && Extends(p, own) && p.Keys == common.Keys + own.Keys + {SealField(r)} && SealAccepted(r, p, digest)
  {
    assert Seal(r, common + own, digest) - {SealField(r)} == common + own;
  }

  /** The two parts and the seal, whatever says the parts. */
  lemma SealedSays(r: Request, common: Fields, own: Fields, b: Fields, seal: Bytes, snapshot: Bytes, history: Bytes, digest: Node -> Bytes)
    requires Shaped(b) && common.Keys == COMMON_FIELDS && SaysCommon(r, common, b)
    requires own.Keys == OwnFields(r) && SaysOwn(r, own, b, seal, snapshot, history)
    ensures Says(r, Seal(r, common + own, digest), b, seal, snapshot, history, digest)
  {
    FieldsApart(r);
    SealExtends(r, common, own, digest);
    StillSays(r, common, Seal(r, common + own, digest), b, seal, snapshot, history);
    StillSays(r, own, Seal(r, common + own, digest), b, seal, snapshot, history);
  }

  lemma HonestSays(r: Request, b: Fields, snapshot: Bytes, history: Bytes, digest: Node -> Bytes)
    requires Shaped(b)
    ensures Says(r, Honest(r, b, snapshot, history, digest), b, SealOf(r, b, digest), snapshot, history, digest)
  {
    var own := Own(r, b, SealOf(r, b, digest), snapshot, history);
    CommonSays(r, b);
    OwnSays(r, b, SealOf(r, b, digest), snapshot, history);
    SealedSays(r, Common(r, b), own, b, SealOf(r, b, digest), snapshot, history, digest);
  }

  lemma SameCommon(r: Request, p: Fields, q: Fields, b: Fields, f: Field)
    requires Shaped(b) && SaysCommon(r, p, b) && SaysCommon(r, q, b) && f in COMMON_FIELDS
    ensures f in p && f in q && p[f] == q[f]
  {
  }

  lemma SameOwn(r: Request, p: Fields, q: Fields, b: Fields, seal: Bytes, snapshot: Bytes, history: Bytes, f: Field)
    requires Shaped(b) && SaysOwn(r, p, b, seal, snapshot, history) && SaysOwn(r, q, b, seal, snapshot, history)
    requires f in OwnFields(r)
    ensures f in p && f in q && p[f] == q[f]
  {
  }

  /** Two sealed objects that agree but for their seals agree. */
  lemma SealedEqual(r: Request, p: Fields, q: Fields, digest: Node -> Bytes)
    requires SealAccepted(r, p, digest) && SealAccepted(r, q, digest) && p.Keys == q.Keys
    requires forall f :: f in p && f != SealField(r) ==> p[f] == q[f]
    ensures p == q
  {
    assert p - {SealField(r)} == q - {SealField(r)};
  }

  /** What is said of a payload member by member fixes it, its seal included. */
  lemma SaysUnique(r: Request, p: Fields, q: Fields, b: Fields, seal: Bytes, snapshot: Bytes, history: Bytes, digest: Node -> Bytes)
    requires Shaped(b) && Says(r, p, b, seal, snapshot, history, digest) && Says(r, q, b, seal, snapshot, history, digest)
    ensures p == q
  {
    forall f | f in p && f != SealField(r) ensures p[f] == q[f] {
      if f in COMMON_FIELDS {
        SameCommon(r, p, q, b, f);
      } else {
        SameOwn(r, p, q, b, seal, snapshot, history, f);
      }
    }
    SealedEqual(r, p, q, digest);
  }

  // ----- the payload check is exact -----

  /** An apply was reviewed under the plan this observation gives, and finalizes. */
  predicate Reviewed(r: Request, b: Fields, snapshot: Bytes, history: Bytes, digest: Node -> Bytes)
    requires Shaped(b)
  {
    r.Apply? ==>
      && r.reviewedPlanId == r.p.recoveryPlanId && r.reviewedPlanDigest == PlanSeal(r, b, digest)
      && r.selectedAction == FINALIZE && LowerHex(snapshot, 64) && LowerHex(history, 64)
  }

  lemma ActionsFollow(i: Inspection, payload: Fields, finalizable: bool)
    requires Has(payload, AvailableActions, Actions(finalizable)) && Has(payload, Effects, EffectList(finalizable, i.operation))
    ensures ActionsAccepted(i, payload)
  {
    ClosedExact(Effect(i.operation), {Kind, Operation});
    assert finalizable ==> payload[Effects].items == [Record(Effect(i.operation))];
  }

  lemma ProjectionFollows(r: Request, p: Fields, b: Fields, snapshot: Bytes, history: Bytes, digest: Node -> Bytes)
    requires Shaped(b) && Says(r, p, b, SealOf(r, b, digest), snapshot, history, digest)
    ensures ProjectionAccepted(r, p, b, digest)
  {
    HonestSays(r.Basis(), b, [], [], digest);
    if !r.Apply? {
      HonestSays(r, b, snapshot, history, digest);
      SaysUnique(r, p, Document(r, b, digest), b, [], snapshot, history, digest);
    }
  }

  lemma SaysPasses(r: Request, p: Fields, b: Fields, snapshot: Bytes, history: Bytes, digest: Node -> Bytes)
    requires BindingAccepted(b, r.Inspected()) && Reviewed(r, b, snapshot, history, digest)
    requires Says(r, p, b, SealOf(r, b, digest), snapshot, history, digest)
    ensures PayloadAccepted(r, p, digest)
  {
    ClosedExact(p, PayloadFields(r));
    ActionsFollow(r.Inspected(), p, Finalizable(b, r.Inspected().operation));
    ProjectionFollows(r, p, b, snapshot, history, digest);
  }

  lemma PassesSays(r: Request, p: Fields, digest: Node -> Bytes) returns (snapshot: Bytes, history: Bytes)
    requires PayloadAccepted(r, p, digest)
    ensures var b := p[NativeBinding].m;
            Reviewed(r, b, snapshot, history, digest) && Says(r, p, b, SealOf(r, b, digest), snapshot, history, digest)
  {
    var b := p[NativeBinding].m;
    snapshot, history := [], [];
    HonestSays(r.Basis(), b, [], [], digest);
    if r.Apply? {
      snapshot, history := p[CompletedSnapshot].s, p[CompletedHistory].s;
      ClosedExact(p, PayloadFields(r));
    }
  }

  // ----- the envelope -----

  /** A live endpoint, its admission of this operation and its registered admission. */
  datatype Endpoint = Endpoint(name: Bytes, sid: Bytes, processId: nat, operation: Fields, registered: Fields)

  predicate Live(e: Endpoint) {
    e.name != [] && e.sid != [] && 0 < e.processId <= 0xFFFF_FFFF && AdmissionAccepted(e.registered, e.name, e.sid, e.processId)
  }

  function Answered(payload: Fields): Fields {
    map[Schema := Text(RESPONSE_SCHEMA), Status := Text(Ascii("ok")), Payload := Record(payload)]
  }

  /** The correct envelope of a payload. */
  function Enveloped(r: Request, requestSha: Bytes, e: Endpoint, payload: Fields): Fields {
    var i := r.Inspected();
    map[Schema := Text(OBSERVATION_SCHEMA), Status := Text(Ascii("pass")), RequestSha := Text(requestSha),
        Operation := Text(i.operation), InstallId := Text(i.installId), TransactionId := Text(i.transactionId),
        ServiceName := Text(e.name), ServiceSid := Text(e.sid), ProcessId := Number(e.processId),
        RecoveryResponse := Record(Answered(payload)), OperationAdmission := Record(e.operation),
        RegisteredAdmission := Record(e.registered)]
  }

  predicate EnvelopeSays(r: Request, requestSha: Bytes, e: Endpoint, payload: Fields, o: Fields) {
    var i := r.Inspected();
    && o.Keys == ENVELOPE_FIELDS
    && Reads(o, Schema, OBSERVATION_SCHEMA) && Reads(o, Status, Ascii("pass")) && Reads(o, RequestSha, requestSha)
    && Reads(o, Operation, i.operation) && Reads(o, InstallId, i.installId) && Reads(o, TransactionId, i.transactionId)
    && Reads(o, ServiceName, e.name) && Reads(o, ServiceSid, e.sid) && Has(o, ProcessId, Number(e.processId))
    && Has(o, RecoveryResponse, Record(Answered(payload))) && Has(o, OperationAdmission, Record(e.operation))
    && Has(o, RegisteredAdmission, Record(e.registered))
  }

  lemma EnvelopedSays(r: Request, requestSha: Bytes, e: Endpoint, payload: Fields)
    ensures EnvelopeSays(r, requestSha, e, payload, Enveloped(r, requestSha, e, payload))
  {
  }

  lemma EnvelopeUnique(r: Request, requestSha: Bytes, e: Endpoint, payload: Fields, o: Fields)
    requires EnvelopeSays(r, requestSha, e, payload, o)
    ensures o == Enveloped(r, requestSha, e, payload)
  {
    EnvelopedSays(r, requestSha, e, payload);
  }

  lemma AnsweredExact(response: Fields)
    requires Closed(response, {Schema, Status, Payload}) && Payload in response && response[Payload].Record?
    requires Reads(response, Schema, RESPONSE_SCHEMA) && Reads(response, Status, Ascii("ok"))
    ensures response == Answered(response[Payload].m)
  {
    ClosedExact(response, {Schema, Status, Payload});
  }

  /** An accepted envelope is the correct one of its payload and endpoint. */
  lemma EnvelopeRebuilt(r: Request, requestSha: Bytes, o: Fields) returns (e: Endpoint)
    requires EnvelopeAccepted(r, requestSha, o)
    ensures Live(e) && o == Enveloped(r, requestSha, e, PayloadOf(o))
  {
    e := Endpoint(o[ServiceName].s, o[ServiceSid].s, o[ProcessId].n, o[OperationAdmission].m, o[RegisteredAdmission].m);
    ClosedExact(o, ENVELOPE_FIELDS);
    AnsweredExact(o[RecoveryResponse].m);
    EnvelopeUnique(r, requestSha, e, PayloadOf(o), o);
  }

  lemma EnvelopePasses(r: Request, requestSha: Bytes, e: Endpoint, payload: Fields)
    requires Live(e)
    ensures var o := Enveloped(r, requestSha, e, payload);
            EnvelopeAccepted(r, requestSha, o) && PayloadOf(o) == payload
  {
    EnvelopedSays(r, requestSha, e, payload);
    SaysEnvelope(r, requestSha, e, payload, Enveloped(r, requestSha, e, payload));
  }

  lemma SaysEnvelope(r: Request, requestSha: Bytes, e: Endpoint, payload: Fields, o: Fields)
    requires Live(e) && EnvelopeSays(r, requestSha, e, payload, o)
    ensures EnvelopeAccepted(r, requestSha, o) && PayloadOf(o) == payload
  {
    ClosedExact(o, ENVELOPE_FIELDS);
    ClosedExact(Answered(payload), {Schema, Status, Payload});
  }

  // ----- the reply check is exact -----

  /** A correctly enveloped projection of an acceptable observation; for an apply, a completion reviewed under it. */
  ghost predicate Projects(r: Request, requestSha: Bytes, o: Fields, digest: Node -> Bytes) {
    exists e: Endpoint, b: Fields, snapshot: Bytes, history: Bytes ::
      && Live(e) && BindingAccepted(b, r.Inspected()) && Reviewed(r, b, snapshot, history, digest)
      && o == Enveloped(r, requestSha, e, Honest(r, b, snapshot, history, digest))
  }

  /** Every projection of an acceptable observation passes, whatever else its registered admission holds. */
  lemma ProjectionPasses(r: Request, requestSha: Bytes, e: Endpoint, b: Fields, snapshot: Bytes, history: Bytes, digest: Node -> Bytes)
    requires r.Inspected().operation != INSTALL_LOCAL && Live(e) && BindingAccepted(b, r.Inspected())
    requires Reviewed(r, b, snapshot, history, digest)
    ensures Accepted(r, requestSha, Enveloped(r, requestSha, e, Honest(r, b, snapshot, history, digest)), digest)
  {
    HonestSays(r, b, snapshot, history, digest);
    SaysPasses(r, Honest(r, b, snapshot, history, digest), b, snapshot, history, digest);
    EnvelopePasses(r, requestSha, e, Honest(r, b, snapshot, history, digest));
  }

  /** Every member of an accepted payload, its seal included, is fixed by its binding and, for an apply, two digests. */
  lemma AcceptedIsHonest(r: Request, requestSha: Bytes, o: Fields, digest: Node -> Bytes) returns (snapshot: Bytes, history: Bytes)
    requires Accepted(r, requestSha, o, digest)
    ensures var b := PayloadOf(o)[NativeBinding].m;
            && Reviewed(r, b, snapshot, history, digest) && PayloadOf(o) == Honest(r, b, snapshot, history, digest)
  {
    var p := PayloadOf(o);
    snapshot, history := PassesSays(r, p, digest);
    HonestSays(r, p[NativeBinding].m, snapshot, history, digest);
    SaysUnique(r, p, Honest(r, p[NativeBinding].m, snapshot, history, digest), p[NativeBinding].m, SealOf(r, p[NativeBinding].m, digest),
               snapshot, history, digest);
  }

  /** For every reply whatever: it is accepted exactly when it is such a projection. */
  lemma ReplyExact(r: Request, requestSha: Bytes, o: Fields, digest: Node -> Bytes)
    ensures Accepted(r, requestSha, o, digest) <==>
            r.Inspected().operation != INSTALL_LOCAL && Projects(r, requestSha, o, digest)
  {
    if Accepted(r, requestSha, o, digest) {
      var e := EnvelopeRebuilt(r, requestSha, o);
      var snapshot, history := AcceptedIsHonest(r, requestSha, o, digest);
      assert Projects(r, requestSha, o, digest);
    }
    if r.Inspected().operation != INSTALL_LOCAL && Projects(r, requestSha, o, digest) {
      var e: Endpoint, b: Fields, snapshot: Bytes, history: Bytes :|
        && Live(e) && BindingAccepted(b, r.Inspected()) && Reviewed(r, b, snapshot, history, digest)
        && o == Enveloped(r, requestSha, e, Honest(r, b, snapshot, history, digest));
      ProjectionPasses(r, requestSha, e, b, snapshot, history, digest);
    }
  }

  /** So an accepted reply, read-only or completed, offers finalizing exactly when its observation allows it. */
  lemma OfferedIffFinalizable(r: Request, requestSha: Bytes, o: Fields, digest: Node -> Bytes)
    requires Accepted(r, requestSha, o, digest)
    ensures PayloadOf(o)[AvailableActions] == List([Text(FINALIZE)]) <==>
            Finalizable(PayloadOf(o)[NativeBinding].m, r.Inspected().operation)
  {
    var snapshot, history := PassesSays(r, PayloadOf(o), digest);
    var finalizable := Finalizable(PayloadOf(o)[NativeBinding].m, r.Inspected().operation);
    assert Actions(finalizable).items == [Text(FINALIZE)] <==> finalizable;
  }

  // ----- what is offered, in the binding's own words -----

  /** What a binding says of the progress of a transaction. */
  datatype Progress = Progress(started: bool, confirmed: bool, complete: bool, sealed: bool,
                               state: Bytes, pending: Bytes, reconciliation: Bytes, next: Bytes)

  predicate Tells(b: Fields, q: Progress) {
    && Has(b, CommitStarted, Flag(q.started)) && Has(b, CommitConfirmed, Flag(q.confirmed))
    && Has(b, EffectsComplete, Flag(q.complete)) && Has(b, Sealed, Flag(q.sealed))
    && Reads(b, ObservedState, q.state) && Reads(b, PendingKind, q.pending)
    && Reads(b, Reconciliation, q.reconciliation) && Reads(b, NextKind, q.next)
  }

  predicate OffersNothing(p: Fields) {
    Has(p, AvailableActions, List([])) && Has(p, Effects, List([]))
  }

  predicate OffersFinalize(p: Fields, operation: Bytes) {
    && Has(p, AvailableActions, List([Text(Ascii("finalize"))]))
    && Has(p, Effects, List([Record(map[Kind := Text(Ascii("resume_original_maintenance")), Operation := Text(operation)])]))
  }

  /** Nothing pending and more to do, or nothing left; or a pending effect that was reconciled either way. */
  predicate Reconciled(q: Progress) {
    if q.pending == [] then q.next != [] || q.complete
    else q.reconciliation == Ascii("compatible_before_effect") || q.reconciliation == Ascii("compatible_after_effect")
  }

  /** Confirmed, in one of three states; or a repair whose target was published before its journal said so. */
  predicate Ready(q: Progress, operation: Bytes) {
    || (q.started && q.confirmed && q.state == Ascii("committing") && Reconciled(q))
    || (q.started && q.confirmed && q.state == Ascii("committed") && Reconciled(q))
    || (q.started && q.confirmed && q.state == Ascii("recovery_required") && Reconciled(q))
    || (&& operation == Ascii("repair") && q.started && !q.confirmed && q.state == Ascii("committing")
        && q.pending == Ascii("publish_target") && q.next == Ascii("publish_target")
        && q.reconciliation == Ascii("compatible_after_effect") && !q.complete && !q.sealed)
  }

  lemma OfferSaid(r: Request, p: Fields, b: Fields, q: Progress)
    requires Shaped(b) && Tells(b, q) && SaysCommon(r, p, b)
    ensures var operation := r.Inspected().operation;
            if Ready(q, operation) then OffersFinalize(p, operation) else OffersNothing(p)
  {
    assert Finalizable(b, r.Inspected().operation) <==> Ready(q, r.Inspected().operation);
  }

  lemma ShapedTells(b: Fields) returns (q: Progress)
    requires Shaped(b)
    ensures Tells(b, q)
  {
    q := Progress(b[CommitStarted].b, b[CommitConfirmed].b, b[EffectsComplete].b, b[Sealed].b,
                  b[ObservedState].s, b[PendingKind].s, b[Reconciliation].s, b[NextKind].s);
  }

  /** An accepted binding tells the progress of its transaction. */
  lemma ProgressTold(r: Request, requestSha: Bytes, o: Fields, digest: Node -> Bytes) returns (b: Fields, q: Progress)
    requires Accepted(r, requestSha, o, digest)
    ensures Has(PayloadOf(o), NativeBinding, Record(b)) && Tells(b, q)
  {
    b := PayloadOf(o)[NativeBinding].m;
    q := ShapedTells(b);
  }

  lemma AcceptedSays(r: Request, p: Fields, digest: Node -> Bytes, b: Fields)
    requires PayloadAccepted(r, p, digest) && Has(p, NativeBinding, Record(b))
    ensures Shaped(b) && SaysCommon(r, p, b)
  {
    var snapshot, history := PassesSays(r, p, digest);
  }

  /** Every accepted reply: the progress its binding tells decides the action and the effect it lists. */
  lemma AcceptedOffers(r: Request, requestSha: Bytes, o: Fields, digest: Node -> Bytes, b: Fields, q: Progress)
    requires Accepted(r, requestSha, o, digest) && Has(PayloadOf(o), NativeBinding, Record(b)) && Tells(b, q)
    ensures var operation := r.Inspected().operation;
            if Ready(q, operation) then OffersFinalize(PayloadOf(o), operation)
            else OffersNothing(PayloadOf(o))
  {
    AcceptedSays(r, PayloadOf(o), digest, b);
    OfferSaid(r, PayloadOf(o), b, q);
  }

  /** The projection lists the same. */
  lemma DocumentOffers(r: Request, b: Fields, q: Progress, digest: Node -> Bytes)
    requires !r.Apply? && Shaped(b) && Tells(b, q)
    ensures var operation := r.Inspected().operation;
            if Ready(q, operation) then OffersFinalize(Document(r, b, digest), operation)
            else OffersNothing(Document(r, b, digest))
  {
    HonestSays(r, b, [], [], digest);
    OfferSaid(r, Document(r, b, digest), b, q);
  }

  /** A pending effect not reconciled, work left untold, a commit not begun, or one not confirmed outside a repair. */
  predicate Unready(q: Progress, operation: Bytes) {
    || (q.pending != [] && q.reconciliation != Ascii("compatible_before_effect") && q.reconciliation != Ascii("compatible_after_effect"))
    || (q.pending == [] && q.next == [] && !q.complete)
    || !q.started
    || (!q.confirmed && operation != Ascii("repair"))
  }

  lemma UnreadyExact(q: Progress, operation: Bytes)
    requires Unready(q, operation)
    ensures !Ready(q, operation)
  {
  }

  lemma NothingOffered(r: Request, requestSha: Bytes, o: Fields, digest: Node -> Bytes, b: Fields, q: Progress)
    requires Accepted(r, requestSha, o, digest) && Has(PayloadOf(o), NativeBinding, Record(b)) && Tells(b, q)
    requires Unready(q, r.Inspected().operation)
    ensures OffersNothing(PayloadOf(o))
  {
    UnreadyExact(q, r.Inspected().operation);
    AcceptedOffers(r, requestSha, o, digest, b, q);
  }

  // ----- acceptable observations exist -----

  /** Every digest, flag and text of an object set alike, whatever fields these are. */
  function Filled(digests: set<Field>, flags: set<Field>, texts: set<Field>, digest: Bytes, flag: bool): Fields {
    (map f | f in digests :: Text(digest)) + (map f | f in flags :: Flag(flag)) + (map f | f in texts :: Text([]))
  }

  lemma FilledReads(digests: set<Field>, flags: set<Field>, texts: set<Field>, digest: Bytes, flag: bool)
    requires digests !! flags && digests !! texts && flags !! texts
    ensures var m := Filled(digests, flags, texts, digest, flag);
            && m.Keys == digests + flags + texts && (forall f :: f in digests ==> Reads(m, f, digest))
            && (forall f :: f in flags ==> Has(m, f, Flag(flag))) && (forall f :: f in texts ==> Reads(m, f, []))
  {
  }

  /** The four members an observation sets apart. */
  function Headed(m: Fields): Fields {
    m[ObservedState := Text(Ascii("committed"))][Schema := Text(BINDING_SCHEMA)][LeaseRecordCount := Number(1)][ObjectCount := Number(1)]
  }

  /** An observation of a request, before anything began or after everything was committed. */
  function Observation(i: Inspection, committed: bool): Fields {
    Headed(Filled(BINDING_DIGESTS, BINDING_FLAGS, BINDING_TEXTS, i.planDigest, committed))
  }

  /** Digests, flags, texts and the members set apart do not overlap. */
  lemma KindsDisjoint()
    ensures BINDING_DIGESTS !! BINDING_FLAGS && BINDING_DIGESTS !! BINDING_TEXTS && BINDING_FLAGS !! BINDING_TEXTS
    ensures {Schema, LeaseRecordCount, ObjectCount} !! BINDING_DIGESTS + BINDING_FLAGS + BINDING_TEXTS
    ensures ObservedState in BINDING_TEXTS && OriginalPlanDigest in BINDING_DIGESTS
  {
  }

  ghost predicate IsFilled(m: Fields, i: Inspection, committed: bool) {
    && m.Keys == BINDING_DIGESTS + BINDING_FLAGS + BINDING_TEXTS
    && (forall f :: f in BINDING_DIGESTS ==> Reads(m, f, i.planDigest))
    && (forall f :: f in BINDING_FLAGS ==> Has(m, f, Flag(committed)))
    && (forall f :: f in BINDING_TEXTS ==> Reads(m, f, []))
  }

  lemma HeadedAccepted(m: Fields, i: Inspection, committed: bool)
    requires LowerHex(i.planDigest, 64) && IsFilled(m, i, committed)
    ensures BindingAccepted(Headed(m), i)
  {
    HeadedClosed(m);
    HeadedReads(m, i, committed);
    KindsDisjoint();
  }

  lemma HeadedClosed(m: Fields)
    requires m.Keys == BINDING_DIGESTS + BINDING_FLAGS + BINDING_TEXTS
    ensures Closed(Headed(m), BINDING_FIELDS)
  {
    KindsDisjoint();
    ClosedExact(Headed(m), BINDING_FIELDS);
  }

  lemma HeadedReads(m: Fields, i: Inspection, committed: bool)
    requires IsFilled(m, i, committed)
    ensures Shaped(Headed(m)) && forall f :: f in BINDING_DIGESTS ==> Reads(Headed(m), f, i.planDigest)
  {
    KindsDisjoint();
  }

  lemma HeadedFinalizable(m: Fields, i: Inspection, committed: bool)
    requires IsFilled(m, i, committed) && Shaped(Headed(m))
    ensures Finalizable(Headed(m), i.operation) <==> committed
  {
  }

  /** Every decoded request has observations the check accepts, one that allows finalizing and one that does not. */
  lemma ObservationExists(i: Inspection, committed: bool)
    requires LowerHex(i.planDigest, 64)
    ensures var b := Observation(i, committed);
            BindingAccepted(b, i) && (Finalizable(b, i.operation) <==> committed)
  {
    var m := Filled(BINDING_DIGESTS, BINDING_FLAGS, BINDING_TEXTS, i.planDigest, committed);
    KindsDisjoint();
    FilledReads(BINDING_DIGESTS, BINDING_FLAGS, BINDING_TEXTS, i.planDigest, committed);
    HeadedAccepted(m, i, committed);
    HeadedFinalizable(m, i, committed);
  }
}
