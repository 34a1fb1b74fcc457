/** The receipt of an invocation, field by field against the request it came from. */
module PublisherReceipts {
  import opened Bytes
  import opened Wrappers
  import opened Json
  import opened JsonObject
  import opened PublisherDocuments

  /** A text that is there and is short. */
  predicate ShortText(v: Option<Value>) {
    v.Some? && v.value.String? && 0 < |v.value.s| <= 1024
  }

  /** The receipt holds these members of the request, each under the member's own name. */
  predicate Carries(receipt: Value, submitted: Value, path: seq<string>, fields: seq<string>) {
    forall i :: 0 <= i < |fields| ==>
      && Get(receipt, Ascii(fields[i])) == Descend(submitted, Names(path) + [Ascii(fields[i])])
      && ShortText(Get(receipt, Ascii(fields[i])))
  }

  // ----- the names of the fields differ -----

  /** Length and two bytes tell the names apart. */
  function Mark(name: Bytes): int {
    if |name| < 3 then 0
    else
      var first: int, third: int := name[0], name[2];
      |name| * 0x1_0000 + first * 0x100 + third
  }

  function Marks(sources: seq<Source>): seq<int> {
    seq(|sources|, i requires 0 <= i < |sources| => Mark(sources[i].field))
  }

  const INSPECTED: seq<int> := [0xA_7271, 0xA_6973, 0xE_7461, 0x9_6F65, 0x7_7061, 0xB_7061]

  lemma InspectedMarks(path: seq<Bytes>)
    ensures Marks(Fields(path, ["request_id", "install_id", "transaction_id", "operation", "plan_id", "plan_digest"])) == INSPECTED
  {
  }

  lemma PlanMarks(path: seq<Bytes>)
    ensures Marks(Fields(path, ["request_id", "install_id"])) == [0xA_7271, 0xA_6973]
    ensures Marks(Fields(path, ["request_id", "install_id", "report_id"])) == [0xA_7271, 0xA_6973, 0x9_7270]
    ensures Marks(Fields(path, ["recovery_plan_id"])) == [0x10_7263]
  {
  }

  lemma ReviewMarks(path: seq<Bytes>)
    ensures Marks(Fields(path, ["reviewed_plan_id", "reviewed_plan_digest", "selected_action"])) == [0x10_7276, 0x14_7276, 0xF_736C]
    ensures Marks(Fields(path, ["reviewed_plan_id", "reviewed_plan_digest", "transaction_id"])) == [0x10_7276, 0x14_7276, 0xE_7461]
  {
  }

  lemma HeaderMarks(name: Bytes, digest: Bytes)
    ensures var header := IdentityHeader(name, digest);
            Mark(header[0].key) == 0x6_7368 && Mark(header[1].key) == 0x7_636D && Mark(header[2].key) == 0xE_7271
  {
  }

  lemma MarksJoin(a: seq<Source>, b: seq<Source>)
    ensures Marks(a + b) == Marks(a) + Marks(b)
  {
  }

  function ExpectedMarks(c: Command): seq<int> {
    match c
    case InstallPlan => [0xA_7271, 0xA_6973]
    case InstalledVerify => [0xA_7271, 0xA_6973, 0x9_7270]
    case RecoveryInspect => INSPECTED
    case RecoveryPlan => INSPECTED + [0x10_7263]
    case RecoveryApply => INSPECTED + [0x10_7276, 0x14_7276, 0xF_736C]
    case _ => [0x10_7276, 0x14_7276, 0xE_7461] + [0xA_7271, 0xA_6973]
  }

  lemma SourcesMarked(c: Command)
    ensures Marks(IdentitySources(c)) == ExpectedMarks(c)
  {
    var inspected := ["request_id", "install_id", "transaction_id", "operation", "plan_id", "plan_digest"];
    match c
    case InstallPlan => PlanMarks([]);
    case InstalledVerify => PlanMarks([]);
    case RecoveryInspect => InspectedMarks([]);
    case RecoveryPlan =>
      PlanMarks([]);
      InspectedMarks([Ascii("inspection")]);
      MarksJoin(Fields([Ascii("inspection")], inspected), Fields([], ["recovery_plan_id"]));
    case RecoveryApply =>
      ReviewMarks([]);
      InspectedMarks([Ascii("plan_request"), Ascii("inspection")]);
      MarksJoin(Fields([Ascii("plan_request"), Ascii("inspection")], inspected),
                Fields([], ["reviewed_plan_id", "reviewed_plan_digest", "selected_action"]));
    case _ =>
      ReviewMarks([]);
      PlanMarks([Ascii("plan_request")]);
      MarksJoin(Fields([], ["reviewed_plan_id", "reviewed_plan_digest", "transaction_id"]),
                Fields([Ascii("plan_request")], ["request_id", "install_id"]));
  }

  lemma MarksApart(c: Command)
    ensures forall i, j :: 0 <= i < j < |ExpectedMarks(c)| ==> ExpectedMarks(c)[i] != ExpectedMarks(c)[j]
    ensures forall i :: 0 <= i < |ExpectedMarks(c)| ==> ExpectedMarks(c)[i] !in {0x6_7368, 0x7_636D, 0xE_7271}
  {
  }

  /** No field before the `k`th, and no part of the header, has its name. */
  lemma NameIsNew(name: Bytes, digest: Bytes, c: Command, k: nat)
    requires k < |IdentitySources(c)|
    ensures forall j :: 0 <= j < k ==> IdentitySources(c)[j].field != IdentitySources(c)[k].field
    ensures forall j :: 0 <= j < 3 ==> IdentityHeader(name, digest)[j].key != IdentitySources(c)[k].field
  {
    SourcesMarked(c);
    MarksApart(c);
    HeaderMarks(name, digest);
    var marks := Marks(IdentitySources(c));
    assert marks[k] == Mark(IdentitySources(c)[k].field);
    forall j | 0 <= j < k ensures IdentitySources(c)[j].field != IdentitySources(c)[k].field {
      assert marks[j] == Mark(IdentitySources(c)[j].field);
    }
  }

  // ----- so each is found -----

  lemma FieldKept(name: Bytes, c: Command, submitted: Value, k: nat)
    requires Identity(name, c, submitted).Returned? && k < |IdentitySources(c)|
    ensures var source := IdentitySources(c)[k];
            var found := Get(Identity(name, c, submitted).value, source.field);
            found == Descend(submitted, source.path + [source.field]) && ShortText(found)
  {
    var fields := IdentityFields(submitted, IdentitySources(c), 0).value;
    var header := IdentityHeader(name, RequestDigest(submitted));
    var pairs := header + fields;
    NameIsNew(name, RequestDigest(submitted), c, k);
    assert IdentityField(submitted, IdentitySources(c)[0 + k]) == Returned(fields[k]);
    FieldNames(submitted, c, k);
    assert pairs[3 + k] == fields[k];
    FirstOfName(header, fields, k);
    LookupPairs(pairs, fields[k].key);
  }

  lemma FieldNames(submitted: Value, c: Command, k: nat)
    requires IdentityFields(submitted, IdentitySources(c), 0).Returned? && k < |IdentitySources(c)|
    ensures var fields := IdentityFields(submitted, IdentitySources(c), 0).value;
            forall j :: 0 <= j <= k ==> fields[j].key == IdentitySources(c)[j].field
  {
    var fields := IdentityFields(submitted, IdentitySources(c), 0).value;
    forall j | 0 <= j <= k ensures fields[j].key == IdentitySources(c)[j].field {
      assert IdentityField(submitted, IdentitySources(c)[0 + j]) == Returned(fields[j]);
    }
  }

  lemma FirstOfName(header: seq<Member>, fields: seq<Member>, k: nat)
    requires k < |fields| && (forall j :: 0 <= j < |header| ==> header[j].key != fields[k].key)
    requires forall j :: 0 <= j < k ==> fields[j].key != fields[k].key
    ensures Lookup(header + fields, fields[k].key) == Some(fields[k].value)
  {
    var pairs := header + fields;
    assert pairs[|header| + k] == fields[k];
    LookupFirst(pairs, |header| + k);
  }

  /** The sources that come after `before`. */
  lemma FieldsCarried(name: Bytes, c: Command, submitted: Value, before: seq<Source>, path: seq<string>, fields: seq<string>)
    requires Identity(name, c, submitted).Returned?
    requires before + Fields(Names(path), fields) <= IdentitySources(c)
    ensures Carries(Identity(name, c, submitted).value, submitted, path, fields)
  {
    forall i | 0 <= i < |fields|
      ensures var found := Get(Identity(name, c, submitted).value, Ascii(fields[i]));
              found == Descend(submitted, Names(path) + [Ascii(fields[i])]) && ShortText(found)
    {
      assert IdentitySources(c)[|before| + i] == (before + Fields(Names(path), fields))[|before| + i];
      FieldKept(name, c, submitted, |before| + i);
    }
  }

  lemma Paths()
    ensures Names([]) == [] && Names(["inspection"]) == [Ascii("inspection")] && Names(["plan_request"]) == [Ascii("plan_request")]
    ensures Names(["plan_request", "inspection"]) == [Ascii("plan_request"), Ascii("inspection")]
  {
  }

  /** Every receipt: which members of the request it repeats, and from where. */
  lemma ReceiptTold(name: Bytes, c: Command, submitted: Value)
    requires Identity(name, c, submitted).Returned?
    ensures var receipt := Identity(name, c, submitted).value;
            var inspected := ["request_id", "install_id", "transaction_id", "operation", "plan_id", "plan_digest"];
            match c
            case InstallPlan => Carries(receipt, submitted, [], ["request_id", "install_id"])
            case InstalledVerify => Carries(receipt, submitted, [], ["request_id", "install_id", "report_id"])
            case RecoveryInspect => Carries(receipt, submitted, [], inspected)
            case RecoveryPlan =>
              Carries(receipt, submitted, ["inspection"], inspected) && Carries(receipt, submitted, [], ["recovery_plan_id"])
            case RecoveryApply =>
              && Carries(receipt, submitted, ["plan_request", "inspection"], inspected)
              && Carries(receipt, submitted, [], ["reviewed_plan_id", "reviewed_plan_digest", "selected_action"])
            case _ =>
              && Carries(receipt, submitted, [], ["reviewed_plan_id", "reviewed_plan_digest", "transaction_id"])
              && Carries(receipt, submitted, ["plan_request"], ["request_id", "install_id"])
  {
    var inspected := ["request_id", "install_id", "transaction_id", "operation", "plan_id", "plan_digest"];
    var reviewed := ["reviewed_plan_id", "reviewed_plan_digest", "transaction_id"];
    Paths();
    match c
    case InstallPlan => FieldsCarried(name, c, submitted, [], [], ["request_id", "install_id"]);
    case InstalledVerify => FieldsCarried(name, c, submitted, [], [], ["request_id", "install_id", "report_id"]);
    case RecoveryInspect => FieldsCarried(name, c, submitted, [], [], inspected);
    case RecoveryPlan =>
      FieldsCarried(name, c, submitted, [], ["inspection"], inspected);
      FieldsCarried(name, c, submitted, Fields([Ascii("inspection")], inspected), [], ["recovery_plan_id"]);
    case RecoveryApply =>
      FieldsCarried(name, c, submitted, [], ["plan_request", "inspection"], inspected);
      FieldsCarried(name, c, submitted, Fields([Ascii("plan_request"), Ascii("inspection")], inspected), [],
                    ["reviewed_plan_id", "reviewed_plan_digest", "selected_action"]);
    case _ =>
      FieldsCarried(name, c, submitted, [], [], reviewed);
      FieldsCarried(name, c, submitted, Fields([], reviewed), ["plan_request"], ["request_id", "install_id"]);
  }
}
