/**
  * The entry points that decide acceptance without parsing, each proved to accept exactly what
  * the parser accepts and to return exact encoded sizes.
  */
module JsonLimits {
  import opened Bytes
  import opened Wrappers
  import opened Json
  import opened JsonParser
  import opened JsonExact
  import opened JsonBudget

  /** The object a field view stands for. */
  function ViewedObject(fields: seq<Field>, view: ArrayView): Value {
    Object(SeenFields(fields, view))
  }

  /** The array is met exactly once, inside the selected field, and not again in its own entries. */
  predicate OccursOnceIn(fields: seq<Field>, selected: Bytes, view: ArrayView) {
    && OccurrencesInFields(fields, 0, view) == 1
    && (exists k :: 0 <= k < |fields| && fields[k].key == selected && Occurrences(fields[k].node, view) == 1)
    && EntriesClean(view)
  }

  // ----- what the running ownership checks amount to -----

  lemma {:induction false} NoViewNoOccurrence(node: Node)
    ensures Occurrences(node, NoView) == 0
    decreases node, 0
  {
    match node
    case NArray(_, items) => NoViewNoOccurrenceInItems(items, 0);
    case NObject(members) => NoViewNoOccurrenceInFields(members, 0);
    case _ =>
  }

  lemma {:induction false} NoViewNoOccurrenceInItems(items: seq<Node>, i: nat)
    requires i <= |items|
    ensures OccurrencesInItems(items, i, NoView) == 0
    decreases items, |items| - i
  {
    if i < |items| {
      NoViewNoOccurrence(items[i]);
      NoViewNoOccurrenceInItems(items, i + 1);
    }
  }

  lemma {:induction false} NoViewNoOccurrenceInFields(fields: seq<Field>, i: nat)
    requires i <= |fields|
    ensures OccurrencesInFields(fields, i, NoView) == 0
    decreases fields, |fields| - i
  {
    if i < |fields| {
      NoViewNoOccurrence(fields[i].node);
      NoViewNoOccurrenceInFields(fields, i + 1);
    }
  }

  lemma {:induction false} NoViewOwned(fields: seq<Field>, i: nat, selected: Option<Bytes>)
    requires i <= |fields|
    ensures OwnedFrom(fields, i, selected, NoView, false)
    decreases |fields| - i
  {
    if i < |fields| {
      NoViewNoOccurrence(fields[i].node);
      NoViewOwned(fields, i + 1, selected);
    }
  }

  /** Once the array has been seen, nothing later may contain it. */
  lemma {:induction false} OwnedAfterSeen(fields: seq<Field>, i: nat, selected: Option<Bytes>, view: ArrayView)
    requires i <= |fields|
    ensures OwnedFrom(fields, i, selected, view, true) <==> OccurrencesInFields(fields, i, view) == 0
    decreases |fields| - i
  {
    if i < |fields| {
      OwnedAfterSeen(fields, i + 1, selected, view);
    }
  }

  lemma {:induction false} OwnedMeansOnce(fields: seq<Field>, i: nat, selected: Bytes, view: ArrayView)
    requires i <= |fields| && OwnedFrom(fields, i, Some(selected), view, false)
    ensures OccurrencesInFields(fields, i, view) <= 1
    ensures OccurrencesInFields(fields, i, view) == 1 ==>
            && EntriesClean(view)
            && exists k :: i <= k < |fields| && fields[k].key == selected && Occurrences(fields[k].node, view) == 1
    decreases |fields| - i
  {
    if i < |fields| {
      if Occurrences(fields[i].node, view) == 0 {
        OwnedMeansOnce(fields, i + 1, selected, view);
      } else {
        OwnedAfterSeen(fields, i + 1, Some(selected), view);
      }
    }
  }

  lemma {:induction false} OnceMeansOwned(fields: seq<Field>, i: nat, k: nat, selected: Bytes, view: ArrayView)
    requires i <= k < |fields| && fields[k].key == selected && Occurrences(fields[k].node, view) == 1
    requires OccurrencesInFields(fields, i, view) == 1 && EntriesClean(view)
    ensures OwnedFrom(fields, i, Some(selected), view, false)
    decreases |fields| - i
  {
    if i == k {
      OwnedAfterSeen(fields, i + 1, Some(selected), view);
    } else {
      OccurrenceAt(fields, i + 1, k, view);
      OnceMeansOwned(fields, i + 1, k, selected, view);
    }
  }

  lemma {:induction false} OccurrenceAt(fields: seq<Field>, i: nat, k: nat, view: ArrayView)
    requires i <= k < |fields|
    ensures OccurrencesInFields(fields, i, view) >= Occurrences(fields[k].node, view)
    decreases k - i
  {
    if i < k {
      OccurrenceAt(fields, i + 1, k, view);
    }
  }

  /** The traversal's checks hold exactly when the array is met once, in the selected member. */
  lemma OwnershipExact(fields: seq<Field>, selected: Bytes, view: ArrayView)
    ensures OccursOnceIn(fields, selected, view) <==>
            OwnedFrom(fields, 0, Some(selected), view, false) && OccurrencesInFields(fields, 0, view) > 0
  {
    if OwnedFrom(fields, 0, Some(selected), view, false) {
      OwnedMeansOnce(fields, 0, selected, view);
    }
    if OccursOnceIn(fields, selected, view) {
      var k :| 0 <= k < |fields| && fields[k].key == selected && Occurrences(fields[k].node, view) == 1;
      OnceMeansOwned(fields, 0, k, selected, view);
    }
  }

  lemma {:induction false} HasFieldMeans(fields: seq<Field>, key: Bytes, n: nat)
    requires n <= |fields|
    ensures HasField(fields, key, n) <==> exists k :: 0 <= k < n && fields[k].key == key
    decreases n
  {
    if n > 0 {
      HasFieldMeans(fields, key, n - 1);
    }
  }

  predicate DistinctKeys(fields: seq<Field>) {
    forall i, j :: 0 <= i < j < |fields| ==> fields[i].key != fields[j].key
  }

  lemma {:induction false} SelectedSizeOf(fields: seq<Field>, view: ArrayView, k: nat, n: nat)
    requires k < n <= |fields| && DistinctKeys(fields)
    ensures SelectedSize(fields, fields[k].key, view, n) == |Canonical(Seen(fields[k].node, view))|
    decreases n
  {
    if k != n - 1 {
      SelectedSizeOf(fields, view, k, n - 1);
    }
  }

  /** A view is a map, so its keys are distinct. */
  lemma KeysDistinct(fields: seq<Field>, view: ArrayView)
    requires Ordered(ViewedObject(fields, view))
    ensures DistinctKeys(fields)
  {
    forall i, j | 0 <= i < j < |fields| ensures fields[i].key != fields[j].key {
      AscendingPair(SeenFields(fields, view), i, j);
      LessTotal(fields[i].key, fields[i].key);
    }
  }

  // ----- the entry points -----

  /** `require_canonical_object_encoded_size` (and, dropping the size, `..._parse_limits`). */
  method RequireEncodedSize(fields: seq<Field>, limits: ParseLimits) returns (r: Option<size_t>)
    requires Ordered(ViewedObject(fields, NoView))
    ensures r.Some? <==> Parse(Canonical(ViewedObject(fields, NoView)), limits).Ok?
    ensures r.Some? ==> r.value == |Canonical(ViewedObject(fields, NoView))|
  {
    ParseOfCanonical(ViewedObject(fields, NoView), limits);
    NoViewOwned(fields, 0, None);
    var budget := new CanonicalBudget(limits, NoView);
    r := budget.ObjectMember(fields, None);
    if r.Some? {
      r := Some(budget.bytes);
    }
  }

  /** `require_canonical_object_member_parse_limits`. */
  method RequireMember(fields: seq<Field>, limits: ParseLimits, selected: Bytes) returns (r: Option<size_t>)
    requires Ordered(ViewedObject(fields, NoView))
    ensures r.Some? <==>
            && Parse(Canonical(ViewedObject(fields, NoView)), limits).Ok?
            && exists k :: 0 <= k < |fields| && fields[k].key == selected
    ensures r.Some? ==> forall k :: 0 <= k < |fields| && fields[k].key == selected ==>
              r.value == |Canonical(Seen(fields[k].node, NoView))|
  {
    ParseOfCanonical(ViewedObject(fields, NoView), limits);
    NoViewOwned(fields, 0, Some(selected));
    KeysDistinct(fields, NoView);
    HasFieldMeans(fields, selected, |fields|);
    forall k | 0 <= k < |fields| && fields[k].key == selected
      ensures SelectedSize(fields, selected, NoView, |fields|) == |Canonical(Seen(fields[k].node, NoView))|
    {
      SelectedSizeOf(fields, NoView, k, |fields|);
    }
    var budget := new CanonicalBudget(limits, NoView);
    r := budget.ObjectMember(fields, Some(selected));
  }

  /** `require_canonical_object_array_view_member_parse_limits`. */
  method RequireArrayViewMember(fields: seq<Field>, limits: ParseLimits, selected: Bytes, target: Node, entries: seq<Entry>)
    returns (r: Option<size_t>)
    requires target.NArray? ==> Ordered(ViewedObject(fields, View(target.address, entries)))
    ensures r.Some? <==>
            && target.NArray? && |target.items| == |entries|
            && OccursOnceIn(fields, selected, View(target.address, entries))
            && Parse(Canonical(ViewedObject(fields, View(target.address, entries))), limits).Ok?
    ensures r.Some? ==> forall k :: 0 <= k < |fields| && fields[k].key == selected ==>
              r.value == |Canonical(Seen(fields[k].node, View(target.address, entries)))|
  {
    if !target.NArray? || |target.items| != |entries| {
      return None;
    }
    var view := View(target.address, entries);
    ParseOfCanonical(ViewedObject(fields, view), limits);
    OwnershipExact(fields, selected, view);
    KeysDistinct(fields, view);
    HasFieldMeans(fields, selected, |fields|);
    forall k | 0 <= k < |fields| && fields[k].key == selected
      ensures SelectedSize(fields, selected, view, |fields|) == |Canonical(Seen(fields[k].node, view))|
    {
      SelectedSizeOf(fields, view, k, |fields|);
    }
    var budget := new CanonicalBudget(limits, view);
    r := budget.ObjectMember(fields, Some(selected));
  }
}
