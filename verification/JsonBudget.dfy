/**
  * `CanonicalBudget`: deciding what the parser would accept without building text or tree.
  * The array view is identified by address, so values are modelled here with the address of
  * each array; fields of a view may refer to the same array more than once.
  */
module JsonBudget {
  import opened Bytes
  import opened Wrappers
  import opened Utf8
  import opened Json
  import JsonExact

  datatype Node =
    | NNull
    | NBoolean(b: bool)
    | NUnsigned(n: uint64)
    | NString(s: Bytes)
    | NArray(address: nat, items: seq<Node>)
    | NObject(members: seq<Field>)

  /** A member of an object, or a field of a `CanonicalObjectView`. */
  datatype Field = Field(key: Bytes, node: Node)

  /** One array, by address, and the object fields that stand for its elements. */
  datatype ArrayView = NoView | View(address: nat, entries: seq<Entry>)

  datatype Entry = Entry(fields: seq<Field>)

  // ----- what is being measured -----

  /** The value a node holds, with the viewed array replaced by its entries. */
  function Seen(node: Node, view: ArrayView): Value
    decreases view.View?, node, 0
  {
    match node
    case NNull => Null
    case NBoolean(b) => Boolean(b)
    case NUnsigned(n) => Unsigned(n)
    case NString(s) => String(s)
    case NArray(address, items) =>
      if view.View? && view.address == address then Array(SeenEntries(view.entries))
      else Array(SeenItems(items, view))
    case NObject(members) => Object(SeenFields(members, view))
  }

  function SeenItems(items: seq<Node>, view: ArrayView): (r: seq<Value>)
    ensures |r| == |items|
    decreases view.View?, items, 0
  {
    seq(|items|, i requires 0 <= i < |items| => Seen(items[i], view))
  }

  function SeenFields(fields: seq<Field>, view: ArrayView): (r: seq<Member>)
    ensures |r| == |fields|
    decreases view.View?, fields, 0
  {
    seq(|fields|, i requires 0 <= i < |fields| => Member(fields[i].key, Seen(fields[i].node, view)))
  }

  function SeenEntries(entries: seq<Entry>): (r: seq<Value>)
    ensures |r| == |entries|
    decreases false, entries, 0
  {
    seq(|entries|, i requires 0 <= i < |entries| => Object(SeenFields(entries[i].fields, NoView)))
  }

  // ----- occurrences of the viewed array -----

  /** How often a traversal of `node` meets the viewed array. */
  function Occurrences(node: Node, view: ArrayView): nat
    decreases node, 0
  {
    match node
    case NArray(address, items) =>
      if view.View? && view.address == address then 1 else OccurrencesInItems(items, 0, view)
    case NObject(members) => OccurrencesInFields(members, 0, view)
    case _ => 0
  }

  function OccurrencesInItems(items: seq<Node>, i: nat, view: ArrayView): nat
    requires i <= |items|
    decreases items, |items| - i
  {
    if i == |items| then 0 else Occurrences(items[i], view) + OccurrencesInItems(items, i + 1, view)
  }

  function OccurrencesInFields(fields: seq<Field>, i: nat, view: ArrayView): nat
    requires i <= |fields|
    decreases fields, |fields| - i
  {
    if i == |fields| then 0 else Occurrences(fields[i].node, view) + OccurrencesInFields(fields, i + 1, view)
  }

  function OccurrencesInEntries(entries: seq<Entry>, i: nat, view: ArrayView): nat
    requires i <= |entries|
    decreases |entries| - i
  {
    if i == |entries| then 0 else OccurrencesInFields(entries[i].fields, 0, view) + OccurrencesInEntries(entries, i + 1, view)
  }

  /** The entries that replace the array do not themselves contain it. */
  predicate EntriesClean(view: ArrayView) {
    view.View? ==> OccurrencesInEntries(view.entries, 0, view) == 0
  }

  /** A part that meets the array `n` times is admitted: never, or once, selected and for the first time. */
  predicate OwnedOnce(n: nat, view: ArrayView, selected: bool, seen: bool) {
    n == 0 || (n == 1 && selected && !seen && EntriesClean(view))
  }

  /** Two parts in a row are admitted together exactly when each is where it is met. */
  lemma OwnedSplit(a: nat, b: nat, view: ArrayView, selected: bool, seen: bool)
    ensures OwnedOnce(a + b, view, selected, seen) <==>
            OwnedOnce(a, view, selected, seen) && OwnedOnce(b, view, selected, seen || a > 0)
  {
  }

  // ----- the selected member -----

  /** One of the first `n` fields has this key. */
  predicate HasField(fields: seq<Field>, key: Bytes, n: nat)
    requires n <= |fields|
  {
    n > 0 && (fields[n - 1].key == key || HasField(fields, key, n - 1))
  }

  /** Encoded size of the last of the first `n` fields with this key; keys of a view are unique. */
  function SelectedSize(fields: seq<Field>, key: Bytes, view: ArrayView, n: nat): nat
    requires n <= |fields|
  {
    if n == 0 then 0
    else if fields[n - 1].key == key then |Canonical(Seen(fields[n - 1].node, view))|
    else SelectedSize(fields, key, view, n - 1)
  }

  /** From field `i` on every occurrence of the viewed array is admitted where it is met. */
  predicate OwnedFrom(fields: seq<Field>, i: nat, selected: Option<Bytes>, view: ArrayView, seen: bool)
    requires i <= |fields|
    decreases |fields| - i
  {
    i == |fields| ||
    (var n := Occurrences(fields[i].node, view);
     && OwnedOnce(n, view, selected == Some(fields[i].key), seen)
     && OwnedFrom(fields, i + 1, selected, view, seen || n > 0))
  }

  /** Without an occurrence the view changes nothing. */
  lemma {:induction false} UntouchedNode(node: Node, view: ArrayView)
    requires Occurrences(node, view) == 0
    ensures Seen(node, view) == Seen(node, NoView)
    decreases node, 0
  {
    match node
    case NArray(_, items) => UntouchedItems(items, 0, view);
      assert SeenItems(items, view) == SeenItems(items, NoView);
    case NObject(members) => UntouchedFields(members, 0, view);
      assert SeenFields(members, view) == SeenFields(members, NoView);
    case _ =>
  }

  lemma {:induction false} UntouchedItems(items: seq<Node>, i: nat, view: ArrayView)
    requires i <= |items| && OccurrencesInItems(items, i, view) == 0
    ensures forall k :: i <= k < |items| ==> Seen(items[k], view) == Seen(items[k], NoView)
    decreases items, |items| - i
  {
    if i < |items| {
      UntouchedNode(items[i], view);
      UntouchedItems(items, i + 1, view);
    }
  }

  lemma {:induction false} UntouchedFields(fields: seq<Field>, i: nat, view: ArrayView)
    requires i <= |fields| && OccurrencesInFields(fields, i, view) == 0
    ensures forall k :: i <= k < |fields| ==> Seen(fields[k].node, view) == Seen(fields[k].node, NoView)
    decreases fields, |fields| - i
  {
    if i < |fields| {
      UntouchedNode(fields[i].node, view);
      UntouchedFields(fields, i + 1, view);
    }
  }

  // ----- the budget object -----

  /** `v` fits what is left of the byte, value, depth and string budgets. */
  ghost predicate Affordable(v: Value, lim: ParseLimits, depth: nat, bytes: nat, values: nat) {
    Fits(v, lim, depth, values) && bytes + |Canonical(v)| <= lim.maxBytes
  }

  /** Encoded size of elements `i` and later, with their commas. */
  function ItemsSize(vs: seq<Value>, i: nat): nat
    requires i <= |vs|
    decreases |vs| - i
  {
    if i == |vs| then 0 else |Separator(i)| + |Canonical(vs[i])| + ItemsSize(vs, i + 1)
  }

  function MemberSize(m: Member): nat {
    |Quoted(m.key)| + 1 + |Canonical(m.value)|
  }

  /** Encoded size of members `i` and later, with their commas. */
  function MembersSize(ms: seq<Member>, i: nat): nat
    requires i <= |ms|
    decreases |ms| - i
  {
    if i == |ms| then 0 else |Separator(i)| + MemberSize(ms[i]) + MembersSize(ms, i + 1)
  }

  lemma {:induction false} ItemsSizeExact(vs: seq<Value>, i: nat)
    requires i <= |vs|
    ensures |ItemsFrom(vs, i)| == ItemsSize(vs, i) + 1
    decreases |vs| - i
  {
    if i < |vs| {
      ItemsSizeExact(vs, i + 1);
    }
  }

  lemma {:induction false} MembersSizeExact(ms: seq<Member>, i: nat)
    requires i <= |ms|
    ensures |MembersFrom(ms, i)| == MembersSize(ms, i) + 1
    decreases |ms| - i
  {
    if i < |ms| {
      MembersSizeExact(ms, i + 1);
    }
  }

  /** Elements `i` and later of an array at `depth`, its brackets already paid for. */
  ghost predicate ItemsAffordable(vs: seq<Value>, i: nat, lim: ParseLimits, depth: nat, bytes: nat, values: nat)
    requires i <= |vs|
  {
    && AdmissibleItems(vs, i, lim, lim.maxDepth - depth - 1)
    && values + CountItems(vs, i) <= lim.maxValues
    && bytes + ItemsSize(vs, i) <= lim.maxBytes
  }

  lemma ItemsAffordableTurn(vs: seq<Value>, i: nat, lim: ParseLimits, depth: nat, bytes: nat, values: nat)
    requires i < |vs|
    ensures var start := bytes + |Separator(i)|;
            ItemsAffordable(vs, i, lim, depth, bytes, values) <==>
            && Affordable(vs[i], lim, depth + 1, start, values)
            && ItemsAffordable(vs, i + 1, lim, depth, start + |Canonical(vs[i])|, values + Count(vs[i]))
    ensures ItemsSize(vs, i) == |Separator(i)| + |Canonical(vs[i])| + ItemsSize(vs, i + 1)
    ensures CountItems(vs, i) == Count(vs[i]) + CountItems(vs, i + 1)
  {
  }

  /** A member at index `i` of an object at `depth`, with its comma. */
  ghost predicate MemberAffordable(m: Member, i: nat, lim: ParseLimits, depth: nat, bytes: nat, values: nat) {
    && StringFits(m.key, lim)
    && Affordable(m.value, lim, depth + 1, bytes + |Separator(i)| + |Quoted(m.key)| + 1, values)
  }

  ghost predicate MembersAffordable(ms: seq<Member>, i: nat, lim: ParseLimits, depth: nat, bytes: nat, values: nat)
    requires i <= |ms|
  {
    && AdmissibleMembers(ms, i, lim, lim.maxDepth - depth - 1)
    && values + CountMembers(ms, i) <= lim.maxValues
    && bytes + MembersSize(ms, i) <= lim.maxBytes
  }

  lemma MembersAffordableTurn(ms: seq<Member>, i: nat, lim: ParseLimits, depth: nat, bytes: nat, values: nat)
    requires i < |ms|
    ensures MembersAffordable(ms, i, lim, depth, bytes, values) <==>
            && MemberAffordable(ms[i], i, lim, depth, bytes, values)
            && MembersAffordable(ms, i + 1, lim, depth, bytes + |Separator(i)| + MemberSize(ms[i]), values + Count(ms[i].value))
    ensures MembersSize(ms, i) == |Separator(i)| + MemberSize(ms[i]) + MembersSize(ms, i + 1)
    ensures CountMembers(ms, i) == Count(ms[i].value) + CountMembers(ms, i + 1)
  {
  }

  /** From field `i` on: the members are affordable and the viewed array is met as it may be. */
  ghost predicate FieldsPayable(fields: seq<Field>, i: nat, view: ArrayView, lim: ParseLimits, depth: nat, bytes: nat, values: nat,
                                selected: bool, seen: bool)
    requires i <= |fields|
  {
    && MembersAffordable(SeenFields(fields, view), i, lim, depth, bytes, values)
    && OwnedOnce(OccurrencesInFields(fields, i, view), view, selected, seen)
  }

  /** One field is paid for, then the rest. */
  lemma FieldsTurn(fields: seq<Field>, i: nat, view: ArrayView, lim: ParseLimits, depth: nat, bytes: nat, values: nat,
                   selected: bool, seen: bool)
    requires i < |fields|
    ensures var m := Member(fields[i].key, Seen(fields[i].node, view));
            var n := Occurrences(fields[i].node, view);
            FieldsPayable(fields, i, view, lim, depth, bytes, values, selected, seen) <==>
            && MemberAffordable(m, i, lim, depth, bytes, values) && OwnedOnce(n, view, selected, seen)
            && FieldsPayable(fields, i + 1, view, lim, depth, bytes + |Separator(i)| + MemberSize(m), values + Count(m.value),
                             selected, seen || n > 0)
  {
    OwnedSplit(Occurrences(fields[i].node, view), OccurrencesInFields(fields, i + 1, view), view, selected, seen);
    MembersAffordableTurn(SeenFields(fields, view), i, lim, depth, bytes, values);
  }

  /** An array pays for its own place and brackets, then for its elements. */
  lemma ArrayAffordable(vs: seq<Value>, lim: ParseLimits, depth: nat, bytes: nat, values: nat)
    ensures Affordable(Array(vs), lim, depth, bytes, values) <==>
            && depth <= lim.maxDepth && values + 1 <= lim.maxValues && bytes + 2 <= lim.maxBytes
            && ItemsAffordable(vs, 0, lim, depth, bytes + 2, values + 1)
    ensures |Canonical(Array(vs))| == 2 + ItemsSize(vs, 0)
  {
    ItemsSizeExact(vs, 0);
  }

  /** An object pays for its own place and braces, then for its members. */
  lemma ObjectAffordable(ms: seq<Member>, lim: ParseLimits, depth: nat, bytes: nat, values: nat)
    ensures Affordable(Object(ms), lim, depth, bytes, values) <==>
            && depth <= lim.maxDepth && values + 1 <= lim.maxValues && bytes + 2 <= lim.maxBytes
            && MembersAffordable(ms, 0, lim, depth, bytes + 2, values + 1)
    ensures |Canonical(Object(ms))| == 2 + MembersSize(ms, 0)
  {
    MembersSizeExact(ms, 0);
  }

  /** An entry of the view is an object met one level below the array. */
  lemma EntryAffordable(fields: seq<Field>, view: ArrayView, lim: ParseLimits, depth: nat, bytes: nat, values: nat)
    ensures var v := Object(SeenFields(fields, NoView));
            && (Affordable(v, lim, depth + 1, bytes, values) <==>
                && depth + 1 <= lim.maxDepth && values + 1 <= lim.maxValues && bytes + 2 <= lim.maxBytes
                && MembersAffordable(SeenFields(fields, NoView), 0, lim, depth + 1, bytes + 2, values + 1))
            && |Canonical(v)| == 2 + MembersSize(SeenFields(fields, NoView), 0)
            && Count(v) == 1 + CountMembers(SeenFields(fields, NoView), 0)
    ensures OccurrencesInFields(fields, 0, view) == 0 ==> SeenFields(fields, view) == SeenFields(fields, NoView)
  {
    ObjectAffordable(SeenFields(fields, NoView), lim, depth + 1, bytes, values);
    if OccurrencesInFields(fields, 0, view) == 0 {
      UntouchedFields(fields, 0, view);
    }
  }

  class CanonicalBudget {
    const limits: ParseLimits
    const view: ArrayView
    var bytes: size_t
    var values: size_t
    var replacementSeen: bool
    var inSelected: bool

    constructor (limits: ParseLimits, view: ArrayView)
      ensures this.limits == limits && this.view == view
      ensures Valid() && bytes == 0 && values == 0 && !replacementSeen && !inSelected
    {
      this.limits := limits;
      this.view := view;
      bytes := 0;
      values := 0;
      replacementSeen := false;
      inSelected := false;
    }

    /** The spent budgets never pass their limits, so no subtraction or addition wraps. */
    ghost predicate Valid()
      reads this
    {
      bytes <= limits.maxBytes && values <= limits.maxValues
    }

    method Bytes(count: size_t) returns (ok: bool)
      requires Valid()
      modifies this`bytes
      ensures Valid() && ok == (old(bytes) + count <= limits.maxBytes)
      ensures bytes == if ok then old(bytes) + count else old(bytes)
    {
      if count > limits.maxBytes - bytes {
        return false;
      }
      bytes := bytes + count;
      return true;
    }

    method CountValue(depth: nat) returns (ok: bool)
      requires Valid()
      modifies this`values
      ensures Valid() && ok == (depth <= limits.maxDepth && old(values) + 1 <= limits.maxValues)
      ensures values == if ok then old(values) + 1 else old(values)
    {
      if depth > limits.maxDepth || values == limits.maxValues {
        return false;
      }
      values := values + 1;
      return true;
    }

    /** A quoted string is charged its encoded length, not its decoded one. */
    method Text(text: Bytes) returns (ok: bool)
      requires Valid()
      modifies this`bytes
      ensures Valid() && ok == (StringFits(text, limits) && old(bytes) + |Quoted(text)| <= limits.maxBytes)
      ensures ok ==> bytes == old(bytes) + |Quoted(text)|
    {
      if |text| > limits.maxStringBytes {
        return false;
      }
      var valid := ValidUtf8(text);
      if !valid {
        return false;
      }
      ok := Bytes(2);
      if !ok {
        return;
      }
      var i := 0;
      while i < |text|
        invariant 0 <= i <= |text| && Valid()
        invariant bytes + |EscapedFrom(text, i)| - 1 == old(bytes) + |Quoted(text)|
      {
        var ch := text[i];
        if ch == 0x22 || ch == 0x5C || ch == 0x08 || ch == 0x0C || ch == 0x0A || ch == 0x0D || ch == 0x09 {
          ok := Bytes(2);
        } else {
          ok := Bytes(if ch < 0x20 then 6 else 1);
        }
        if !ok {
          return;
        }
        i := i + 1;
      }
      return true;
    }

    method Digits(n: uint64) returns (digits: size_t)
      ensures digits == |Decimal(n)|
    {
      JsonExact.DecimalLength(n);
      var number := n;
      digits := 1;
      while number >= 10
        invariant 0 <= number <= n && digits <= |Decimal(n)|
        invariant digits + |Decimal(number)| - 1 == |Decimal(n)|
      {
        assert |Decimal(number)| == |Decimal(number / 10)| + 1;
        number := number / 10;
        digits := digits + 1;
      }
    }

    /** What a successful call leaves behind: exactly so many bytes and values spent. */
    twostate predicate Spent(encoded: nat, counted: nat, occurrences: nat)
      reads this
    {
      && bytes == old(bytes) + encoded && values == old(values) + counted
      && replacementSeen == (old(replacementSeen) || occurrences > 0)
      && inSelected == old(inSelected)
    }

    method NodeValue(item: Node, depth: nat) returns (ok: bool)
      requires Valid()
      modifies this`bytes, this`values, this`replacementSeen
      ensures Valid()
      ensures ok == (Affordable(Seen(item, view), limits, depth, old(bytes), old(values)) &&
                     OwnedOnce(Occurrences(item, view), view, inSelected, old(replacementSeen)))
      ensures ok ==> Spent(|Canonical(Seen(item, view))|, Count(Seen(item, view)), Occurrences(item, view))
      decreases !replacementSeen, item, 1
    {
      ok := CountValue(depth);
      if !ok {
        return;
      }
      match item
      case NArray(address, items) =>
        ok := ArrayParts(address, items, depth);
      case NObject(members) =>
        ObjectAffordable(SeenFields(members, view), limits, depth, old(bytes), old(values));
        ok := Bytes(2);
        if !ok {
          return;
        }
        ok := Fields(members, depth);
      case _ =>
        ok := Scalar(item);
    }

    /** The brackets and elements of an array, or of the view in its place. */
    method ArrayParts(address: nat, items: seq<Node>, depth: nat) returns (ok: bool)
      requires Valid() && depth <= limits.maxDepth && values > 0
      modifies this`bytes, this`values, this`replacementSeen
      ensures Valid()
      ensures var item := NArray(address, items);
              && ok == (Affordable(Seen(item, view), limits, depth, old(bytes), old(values) - 1) &&
                        OwnedOnce(Occurrences(item, view), view, inSelected, old(replacementSeen)))
              && (ok ==> Spent(|Canonical(Seen(item, view))|, Count(Seen(item, view)) - 1, Occurrences(item, view)))
      decreases !replacementSeen, NArray(address, items), 0
    {
      ArrayAffordable(if view.View? && view.address == address then SeenEntries(view.entries) else SeenItems(items, view),
                      limits, depth, bytes, values - 1);
      ok := Bytes(2);
      if !ok {
        return;
      }
      if view.View? && view.address == address {
        if !inSelected || replacementSeen {
          return false;
        }
        replacementSeen := true;
        ok := Entries(view.entries, depth);
      } else {
        ok := Items(items, depth);
      }
    }

    /** A value without parts, its place already counted. */
    method Scalar(item: Node) returns (ok: bool)
      requires Valid() && !item.NArray? && !item.NObject?
      modifies this`bytes
      ensures Valid() && Count(Seen(item, view)) == 1 && Occurrences(item, view) == 0
      ensures var text := Canonical(Seen(item, view));
              && ok == (old(bytes) + |text| <= limits.maxBytes && (item.NString? ==> StringFits(item.s, limits)))
              && (ok ==> bytes == old(bytes) + |text|)
    {
      match item
      case NNull =>
        ok := Bytes(4);
      case NBoolean(b) =>
        ok := Bytes(if b then 4 else 5);
      case NUnsigned(n) =>
        var digits := Digits(n);
        ok := Bytes(digits);
      case NString(s) =>
        ok := Text(s);
    }

    method Child(item: Node, depth: nat) returns (ok: bool)
      requires Valid()
      modifies this`bytes, this`values, this`replacementSeen
      ensures Valid()
      ensures ok == (Affordable(Seen(item, view), limits, depth + 1, old(bytes), old(values)) &&
                     OwnedOnce(Occurrences(item, view), view, inSelected, old(replacementSeen)))
      ensures ok ==> Spent(|Canonical(Seen(item, view))|, Count(Seen(item, view)), Occurrences(item, view))
      decreases !replacementSeen, item, 2
    {
      if depth >= limits.maxDepth {
        return false;
      }
      ok := NodeValue(item, depth + 1);
    }

    /** The elements of an array whose brackets are already paid for. */
    method Items(items: seq<Node>, depth: nat) returns (ok: bool)
      requires Valid()
      modifies this`bytes, this`values, this`replacementSeen
      ensures Valid()
      ensures var vs := SeenItems(items, view);
              && ok == (ItemsAffordable(vs, 0, limits, depth, old(bytes), old(values)) &&
                        OwnedOnce(OccurrencesInItems(items, 0, view), view, inSelected, old(replacementSeen)))
              && (ok ==> Spent(ItemsSize(vs, 0), CountItems(vs, 0), OccurrencesInItems(items, 0, view)))
      decreases !replacementSeen, items
    {
      ghost var vs := SeenItems(items, view);
      ghost var goal := ItemsAffordable(vs, 0, limits, depth, bytes, values) &&
                        OwnedOnce(OccurrencesInItems(items, 0, view), view, inSelected, replacementSeen);
      var i := 0;
      while i < |items|
        invariant 0 <= i <= |items| && Valid()
        invariant goal == (ItemsAffordable(vs, i, limits, depth, bytes, values) &&
                           OwnedOnce(OccurrencesInItems(items, i, view), view, inSelected, replacementSeen))
        invariant bytes + ItemsSize(vs, i) == old(bytes) + ItemsSize(vs, 0)
        invariant values + CountItems(vs, i) == old(values) + CountItems(vs, 0)
        invariant OccurrencesInItems(items, i, view) <= OccurrencesInItems(items, 0, view)
        invariant replacementSeen == (old(replacementSeen) || OccurrencesInItems(items, 0, view) > OccurrencesInItems(items, i, view))
      {
        ItemsAffordableTurn(vs, i, limits, depth, bytes, values);
        if i > 0 {
          ok := Bytes(1);
          if !ok {
            return;
          }
        }
        OwnedSplit(Occurrences(items[i], view), OccurrencesInItems(items, i + 1, view), view, inSelected, replacementSeen);
        ok := Child(items[i], depth);
        if !ok {
          return;
        }
        i := i + 1;
      }
      return true;
    }

    /** `member`: a comma unless it comes first, the key, the colon and the value. */
    method FieldMember(field: Field, depth: nat, i: nat) returns (ok: bool, encoded: size_t)
      requires Valid()
      modifies this`bytes, this`values, this`replacementSeen
      ensures Valid()
      ensures var m := Member(field.key, Seen(field.node, view));
              && ok == (MemberAffordable(m, i, limits, depth, old(bytes), old(values)) &&
                        OwnedOnce(Occurrences(field.node, view), view, inSelected, old(replacementSeen)))
              && (ok ==> Spent(|Separator(i)| + MemberSize(m), Count(m.value), Occurrences(field.node, view)) &&
                         encoded == |Canonical(m.value)|)
      decreases !replacementSeen, field, 2
    {
      encoded := 0;
      if i > 0 {
        ok := Bytes(1);
        if !ok {
          return;
        }
      }
      ok := Text(field.key);
      if !ok {
        return;
      }
      ok := Bytes(1);
      if !ok {
        return;
      }
      var before := bytes;
      ok := Child(field.node, depth);
      if ok {
        encoded := bytes - before;
      }
    }

    /** What fields `i` up to `j` take from the budgets. */
    twostate predicate PaidFields(fields: seq<Field>, i: nat, j: nat)
      requires i <= |fields| && j <= |fields|
      reads this
    {
      var ms := SeenFields(fields, view);
      && bytes + MembersSize(ms, j) == old(bytes) + MembersSize(ms, i)
      && values + CountMembers(ms, j) == old(values) + CountMembers(ms, i)
      && OccurrencesInFields(fields, j, view) <= OccurrencesInFields(fields, i, view)
      && replacementSeen == (old(replacementSeen) || OccurrencesInFields(fields, j, view) < OccurrencesInFields(fields, i, view))
    }

    /** One turn of the member loop. */
    method FieldTurn(fields: seq<Field>, i: nat, depth: nat) returns (ok: bool)
      requires Valid() && i < |fields|
      modifies this`bytes, this`values, this`replacementSeen
      ensures Valid()
      ensures FieldsPayable(fields, i, view, limits, depth, old(bytes), old(values), inSelected, old(replacementSeen)) <==>
              ok && FieldsPayable(fields, i + 1, view, limits, depth, bytes, values, inSelected, replacementSeen)
      ensures ok ==> PaidFields(fields, i, i + 1)
      decreases !replacementSeen, fields, 0
    {
      FieldsTurn(fields, i, view, limits, depth, bytes, values, inSelected, replacementSeen);
      var encoded;
      ok, encoded := FieldMember(fields[i], depth, i);
    }

    /** The members of an object whose braces are already paid for. */
    method Fields(fields: seq<Field>, depth: nat) returns (ok: bool)
      requires Valid()
      modifies this`bytes, this`values, this`replacementSeen
      ensures Valid()
      ensures var ms := SeenFields(fields, view);
              && ok == (MembersAffordable(ms, 0, limits, depth, old(bytes), old(values)) &&
                        OwnedOnce(OccurrencesInFields(fields, 0, view), view, inSelected, old(replacementSeen)))
              && (ok ==> Spent(MembersSize(ms, 0), CountMembers(ms, 0), OccurrencesInFields(fields, 0, view)))
      decreases !replacementSeen, fields, 2
    {
      ok := FieldLoop(fields, depth);
    }

    method FieldLoop(fields: seq<Field>, depth: nat) returns (ok: bool)
      requires Valid()
      modifies this`bytes, this`values, this`replacementSeen
      ensures Valid()
      ensures ok == FieldsPayable(fields, 0, view, limits, depth, old(bytes), old(values), inSelected, old(replacementSeen))
      ensures ok ==> PaidFields(fields, 0, |fields|)
      decreases !replacementSeen, fields, 1
    {
      ghost var goal := FieldsPayable(fields, 0, view, limits, depth, bytes, values, inSelected, replacementSeen);
      var i := 0;
      while i < |fields|
        invariant 0 <= i <= |fields| && Valid()
        invariant goal == FieldsPayable(fields, i, view, limits, depth, bytes, values, inSelected, replacementSeen)
        invariant PaidFields(fields, 0, i)
      {
        ok := FieldTurn(fields, i, depth);
        if !ok {
          return;
        }
        i := i + 1;
      }
      return true;
    }

    /** One entry standing for an element of the viewed array, an object one level down. */
    method EntryValue(entry: Entry, depth: nat) returns (ok: bool)
      requires Valid() && replacementSeen
      modifies this`bytes, this`values, this`replacementSeen
      ensures Valid()
      ensures var v := Object(SeenFields(entry.fields, NoView));
              && ok == (Affordable(v, limits, depth + 1, old(bytes), old(values)) && OccurrencesInFields(entry.fields, 0, view) == 0)
              && (ok ==> Spent(|Canonical(v)|, Count(v), 0))
      decreases !replacementSeen, entry
    {
      EntryAffordable(entry.fields, view, limits, depth, bytes, values);
      if depth >= limits.maxDepth {
        return false;
      }
      ok := CountValue(depth + 1);
      if !ok {
        return;
      }
      ok := Bytes(2);
      if !ok {
        return;
      }
      ok := Fields(entry.fields, depth + 1);
    }

    /** The entries standing for the viewed array. */
    method Entries(entries: seq<Entry>, depth: nat) returns (ok: bool)
      requires Valid() && replacementSeen && view.View? && entries == view.entries
      modifies this`bytes, this`values, this`replacementSeen
      ensures Valid()
      ensures var vs := SeenEntries(entries);
              && ok == (ItemsAffordable(vs, 0, limits, depth, old(bytes), old(values)) && EntriesClean(view))
              && (ok ==> Spent(ItemsSize(vs, 0), CountItems(vs, 0), 0))
      decreases !replacementSeen, entries
    {
      ghost var vs := SeenEntries(entries);
      ghost var goal := ItemsAffordable(vs, 0, limits, depth, bytes, values) && EntriesClean(view);
      var i := 0;
      while i < |entries|
        invariant 0 <= i <= |entries| && Valid() && replacementSeen
        invariant goal == (ItemsAffordable(vs, i, limits, depth, bytes, values) && OccurrencesInEntries(entries, i, view) == 0)
        invariant bytes + ItemsSize(vs, i) == old(bytes) + ItemsSize(vs, 0)
        invariant values + CountItems(vs, i) == old(values) + CountItems(vs, 0)
      {
        ItemsAffordableTurn(vs, i, limits, depth, bytes, values);
        if i > 0 {
          ok := Bytes(1);
          if !ok {
            return;
          }
        }
        ok := EntryValue(entries[i], depth);
        if !ok {
          return;
        }
        i := i + 1;
      }
      return true;
    }

    /** A member of the root object, in the selected member's scope or outside it. */
    method RootMember(field: Field, isSelected: bool, i: nat) returns (ok: bool, encoded: size_t)
      requires Valid() && !inSelected
      modifies this
      ensures Valid()
      ensures var m := Member(field.key, Seen(field.node, view));
              && ok == (MemberAffordable(m, i, limits, 0, old(bytes), old(values)) &&
                        OwnedOnce(Occurrences(field.node, view), view, isSelected, old(replacementSeen)))
              && (ok ==> Spent(|Separator(i)| + MemberSize(m), Count(m.value), Occurrences(field.node, view)) &&
                         encoded == |Canonical(m.value)|)
    {
      inSelected := isSelected;
      ok, encoded := FieldMember(field, 0, i);
      inSelected := false;
    }

    /** The members of the root object, and the encoded size of the selected member's value. */
    method RootMembers(fields: seq<Field>, selected: Option<Bytes>) returns (ok: bool, found: bool, selectedBytes: size_t)
      requires Valid() && !replacementSeen && !inSelected
      modifies this
      ensures Valid()
      ensures var ms := SeenFields(fields, view);
              && ok == (MembersAffordable(ms, 0, limits, 0, old(bytes), old(values)) && OwnedFrom(fields, 0, selected, view, false))
              && (ok ==> bytes == old(bytes) + MembersSize(ms, 0) && replacementSeen == (OccurrencesInFields(fields, 0, view) > 0))
              && (ok && selected.Some? ==>
                    && found == HasField(fields, selected.value, |fields|)
                    && selectedBytes == SelectedSize(fields, selected.value, view, |fields|))
    {
      ghost var ms := SeenFields(fields, view);
      ghost var affordable := MembersAffordable(ms, 0, limits, 0, bytes, values);
      ghost var owned := OwnedFrom(fields, 0, selected, view, false);
      ghost var size, met := bytes + MembersSize(ms, 0), OccurrencesInFields(fields, 0, view);
      ok, found, selectedBytes := true, false, 0;
      var i := 0;
      while i < |fields|
        invariant 0 <= i <= |fields| && Valid() && !inSelected && ok
        invariant affordable == MembersAffordable(ms, i, limits, 0, bytes, values)
        invariant owned == OwnedFrom(fields, i, selected, view, replacementSeen)
        invariant bytes + MembersSize(ms, i) == size && OccurrencesInFields(fields, i, view) <= met
        invariant replacementSeen == (met > OccurrencesInFields(fields, i, view))
        invariant selected.Some? ==> found == HasField(fields, selected.value, i)
        invariant selected.Some? ==> selectedBytes == SelectedSize(fields, selected.value, view, i)
      {
        assert ms[i] == Member(fields[i].key, Seen(fields[i].node, view));
        MembersAffordableTurn(ms, i, limits, 0, bytes, values);
        var isSelected := selected == Some(fields[i].key);
        var encoded;
        ok, encoded := RootMember(fields[i], isSelected, i);
        if !ok {
          return;
        }
        if isSelected {
          found, selectedBytes := true, encoded;
        }
        i := i + 1;
      }
    }

    /** `object_member`: the whole root object; some size exactly when it is admitted. */
    method ObjectMember(fields: seq<Field>, selected: Option<Bytes>) returns (r: Option<size_t>)
      requires bytes == 0 && values == 0 && !replacementSeen && !inSelected
      modifies this
      ensures var ms := SeenFields(fields, view);
              && (r.Some? <==>
                  && Affordable(Object(ms), limits, 0, 0, 0)
                  && (selected.Some? ==> HasField(fields, selected.value, |fields|))
                  && OwnedFrom(fields, 0, selected, view, false)
                  && (view.View? ==> OccurrencesInFields(fields, 0, view) > 0))
              && (r.Some? ==> bytes == |Canonical(Object(ms))|)
              && (r.Some? && selected.Some? ==> r.value == SelectedSize(fields, selected.value, view, |fields|))
    {
      ObjectAffordable(SeenFields(fields, view), limits, 0, 0, 0);
      var ok := CountValue(0);
      if !ok {
        return None;
      }
      ok := Bytes(2);
      if !ok {
        return None;
      }
      var found, selectedBytes;
      ok, found, selectedBytes := RootMembers(fields, selected);
      if !ok || (selected.Some? && !found) {
        return None;
      }
      if view.View? && !replacementSeen {
        return None;
      }
      return Some(selectedBytes);
    }
  }
}
