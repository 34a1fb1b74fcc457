/**
  * What the Python resolver may be handed: values of any type. Reading the declarations gives
  * typed components or the first error, and an untyped request is an unknown one.
  */
module PythonInput {
  import opened Sequences
  import opened Wrappers
  import opened ComponentGraph
  import opened ComponentResolver

  /** An element of a list: a string, or something else and how it prints. */
  datatype Item = Str(text: Id) | Other(shown: Id)

  /** A declaration; a field is absent when it is missing or of another type. */
  datatype Entry =
    | NoDict
    | Dict(id: Option<Id>, required: Option<bool>, defaultSelected: Option<bool>,
           dependencies: Option<seq<Item>>, conflicts: Option<seq<Item>>)

  predicate Typed(items: seq<Item>) {
    forall i :: 0 <= i < |items| ==> items[i].Str?
  }

  function Texts(items: seq<Item>): (r: seq<Id>)
    requires Typed(items)
    ensures |r| == |items| && forall i :: 0 <= i < |items| ==> r[i] == items[i].text
  {
    seq(|items|, i requires 0 <= i < |items| => items[i].text)
  }

  function Items(ids: seq<Id>): (r: seq<Item>)
    ensures |r| == |ids| && forall i :: 0 <= i < |ids| ==> r[i] == Str(ids[i])
  {
    seq(|ids|, i requires 0 <= i < |ids| => Str(ids[i]))
  }

  /** `_references` accepts the value. */
  predicate References(value: Option<seq<Item>>) {
    value.Some? && Typed(value.value) && ValidReferences(Texts(value.value))
  }

  predicate TypedEntry(e: Entry) {
    && e.Dict? && e.id.Some? && e.required.Some? && e.defaultSelected.Some?
    && e.dependencies.Some? && Typed(e.dependencies.value) && e.conflicts.Some? && Typed(e.conflicts.value)
  }

  function Decoded(e: Entry): Component
    requires TypedEntry(e)
  {
    Component(e.id.value, e.required.value, e.defaultSelected.value, Texts(e.dependencies.value), Texts(e.conflicts.value))
  }

  function Encoded(c: Component): Entry {
    Dict(Some(c.id), Some(c.required), Some(c.defaultSelected), Some(Items(c.dependencies)), Some(Items(c.conflicts)))
  }

  function EncodedAll(cs: seq<Component>): (r: seq<Entry>)
    ensures |r| == |cs| && forall i :: 0 <= i < |cs| ==> r[i] == Encoded(cs[i])
  {
    seq(|cs|, i requires 0 <= i < |cs| => Encoded(cs[i]))
  }

  // ----- reading the declarations -----

  /** Why an entry is refused when `done` were read before it. */
  function EntryError(e: Entry, done: seq<Component>, limit: nat): Option<Error> {
    if e.NoDict? || e.id.None? || !ValidIdentifier(e.id.value) then Some(InvalidComponent)
    else if e.id.value in Ids(done) then Some(DuplicateComponent(e.id.value))
    else if e.required.None? || e.defaultSelected.None? then Some(InvalidFlags(e.id.value))
    else if !References(e.dependencies) then Some(InvalidReferences(e.id.value, Requires))
    else if !References(e.conflicts) then Some(InvalidReferences(e.id.value, Conflicts))
    else if TotalEdges(done, |done|) + Edges(Decoded(e)) > limit then Some(EdgeLimit)
    else None
  }

  datatype Reading = Read(components: seq<Component>) | Refused(error: Error)

  /** The loop over the entries, `done` being what the first ones gave. */
  function ReadFrom(entries: seq<Entry>, done: seq<Component>, limit: nat): Reading
    requires |done| <= |entries|
    decreases |entries| - |done|
  {
    if |done| == |entries| then Read(done)
    else
      match EntryError(entries[|done|], done, limit)
      case Some(e) => Refused(e)
      case None => ReadFrom(entries, done + [Decoded(entries[|done|])], limit)
  }

  lemma IdsOfPrefix(cs: seq<Component>, n: nat)
    requires n <= |cs|
    ensures Ids(cs)[..n] == Ids(cs[..n])
  {
  }

  lemma DecodedEncoded(c: Component)
    ensures TypedEntry(Encoded(c)) && Decoded(Encoded(c)) == c
  {
    assert Texts(Items(c.dependencies)) == c.dependencies;
    assert Texts(Items(c.conflicts)) == c.conflicts;
  }

  lemma TypedEntryError(cs: seq<Component>, n: nat, limit: nat)
    requires n < |cs|
    ensures BuildError(cs, n, limit) ==
            match EntryError(Encoded(cs[n]), cs[..n], limit) case Some(e) => Some(e) case None => BuildError(cs, n + 1, limit)
  {
    DecodedEncoded(cs[n]);
    PrefixKept(cs, cs[..n], n);
    IdsOfPrefix(cs, n);
  }

  /** On typed declarations the reading fails where, and with what, the typed check fails. */
  lemma {:induction false} TypedReading(cs: seq<Component>, n: nat, limit: nat)
    requires n <= |cs|
    ensures ReadFrom(EncodedAll(cs), cs[..n], limit) ==
            match BuildError(cs, n, limit) case Some(e) => Refused(e) case None => Read(cs)
    decreases |cs| - n
  {
    if n == |cs| {
      TakeAll(cs);
    } else {
      DecodedEncoded(cs[n]);
      TypedEntryError(cs, n, limit);
      TakeOneMore(cs, n);
      TypedReading(cs, n + 1, limit);
    }
  }

  /** What was read is the encoding of typed, sound declarations. */
  lemma {:induction false} ReadingIsTyped(entries: seq<Entry>, done: seq<Component>, limit: nat)
    requires |done| <= |entries| && ReadFrom(entries, done, limit).Read?
    requires forall k :: 0 <= k < |done| ==> entries[k] == Encoded(done[k])
    ensures entries == EncodedAll(ReadFrom(entries, done, limit).components)
    decreases |entries| - |done|
  {
    if |done| < |entries| {
      var e := entries[|done|];
      assert Items(Texts(e.dependencies.value)) == e.dependencies.value;
      assert Items(Texts(e.conflicts.value)) == e.conflicts.value;
      ReadingIsTyped(entries, done + [Decoded(e)], limit);
    }
  }

  // ----- requests -----

  /** How many requests precede the first one that is no string. */
  function TypedPrefix(requested: seq<Item>, i: nat): (n: nat)
    requires i <= |requested|
    ensures i <= n <= |requested| && (forall k :: i <= k < n ==> requested[k].Str?)
    ensures n < |requested| ==> requested[n].Other?
    decreases |requested| - i
  {
    if i < |requested| && requested[i].Str? then TypedPrefix(requested, i + 1) else i
  }

  /** The requests before the first one that is no string. */
  function Known(requested: seq<Item>): seq<Id> {
    Texts(requested[..TypedPrefix(requested, 0)])
  }

  /** From the outcome of those requests: one that is no string is refused where it stands, before any conflict. */
  function WithRest(r: Result, requested: seq<Item>): Result {
    var n := TypedPrefix(requested, 0);
    if n == |requested| || (r.Err? && !r.error.Conflict?) then r else Err(UnknownRequested(requested[n].shown))
  }

  /** `resolve_component_ids` on arguments of any type. */
  ghost function ResolveAny(components: Option<seq<Entry>>, requested: Option<seq<Item>>, includeDefaults: Option<bool>,
                            componentLimit: Option<int>, edgeLimit: Option<int>): Result
  {
    if includeDefaults.None? || componentLimit.None? || edgeLimit.None? then Err(InvalidBudget)
    else if !(1 <= componentLimit.value <= MAX_COMPONENTS && 0 <= edgeLimit.value <= MAX_EDGES) then Err(InvalidBudget)
    else if components.None? || components.value == [] then Err(InvalidComponents)
    else if |components.value| > componentLimit.value then Err(ComponentLimit)
    else if requested.None? || |requested.value| > componentLimit.value then Err(InvalidRequests)
    else
      match ReadFrom(components.value, [], edgeLimit.value)
      case Refused(e) => Err(e)
      case Read(cs) =>
        WithRest(Resolve(cs, Known(requested.value), includeDefaults.value, componentLimit.value, edgeLimit.value), requested.value)
  }

  /** On typed arguments this is the typed resolution. */
  lemma TypedResolution(cs: seq<Component>, requested: seq<Id>, includeDefaults: bool, componentLimit: int, edgeLimit: int)
    ensures ResolveAny(Some(EncodedAll(cs)), Some(Items(requested)), Some(includeDefaults), Some(componentLimit), Some(edgeLimit)) ==
            Resolve(cs, requested, includeDefaults, componentLimit, edgeLimit)
  {
    if 0 <= edgeLimit {
      TypedReading(cs, 0, edgeLimit);
      assert cs[..0] == [];
    }
    var items := Items(requested);
    var n := TypedPrefix(items, 0);
    assert n == |items|;
    TakeAll(items);
    assert Texts(items) == requested;
  }

  /** Nothing untyped is ever resolved: success means typed arguments that resolve. */
  lemma UntypedRefused(components: Option<seq<Entry>>, requested: Option<seq<Item>>, includeDefaults: Option<bool>,
                       componentLimit: Option<int>, edgeLimit: Option<int>) returns (cs: seq<Component>, names: seq<Id>)
    requires ResolveAny(components, requested, includeDefaults, componentLimit, edgeLimit).Ok?
    ensures components == Some(EncodedAll(cs)) && requested == Some(Items(names))
    ensures includeDefaults.Some? && componentLimit.Some? && edgeLimit.Some?
    ensures ResolveAny(components, requested, includeDefaults, componentLimit, edgeLimit) ==
            Resolve(cs, names, includeDefaults.value, componentLimit.value, edgeLimit.value)
  {
    cs := ReadFrom(components.value, [], edgeLimit.value).components;
    ReadingIsTyped(components.value, [], edgeLimit.value);
    TakeAll(requested.value);
    names := Texts(requested.value);
    assert requested.value == Items(names);
    TypedResolution(cs, names, includeDefaults.value, componentLimit.value, edgeLimit.value);
  }
}
