/** `resolve_component_ids`, loop by loop. */
module PythonResolver {
  import opened Sequences
  import opened Wrappers
  import opened ComponentGraph
  import opened ComponentOrder
  import opened ComponentSelection
  import opened ComponentResolver
  import opened PythonInput

  /** The loop that fills `graph`. */
  method BuildGraph(entries: seq<Entry>, limit: nat) returns (r: Option<Error>, g: Graph, ids: seq<Id>)
    ensures match ReadFrom(entries, [], limit)
            case Refused(e) => r == Some(e)
            case Read(cs) => r.None? && g == GraphOf(cs, |cs|) && ids == Ids(cs)
  {
    g, ids := map[], [];
    ghost var done: seq<Component> := [];
    var edges := 0;
    var i := 0;
    while i < |entries|
      invariant 0 <= i <= |entries| && |done| == i && ids == Ids(done)
      invariant edges == TotalEdges(done, i) && g == GraphOf(done, i)
      invariant ReadFrom(entries, done, limit) == ReadFrom(entries, [], limit)
    {
      var e := entries[i];
      GraphKeys(done, i);
      TakeAll(ids);
      if e.NoDict? || e.id.None? || !ValidIdentifier(e.id.value) {
        return Some(InvalidComponent), g, ids;
      }
      if e.id.value in g {
        return Some(DuplicateComponent(e.id.value)), g, ids;
      }
      if e.required.None? || e.defaultSelected.None? {
        return Some(InvalidFlags(e.id.value)), g, ids;
      }
      if !References(e.dependencies) {
        return Some(InvalidReferences(e.id.value, Requires)), g, ids;
      }
      if !References(e.conflicts) {
        return Some(InvalidReferences(e.id.value, Conflicts)), g, ids;
      }
      edges := edges + (|e.dependencies.value| + |e.conflicts.value|);
      if edges > limit {
        return Some(EdgeLimit), g, ids;
      }
      Appended(done, done + [Decoded(e)], i);
      done := done + [Decoded(e)];
      g := g[e.id.value := NodeOf(Decoded(e))];
      ids := ids + [e.id.value];
      i := i + 1;
    }
    return None, g, ids;
  }

  /** One more component adds its own node and relations. */
  lemma Appended(done: seq<Component>, all: seq<Component>, n: nat)
    requires n == |done| && |all| == n + 1 && done <= all
    ensures GraphOf(all, n + 1) == GraphOf(done, n)[all[n].id := NodeOf(all[n])]
    ensures TotalEdges(all, n + 1) == TotalEdges(done, n) + Edges(all[n])
  {
    PrefixKept(all, done, n);
  }

  /** The loop over every component's references. */
  method CheckReferences(g: Graph, names: seq<Id>) returns (r: Option<Error>)
    requires forall n :: n in names ==> n in g
    ensures r == ReferenceError(g, names, 0)
  {
    var i := 0;
    while i < |names|
      invariant 0 <= i <= |names| && ReferenceError(g, names, i) == ReferenceError(g, names, 0)
    {
      var node := g[names[i]];
      if names[i] in node.conflicts {
        return Some(SelfConflict(names[i]));
      }
      var refs := node.dependencies + node.conflicts;
      var k := 0;
      while k < |refs|
        invariant 0 <= k <= |refs| && FirstUnknown(g, refs, k) == FirstUnknown(g, refs, 0)
      {
        if refs[k] !in g {
          return Some(UnknownReference(names[i], refs[k]));
        }
        k := k + 1;
      }
      i := i + 1;
    }
    return None;
  }

  method CheckRequests(g: Graph, requested: seq<Item>) returns (r: Option<Error>)
    ensures r == match RequestError(g, Known(requested), 0)
                 case Some(e) => Some(e)
                 case None =>
                   var n := TypedPrefix(requested, 0);
                   if n < |requested| then Some(UnknownRequested(requested[n].shown)) else None
  {
    ghost var n, known := TypedPrefix(requested, 0), Known(requested);
    var i := 0;
    while i < |requested|
      invariant 0 <= i <= n && RequestError(g, known, i) == RequestError(g, known, 0)
    {
      match requested[i]
      case Other(shown) =>
        return Some(UnknownRequested(shown));
      case Str(name) =>
        assert known[i] == name;
        if !ValidIdentifier(name) || name !in g {
          return Some(UnknownRequested(name));
        }
        i := i + 1;
    }
    return None;
  }

  method CheckConflicts(g: Graph, names: seq<Id>, selected: set<Id>) returns (r: Option<Error>)
    requires forall n :: n in names ==> n in g
    ensures r == ConflictError(g, names, selected, 0)
  {
    var i := 0;
    while i < |names|
      invariant 0 <= i <= |names| && ConflictError(g, names, selected, i) == ConflictError(g, names, selected, 0)
    {
      var conflicts := g[names[i]].conflicts;
      var k := 0;
      while k < |conflicts|
        invariant 0 <= k <= |conflicts| && FirstSelected(selected, conflicts, k) == FirstSelected(selected, conflicts, 0)
      {
        if conflicts[k] in selected {
          return Some(Conflict(names[i], conflicts[k]));
        }
        k := k + 1;
      }
      i := i + 1;
    }
    return None;
  }

  /** The names of a set of components, in the order of `names`. */
  method SeedList(g: Graph, names: seq<Id>, includeDefaults: bool, requested: seq<Id>) returns (pending: seq<Id>)
    requires (forall n :: n in names <==> n in g) && forall n :: n in requested ==> n in g
    ensures Elements(pending) == Seeds(g, includeDefaults) + Elements(requested)
  {
    pending := [];
    var i := 0;
    while i < |names|
      invariant 0 <= i <= |names|
      invariant forall n :: n in pending <==> n in names[..i] && n in Seeds(g, includeDefaults)
    {
      assert names[..i + 1] == names[..i] + [names[i]];
      if g[names[i]].required || (includeDefaults && g[names[i]].defaultSelected) {
        pending := pending + [names[i]];
      }
      i := i + 1;
    }
    assert names[..|names|] == names;
    ElementsConcat(pending, requested);
    pending := pending + requested;
  }

  /** Success of the reading is success of the typed check. */
  lemma ReadIsSound(entries: seq<Entry>, limit: nat)
    requires ReadFrom(entries, [], limit).Read?
    ensures var cs := ReadFrom(entries, [], limit).components;
            |cs| == |entries| && BuildError(cs, 0, limit).None?
  {
    var cs := ReadFrom(entries, [], limit).components;
    ReadingIsTyped(entries, [], limit);
    TypedReading(cs, 0, limit);
    assert cs[..0] == [];
  }

  method ResolveComponentIds(components: Option<seq<Entry>>, requested: Option<seq<Item>>, includeDefaults: Option<bool>,
                             componentLimit: Option<int>, edgeLimit: Option<int>) returns (r: Result)
    ensures r == ResolveAny(components, requested, includeDefaults, componentLimit, edgeLimit)
  {
    if includeDefaults.None? || componentLimit.None? || !(1 <= componentLimit.value <= MAX_COMPONENTS) ||
       edgeLimit.None? || !(0 <= edgeLimit.value <= MAX_EDGES) {
      return Err(InvalidBudget);
    }
    if components.None? || components.value == [] {
      return Err(InvalidComponents);
    }
    if |components.value| > componentLimit.value {
      return Err(ComponentLimit);
    }
    if requested.None? || |requested.value| > componentLimit.value {
      return Err(InvalidRequests);
    }
    var refused, g, ids := BuildGraph(components.value, edgeLimit.value);
    if refused.Some? {
      return Err(refused.value);
    }
    ReadIsSound(components.value, edgeLimit.value);
    NamesAreKeys(ReadFrom(components.value, [], edgeLimit.value).components);
    r := ResolveBuilt(g, SortIds(ids), requested.value, includeDefaults.value);
  }

  /** The checks, the search and the selection on a built graph. */
  method ResolveBuilt(g: Graph, names: seq<Id>, requested: seq<Item>, includeDefaults: bool) returns (r: Result)
    requires forall n :: n in names <==> n in g
    ensures r == WithRest(ResolveGraph(g, names, Known(requested), includeDefaults), requested)
  {
    ReferenceErrorKind(g, names, 0);
    var refused := CheckReferences(g, names);
    if refused.Some? {
      return Err(refused.value);
    }
    ReferencesChecked(g, names);
    var search := TopologicalOrder(g, names);
    if search.CycleFound? {
      return Err(Cycle(search.cycle));
    }
    r := SelectFrom(g, names, search.order, requested, includeDefaults);
  }

  method SelectFrom(g: Graph, names: seq<Id>, order: seq<Id>, requested: seq<Item>, includeDefaults: bool) returns (r: Result)
    requires (forall n :: n in names <==> n in g) && Closed(g)
    ensures r == WithRest(SelectOrdered(g, names, order, Known(requested), includeDefaults), requested)
  {
    RequestErrorKind(g, Known(requested), 0);
    var refused := CheckRequests(g, requested);
    ghost var selection := Selection(g, Known(requested), includeDefaults);
    ConflictErrorKind(g, Filter(names, selection), selection, 0);
    if refused.Some? {
      return Err(refused.value);
    }
    TakeAll(requested);
    var ids := Texts(requested);
    RequestsChecked(g, ids);
    var pending := SeedList(g, names, includeDefaults, ids);
    SeedsKnown(g, ids, includeDefaults);
    var selected := SelectClosure(g, pending);
    refused := CheckConflicts(g, Filter(names, selected), selected);
    if refused.Some? {
      return Err(refused.value);
    }
    return Ok(Filter(order, selected));
  }
}
