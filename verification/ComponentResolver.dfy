/**
  * The component resolver: from a list of declared components and a request to the selected
  * components in dependency-first order, or the reason it is refused.
  */
module ComponentResolver {
  import opened Bytes
  import opened Wrappers
  import opened ComponentGraph
  import opened ComponentSearch
  import opened ComponentSelection

  const MAX_COMPONENTS := 4096
  const MAX_EDGES := 65536

  datatype Component = Component(
    id: Id, required: bool, defaultSelected: bool, dependencies: seq<Id>, conflicts: seq<Id>)

  /** The reference list an error points at. */
  datatype Relation = Requires | Conflicts

  datatype Error =
    | InvalidBudget | InvalidComponents | ComponentLimit | InvalidRequests
    | InvalidComponent | InvalidFlags(name: Id) | DuplicateComponent(name: Id)
    | InvalidReferences(owner: Id, relation: Relation) | EdgeLimit
    | SelfConflict(name: Id) | UnknownReference(name: Id, reference: Id)
    | Cycle(cycle: seq<Id>)
    | UnknownRequested(name: Id)
    | Conflict(name: Id, other: Id)
    | InvalidPreviousSelection | PreviousSelectionNotClosed | SelectedComponentRemoved(name: Id)

  datatype Result = Ok(order: seq<Id>) | Err(error: Error)

  // ----- identifiers -----

  predicate Alphanumeric(b: byte) {
    0x41 <= b <= 0x5A || 0x61 <= b <= 0x7A || 0x30 <= b <= 0x39
  }

  /** `[A-Za-z0-9][A-Za-z0-9_.:-]{0,159}`. */
  predicate ValidIdentifier(s: Id) {
    && 1 <= |s| <= 160 && Alphanumeric(s[0])
    && forall i :: 0 <= i < |s| ==> Alphanumeric(s[i]) || s[i] == 0x5F || s[i] == 0x2E || s[i] == 0x3A || s[i] == 0x2D
  }

  predicate ValidReferences(refs: seq<Id>) {
    |refs| <= MAX_EDGES && (forall i :: 0 <= i < |refs| ==> ValidIdentifier(refs[i])) && NoDuplicates(refs)
  }

  // ----- sorting -----

  function InsertId(sorted: seq<Id>, x: Id): (r: seq<Id>)
    ensures forall n :: n in r <==> n == x || n in sorted
  {
    if sorted == [] || !Less(sorted[0], x) then [x] + sorted else [sorted[0]] + InsertId(sorted[1..], x)
  }

  function SortIds(s: seq<Id>): (r: seq<Id>)
    ensures forall n :: n in r <==> n in s
  {
    if s == [] then [] else InsertId(SortIds(s[1..]), s[0])
  }

  /** No id is less than an earlier one. */
  predicate SortedIds(s: seq<Id>) {
    forall i, j :: 0 <= i < j < |s| ==> !Less(s[j], s[i])
  }

  lemma {:induction false} InsertAdds(sorted: seq<Id>, x: Id)
    ensures multiset(InsertId(sorted, x)) == multiset(sorted) + multiset{x}
  {
    if sorted != [] && Less(sorted[0], x) {
      InsertAdds(sorted[1..], x);
      assert sorted == [sorted[0]] + sorted[1..];
    }
  }

  /** What is not above the head of a sorted list is above nothing in it. */
  lemma BelowAll(sorted: seq<Id>, x: Id, j: nat)
    requires SortedIds(sorted) && j < |sorted| && !Less(sorted[0], x)
    ensures !Less(sorted[j], x)
  {
    if Less(sorted[j], x) {
      LessTotal(sorted[0], sorted[j]);
      if sorted[j] != sorted[0] {
        LessTransitive(sorted[0], sorted[j], x);
      }
    }
  }

  lemma SortedCons(first: Id, rest: seq<Id>)
    requires SortedIds(rest) && forall n :: n in rest ==> !Less(n, first)
    ensures SortedIds([first] + rest)
  {
    var s := [first] + rest;
    forall i, j | 0 <= i < j < |s| ensures !Less(s[j], s[i]) {
      assert s[j] == rest[j - 1] && rest[j - 1] in rest;
    }
  }

  lemma {:induction false} InsertKeepsSorted(sorted: seq<Id>, x: Id)
    requires SortedIds(sorted)
    ensures SortedIds(InsertId(sorted, x))
  {
    if sorted == [] {
    } else if !Less(sorted[0], x) {
      forall n | n in sorted ensures !Less(n, x) {
        var j :| 0 <= j < |sorted| && sorted[j] == n;
        BelowAll(sorted, x, j);
      }
      SortedCons(x, sorted);
    } else {
      InsertKeepsSorted(sorted[1..], x);
      LessTotal(sorted[0], x);
      SortedCons(sorted[0], InsertId(sorted[1..], x));
    }
  }

  /** Sorting sorts, and keeps every id as often as it was given. */
  lemma {:induction false} SortExact(s: seq<Id>)
    ensures SortedIds(SortIds(s)) && multiset(SortIds(s)) == multiset(s)
  {
    if s != [] {
      SortExact(s[1..]);
      InsertKeepsSorted(SortIds(s[1..]), s[0]);
      InsertAdds(SortIds(s[1..]), s[0]);
      assert s == [s[0]] + s[1..];
    }
  }

  // ----- the graph -----

  function Ids(cs: seq<Component>): (r: seq<Id>)
    ensures |r| == |cs| && forall i :: 0 <= i < |cs| ==> r[i] == cs[i].id
  {
    seq(|cs|, i requires 0 <= i < |cs| => cs[i].id)
  }

  function NodeOf(c: Component): Node {
    Node(c.required, c.defaultSelected, SortIds(c.dependencies), SortIds(c.conflicts))
  }

  /** The graph of the first `n` components. */
  function GraphOf(cs: seq<Component>, n: nat): Graph
    requires n <= |cs|
  {
    if n == 0 then map[] else GraphOf(cs, n - 1)[cs[n - 1].id := NodeOf(cs[n - 1])]
  }

  function Edges(c: Component): nat {
    |c.dependencies| + |c.conflicts|
  }

  function TotalEdges(cs: seq<Component>, n: nat): nat
    requires n <= |cs|
  {
    if n == 0 then 0 else TotalEdges(cs, n - 1) + Edges(cs[n - 1])
  }

  lemma {:induction false} PrefixKept(cs: seq<Component>, done: seq<Component>, n: nat)
    requires n <= |done| && done <= cs
    ensures GraphOf(cs, n) == GraphOf(done, n) && TotalEdges(cs, n) == TotalEdges(done, n)
  {
    if n > 0 {
      PrefixKept(cs, done, n - 1);
    }
  }

  /** The first declaration that is refused while the graph is built. */
  function BuildError(cs: seq<Component>, i: nat, limit: nat): Option<Error>
    requires i <= |cs|
    decreases |cs| - i
  {
    if i == |cs| then None
    else if !ValidIdentifier(cs[i].id) then Some(InvalidComponent)
    else if cs[i].id in Ids(cs)[..i] then Some(DuplicateComponent(cs[i].id))
    else if !ValidReferences(cs[i].dependencies) then Some(InvalidReferences(cs[i].id, Requires))
    else if !ValidReferences(cs[i].conflicts) then Some(InvalidReferences(cs[i].id, Conflicts))
    else if TotalEdges(cs, i + 1) > limit then Some(EdgeLimit)
    else BuildError(cs, i + 1, limit)
  }

  function FirstUnknown(g: Graph, refs: seq<Id>, i: nat): Option<Id>
    requires i <= |refs|
    decreases |refs| - i
  {
    if i == |refs| then None else if refs[i] !in g then Some(refs[i]) else FirstUnknown(g, refs, i + 1)
  }

  /** The first self-conflict or dangling reference, components in order. */
  function ReferenceError(g: Graph, names: seq<Id>, i: nat): Option<Error>
    requires i <= |names| && forall n :: n in names ==> n in g
    decreases |names| - i
  {
    if i == |names| then None
    else if names[i] in g[names[i]].conflicts then Some(SelfConflict(names[i]))
    else
      match FirstUnknown(g, g[names[i]].dependencies + g[names[i]].conflicts, 0)
      case Some(r) => Some(UnknownReference(names[i], r))
      case None => ReferenceError(g, names, i + 1)
  }

  // ----- requests and conflicts -----

  function Seeds(g: Graph, includeDefaults: bool): set<Id> {
    set n | n in g && (g[n].required || (includeDefaults && g[n].defaultSelected))
  }

  function RequestError(g: Graph, requested: seq<Id>, i: nat): Option<Error>
    requires i <= |requested|
    decreases |requested| - i
  {
    if i == |requested| then None
    else if !ValidIdentifier(requested[i]) || requested[i] !in g then Some(UnknownRequested(requested[i]))
    else RequestError(g, requested, i + 1)
  }

  function FirstSelected(selected: set<Id>, refs: seq<Id>, i: nat): Option<Id>
    requires i <= |refs|
    decreases |refs| - i
  {
    if i == |refs| then None else if refs[i] in selected then Some(refs[i]) else FirstSelected(selected, refs, i + 1)
  }

  function ConflictError(g: Graph, names: seq<Id>, selected: set<Id>, i: nat): Option<Error>
    requires i <= |names| && forall n :: n in names ==> n in g
    decreases |names| - i
  {
    if i == |names| then None
    else
      match FirstSelected(selected, g[names[i]].conflicts, 0)
      case Some(c) => Some(Conflict(names[i], c))
      case None => ConflictError(g, names, selected, i + 1)
  }

  /** No selected component declares a conflict with a selected one. */
  predicate ConflictFree(g: Graph, s: set<Id>) {
    forall n, c :: n in s && n in g && c in g[n].conflicts ==> c !in s
  }

  // ----- what the checks amount to -----

  lemma {:induction false} FirstUnknownNone(g: Graph, refs: seq<Id>, i: nat)
    requires i <= |refs|
    ensures FirstUnknown(g, refs, i).None? <==> forall k :: i <= k < |refs| ==> refs[k] in g
    decreases |refs| - i
  {
    if i < |refs| {
      FirstUnknownNone(g, refs, i + 1);
    }
  }

  /** Every reference is known and nothing conflicts with itself. */
  predicate ReferencesSound(g: Graph) {
    && Closed(g)
    && (forall n, c :: n in g && c in g[n].conflicts ==> c in g)
    && forall n :: n in g ==> n !in g[n].conflicts
  }

  predicate NodeSound(g: Graph, n: Id)
    requires n in g
  {
    && n !in g[n].conflicts
    && (forall d :: d in g[n].dependencies ==> d in g)
    && forall c :: c in g[n].conflicts ==> c in g
  }

  lemma {:induction false} ReferenceErrorNone(g: Graph, names: seq<Id>, i: nat)
    requires i <= |names| && forall n :: n in names ==> n in g
    ensures ReferenceError(g, names, i).None? <==> forall k :: i <= k < |names| ==> NodeSound(g, names[k])
    decreases |names| - i
  {
    if i < |names| {
      var node := g[names[i]];
      var refs := node.dependencies + node.conflicts;
      FirstUnknownNone(g, refs, 0);
      BothKnown(g, node.dependencies, node.conflicts);
      ReferenceErrorNone(g, names, i + 1);
    }
  }

  lemma BothKnown(g: Graph, a: seq<Id>, b: seq<Id>)
    ensures (forall k :: 0 <= k < |a + b| ==> (a + b)[k] in g) <==> (forall x :: x in a ==> x in g) && forall x :: x in b ==> x in g
  {
    if forall k :: 0 <= k < |a + b| ==> (a + b)[k] in g {
      forall x | x in a ensures x in g {
        var k :| 0 <= k < |a| && a[k] == x;
        assert (a + b)[k] == x;
      }
      forall x | x in b ensures x in g {
        var k :| 0 <= k < |b| && b[k] == x;
        assert (a + b)[|a| + k] == x;
      }
    }
  }

  lemma ReferencesChecked(g: Graph, names: seq<Id>)
    requires forall n :: n in names <==> n in g
    ensures ReferenceError(g, names, 0).None? <==> ReferencesSound(g)
  {
    ReferenceErrorNone(g, names, 0);
    if ReferenceError(g, names, 0).None? {
      forall n | n in g ensures NodeSound(g, n) {
        var k :| 0 <= k < |names| && names[k] == n;
      }
    }
  }

  lemma {:induction false} RequestErrorNone(g: Graph, requested: seq<Id>, i: nat)
    requires i <= |requested|
    ensures RequestError(g, requested, i).None? <==>
            forall k :: i <= k < |requested| ==> ValidIdentifier(requested[k]) && requested[k] in g
    decreases |requested| - i
  {
    if i < |requested| {
      RequestErrorNone(g, requested, i + 1);
    }
  }

  lemma {:induction false} FirstSelectedNone(selected: set<Id>, refs: seq<Id>, i: nat)
    requires i <= |refs|
    ensures FirstSelected(selected, refs, i).None? <==> forall k :: i <= k < |refs| ==> refs[k] !in selected
    decreases |refs| - i
  {
    if i < |refs| {
      FirstSelectedNone(selected, refs, i + 1);
    }
  }

  lemma {:induction false} ConflictErrorNone(g: Graph, names: seq<Id>, selected: set<Id>, i: nat)
    requires i <= |names| && forall n :: n in names ==> n in g
    ensures ConflictError(g, names, selected, i).None? <==>
            forall k, c :: i <= k < |names| && c in g[names[k]].conflicts ==> c !in selected
    decreases |names| - i
  {
    if i < |names| {
      FirstSelectedNone(selected, g[names[i]].conflicts, 0);
      ConflictErrorNone(g, names, selected, i + 1);
      assert FirstSelected(selected, g[names[i]].conflicts, 0).None? <==>
             forall c :: c in g[names[i]].conflicts ==> c !in selected;
    }
  }

  lemma {:induction false} GraphKeys(cs: seq<Component>, n: nat)
    requires n <= |cs|
    ensures forall x :: x in GraphOf(cs, n) <==> x in Ids(cs)[..n]
  {
    if n > 0 {
      GraphKeys(cs, n - 1);
      assert Ids(cs)[..n] == Ids(cs)[..n - 1] + [cs[n - 1].id];
    }
  }

  lemma NamesAreKeys(cs: seq<Component>)
    ensures forall n :: n in SortIds(Ids(cs)) <==> n in GraphOf(cs, |cs|)
  {
    GraphKeys(cs, |cs|);
    assert Ids(cs)[..|cs|] == Ids(cs);
  }

  /** Every declaration is well formed, names are distinct and the relations stay within budget. */
  predicate DeclarationsSound(cs: seq<Component>, limit: nat) {
    && (forall k :: 0 <= k < |cs| ==>
          ValidIdentifier(cs[k].id) && ValidReferences(cs[k].dependencies) && ValidReferences(cs[k].conflicts))
    && NoDuplicates(Ids(cs)) && TotalEdges(cs, |cs|) <= limit
  }

  predicate DeclarationSound(cs: seq<Component>, k: nat, limit: nat)
    requires k < |cs|
  {
    && ValidIdentifier(cs[k].id) && cs[k].id !in Ids(cs)[..k]
    && ValidReferences(cs[k].dependencies) && ValidReferences(cs[k].conflicts)
    && TotalEdges(cs, k + 1) <= limit
  }

  lemma {:induction false} BuildErrorNone(cs: seq<Component>, i: nat, limit: nat)
    requires i <= |cs|
    ensures BuildError(cs, i, limit).None? <==> forall k :: i <= k < |cs| ==> DeclarationSound(cs, k, limit)
    decreases |cs| - i
  {
    if i < |cs| {
      BuildErrorNone(cs, i + 1, limit);
      assert BuildError(cs, i, limit).None? <==> DeclarationSound(cs, i, limit) && BuildError(cs, i + 1, limit).None?;
    }
  }

  lemma {:induction false} EdgesGrow(cs: seq<Component>, m: nat, n: nat)
    requires m <= n <= |cs|
    ensures TotalEdges(cs, m) <= TotalEdges(cs, n)
    decreases n - m
  {
    if m < n {
      EdgesGrow(cs, m, n - 1);
    }
  }

  lemma DistinctBefore(ids: seq<Id>, k: nat)
    requires NoDuplicates(ids) && k < |ids|
    ensures ids[k] !in ids[..k]
  {
  }

  lemma DeclarationsChecked(cs: seq<Component>, limit: nat)
    requires cs != []
    ensures BuildError(cs, 0, limit).None? <==> DeclarationsSound(cs, limit)
  {
    BuildErrorNone(cs, 0, limit);
    var ids := Ids(cs);
    if BuildError(cs, 0, limit).None? {
      forall i, j | 0 <= i < j < |ids| ensures ids[i] != ids[j] {
        assert DeclarationSound(cs, j, limit);
        assert ids[i] in ids[..j] by {
          assert ids[..j][i] == ids[i];
        }
      }
      assert DeclarationSound(cs, |cs| - 1, limit);
      forall k | 0 <= k < |cs|
        ensures ValidIdentifier(cs[k].id) && ValidReferences(cs[k].dependencies) && ValidReferences(cs[k].conflicts)
      {
        assert DeclarationSound(cs, k, limit);
      }
    }
    if DeclarationsSound(cs, limit) {
      forall k | 0 <= k < |cs| ensures DeclarationSound(cs, k, limit) {
        EdgesGrow(cs, k + 1, |cs|);
        DistinctBefore(ids, k);
      }
    }
  }

  // ----- the result -----

  /** Everything after the graph has been built, `names` being its sorted components. */
  ghost function ResolveGraph(g: Graph, names: seq<Id>, requested: seq<Id>, includeDefaults: bool): Result
    requires forall n :: n in names <==> n in g
  {
    match ReferenceError(g, names, 0)
    case Some(e) => Err(e)
    case None =>
      ReferencesChecked(g, names);
      match VisitAll(g, names, 0, [])
      case CycleFound(w) => Err(Cycle(w))
      case Done(order) => SelectOrdered(g, names, order, requested, includeDefaults)
  }

  /** The selected part of the order of the whole graph. */
  ghost function SelectOrdered(g: Graph, names: seq<Id>, order: seq<Id>, requested: seq<Id>, includeDefaults: bool): Result
    requires forall n :: n in names <==> n in g
  {
    match RequestError(g, requested, 0)
    case Some(e) => Err(e)
    case None =>
      var selected := Selection(g, requested, includeDefaults);
      match ConflictError(g, Filter(names, selected), selected, 0)
      case Some(e) => Err(e)
      case None => Ok(Filter(order, selected))
  }

  /** `resolve_component_ids`. */
  ghost function Resolve(cs: seq<Component>, requested: seq<Id>, includeDefaults: bool, componentLimit: int, edgeLimit: int): Result {
    if !(1 <= componentLimit <= MAX_COMPONENTS && 0 <= edgeLimit <= MAX_EDGES) then Err(InvalidBudget)
    else if cs == [] then Err(InvalidComponents)
    else if |cs| > componentLimit then Err(ComponentLimit)
    else if |requested| > componentLimit then Err(InvalidRequests)
    else
      match BuildError(cs, 0, edgeLimit)
      case Some(e) => Err(e)
      case None =>
        NamesAreKeys(cs);
        ResolveGraph(GraphOf(cs, |cs|), SortIds(Ids(cs)), requested, includeDefaults)
  }

  /** The set the resolver selects. */
  ghost function Selection(g: Graph, requested: seq<Id>, includeDefaults: bool): set<Id> {
    Closure(g, Seeds(g, includeDefaults) + Elements(requested))
  }

  /** The graph resolves: sound references, no cycle, known requests, no conflict in the selection. */
  ghost predicate GraphResolvable(g: Graph, requested: seq<Id>, includeDefaults: bool) {
    && ReferencesSound(g) && Acyclic(g)
    && (forall n :: n in requested ==> ValidIdentifier(n) && n in g)
    && ConflictFree(g, Selection(g, requested, includeDefaults))
  }

  lemma RequestsChecked(g: Graph, requested: seq<Id>)
    ensures RequestError(g, requested, 0).None? <==> forall n :: n in requested ==> ValidIdentifier(n) && n in g
  {
    RequestErrorNone(g, requested, 0);
  }

  lemma ConflictsChecked(g: Graph, names: seq<Id>, selected: set<Id>)
    requires (forall n :: n in names <==> n in g) && selected <= g.Keys
    ensures ConflictError(g, Filter(names, selected), selected, 0).None? <==> ConflictFree(g, selected)
  {
    var kept := Filter(names, selected);
    ConflictErrorNone(g, kept, selected, 0);
    if ConflictError(g, kept, selected, 0).None? {
      forall n, c | n in selected && c in g[n].conflicts ensures c !in selected {
        assert n in kept;
        var k :| 0 <= k < |kept| && kept[k] == n;
      }
    }
  }

  lemma SeedsKnown(g: Graph, requested: seq<Id>, includeDefaults: bool)
    requires forall n :: n in requested ==> n in g
    ensures Seeds(g, includeDefaults) + Elements(requested) <= g.Keys
  {
  }

  lemma SelectionClosed(g: Graph, requested: seq<Id>, includeDefaults: bool) returns (selected: set<Id>)
    requires Closed(g) && forall n :: n in requested ==> n in g
    ensures selected == Selection(g, requested, includeDefaults)
    ensures selected <= g.Keys && DependencyClosed(g, selected)
  {
    selected := Selection(g, requested, includeDefaults);
    SeedsKnown(g, requested, includeDefaults);
    ClosureIsLeast(g, Seeds(g, includeDefaults) + Elements(requested), {});
  }

  lemma FilterElements(g: Graph, order: seq<Id>, selected: set<Id>)
    requires (forall n :: n in order <==> n in g) && selected <= g.Keys
    ensures Elements(Filter(order, selected)) == selected
  {
  }

  /** The last phase accepts exactly known requests whose closure has no conflict. */
  lemma OrderedSelection(g: Graph, names: seq<Id>, order: seq<Id>, requested: seq<Id>, includeDefaults: bool)
    requires (forall n :: n in names <==> n in g) && (forall n :: n in order <==> n in g)
    requires Closed(g) && DependencyFirst(g, order)
    ensures var r := SelectOrdered(g, names, order, requested, includeDefaults);
            && (r.Ok? <==>
                && (forall n :: n in requested ==> ValidIdentifier(n) && n in g)
                && ConflictFree(g, Selection(g, requested, includeDefaults)))
            && (r.Ok? ==> DependencyFirst(g, r.order) && Elements(r.order) == Selection(g, requested, includeDefaults))
            && (r.Err? ==> !r.error.Cycle?)
  {
    RequestsChecked(g, requested);
    RequestErrorKind(g, requested, 0);
    if RequestError(g, requested, 0).None? {
      var selected := SelectionClosed(g, requested, includeDefaults);
      ConflictsChecked(g, names, selected);
      ConflictErrorKind(g, Filter(names, selected), selected, 0);
      FilterDependencyFirst(g, order, selected);
      FilterElements(g, order, selected);
    }
  }

  lemma {:induction false} RequestErrorKind(g: Graph, requested: seq<Id>, i: nat)
    requires i <= |requested|
    ensures RequestError(g, requested, i).Some? ==> RequestError(g, requested, i).value.UnknownRequested?
    decreases |requested| - i
  {
    if i < |requested| {
      RequestErrorKind(g, requested, i + 1);
    }
  }

  lemma {:induction false} ConflictErrorKind(g: Graph, names: seq<Id>, selected: set<Id>, i: nat)
    requires i <= |names| && forall n :: n in names ==> n in g
    ensures ConflictError(g, names, selected, i).Some? ==> ConflictError(g, names, selected, i).value.Conflict?
    decreases |names| - i
  {
    if i < |names| {
      ConflictErrorKind(g, names, selected, i + 1);
    }
  }

  lemma {:induction false} ReferenceErrorKind(g: Graph, names: seq<Id>, i: nat)
    requires i <= |names| && forall n :: n in names ==> n in g
    ensures ReferenceError(g, names, i).Some? ==>
              ReferenceError(g, names, i).value.SelfConflict? || ReferenceError(g, names, i).value.UnknownReference?
    decreases |names| - i
  {
    if i < |names| {
      ReferenceErrorKind(g, names, i + 1);
    }
  }

  /**
    * The resolver accepts exactly the resolvable graphs. What it returns is duplicate-free,
    * dependency-first and, as a set, the least closure; a cycle error carries a real cycle.
    */
  lemma GraphResolution(g: Graph, names: seq<Id>, requested: seq<Id>, includeDefaults: bool)
    requires forall n :: n in names <==> n in g
    ensures var r := ResolveGraph(g, names, requested, includeDefaults);
            && (r.Ok? <==> GraphResolvable(g, requested, includeDefaults))
            && (r.Ok? ==> DependencyFirst(g, r.order) && Elements(r.order) == Selection(g, requested, includeDefaults))
            && (r.Err? && r.error.Cycle? ==> IsCycle(g, r.error.cycle))
  {
    ReferencesChecked(g, names);
    ReferenceErrorKind(g, names, 0);
    if ReferencesSound(g) {
      SearchExact(g, names);
      match VisitAll(g, names, 0, [])
      case CycleFound(w) =>
      case Done(order) => OrderedSelection(g, names, order, requested, includeDefaults);
    }
  }

  lemma {:induction false} BuildErrorKind(cs: seq<Component>, i: nat, limit: nat)
    requires i <= |cs|
    ensures BuildError(cs, i, limit).Some? ==> !BuildError(cs, i, limit).value.Cycle?
    decreases |cs| - i
  {
    if i < |cs| {
      BuildErrorKind(cs, i + 1, limit);
    }
  }

  /** The resolver's exact domain, and what it returns there. */
  lemma ResolutionExact(cs: seq<Component>, requested: seq<Id>, includeDefaults: bool, componentLimit: int, edgeLimit: int)
    ensures var r := Resolve(cs, requested, includeDefaults, componentLimit, edgeLimit);
            var g := GraphOf(cs, |cs|);
            && (r.Ok? <==>
                && 1 <= componentLimit <= MAX_COMPONENTS && 0 <= edgeLimit <= MAX_EDGES
                && 1 <= |cs| <= componentLimit && |requested| <= componentLimit
                && DeclarationsSound(cs, edgeLimit) && GraphResolvable(g, requested, includeDefaults))
            && (r.Ok? ==> DependencyFirst(g, r.order) && Elements(r.order) == Selection(g, requested, includeDefaults))
            && (r.Err? && r.error.Cycle? ==> IsCycle(g, r.error.cycle))
  {
    if cs != [] && 0 <= edgeLimit {
      DeclarationsChecked(cs, edgeLimit);
      BuildErrorKind(cs, 0, edgeLimit);
      NamesAreKeys(cs);
      GraphResolution(GraphOf(cs, |cs|), SortIds(Ids(cs)), requested, includeDefaults);
    }
  }
}
