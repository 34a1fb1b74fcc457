/** `resolve_transition_component_ids`: carrying an accepted selection over to a candidate bundle. */
module BundleTransition {
  import opened Wrappers
  import opened ComponentGraph
  import opened ComponentSelection
  import opened ComponentResolver
  import opened PythonInput
  import opened PythonResolver
  import opened ResolverAgreement

  /** A selection that could have been accepted: bounded, well-formed, without repetition. */
  predicate ValidSelection(selected: seq<Id>) {
    |selected| <= MAX_COMPONENTS && (forall i :: 0 <= i < |selected| ==> ValidIdentifier(selected[i])) && NoDuplicates(selected)
  }

  function FirstRemoved(ids: seq<Id>, selected: seq<Id>, i: nat): Option<Id>
    requires i <= |selected|
    decreases |selected| - i
  {
    if i == |selected| then None else if selected[i] !in ids then Some(selected[i]) else FirstRemoved(ids, selected, i + 1)
  }

  ghost function Transition(previous: seq<Component>, selected: seq<Id>, candidate: seq<Component>): Result {
    if !ValidSelection(selected) then Err(InvalidPreviousSelection)
    else
      match Resolve(previous, selected, false, MAX_COMPONENTS, MAX_EDGES)
      case Err(e) => Err(e)
      case Ok(before) =>
        if Elements(before) != Elements(selected) then Err(PreviousSelectionNotClosed)
        else
          match Resolve(candidate, [], false, MAX_COMPONENTS, MAX_EDGES)
          case Err(e) => Err(e)
          case Ok(_) =>
            match FirstRemoved(Ids(candidate), SortIds(selected), 0)
            case Some(n) => Err(SelectedComponentRemoved(n))
            case None => Resolve(candidate, selected, false, MAX_COMPONENTS, MAX_EDGES)
  }

  /** The resolver with its default limits and without defaults. */
  method ResolveSelected(cs: seq<Component>, selected: seq<Id>) returns (r: Result)
    ensures r == Resolve(cs, selected, false, MAX_COMPONENTS, MAX_EDGES)
  {
    TypedResolution(cs, selected, false, MAX_COMPONENTS, MAX_EDGES);
    r := ResolveComponentIds(Some(EncodedAll(cs)), Some(Items(selected)), Some(false), Some(MAX_COMPONENTS), Some(MAX_EDGES));
  }

  method ResolveTransition(previous: seq<Component>, selected: seq<Id>, candidate: seq<Component>) returns (r: Result)
    ensures r == Transition(previous, selected, candidate)
  {
    if !ValidSelection(selected) {
      return Err(InvalidPreviousSelection);
    }
    var before := ResolveSelected(previous, selected);
    if before.Err? {
      return before;
    }
    if Elements(before.order) != Elements(selected) {
      return Err(PreviousSelectionNotClosed);
    }
    var latent := ResolveSelected(candidate, []);
    if latent.Err? {
      return latent;
    }
    var sorted := SortIds(selected);
    var i := 0;
    while i < |sorted|
      invariant 0 <= i <= |sorted|
      invariant FirstRemoved(Ids(candidate), sorted, i) == FirstRemoved(Ids(candidate), sorted, 0)
    {
      if sorted[i] !in Ids(candidate) {
        return Err(SelectedComponentRemoved(sorted[i]));
      }
      i := i + 1;
    }
    r := ResolveSelected(candidate, selected);
  }

  /** A component of a closure that is no seed is there because another one in it depends on it. */
  lemma PulledIn(g: Graph, seeds: set<Id>, n: Id) returns (m: Id)
    requires Closed(g) && n in Closure(g, seeds) && n !in seeds
    ensures m in Closure(g, seeds) && n in Dependencies(g, m)
  {
    var p: seq<Id> :| p != [] && IsPath(g, p) && p[0] in seeds && p[|p| - 1] == n;
    var q := p[..|p| - 1];
    m := q[|q| - 1];
    assert IsPath(g, q) && q[0] in seeds && q[|q| - 1] == m;
    assert p[|p| - 1] in Dependencies(g, p[|p| - 2]);
  }

  lemma TransitionResolves(previous: seq<Component>, selected: seq<Id>, candidate: seq<Component>)
    requires Transition(previous, selected, candidate).Ok?
    ensures Transition(previous, selected, candidate) == Resolve(candidate, selected, false, MAX_COMPONENTS, MAX_EDGES)
  {
  }

  lemma ResolvedSelection(candidate: seq<Component>, selected: seq<Id>, r: Result)
    requires r.Ok? && r == Resolve(candidate, selected, false, MAX_COMPONENTS, MAX_EDGES)
    ensures var g := GraphOf(candidate, |candidate|);
            && Closed(g) && (forall n :: n in selected ==> n in g)
            && DependencyFirst(g, r.order) && Elements(r.order) == Selection(g, selected, false)
  {
    ResolutionExact(candidate, selected, false, MAX_COMPONENTS, MAX_EDGES);
  }

  /**
    * A successful transition selects exactly the candidate's least closure of the previous
    * selection and the candidate's required components, dependencies first: nothing selected is
    * lost, and a component that is neither required, selected before nor depended upon stays out.
    */
  lemma TransitionPreserves(previous: seq<Component>, selected: seq<Id>, candidate: seq<Component>)
    requires Transition(previous, selected, candidate).Ok?
    ensures var r := Transition(previous, selected, candidate).order;
            var g := GraphOf(candidate, |candidate|);
            && DependencyFirst(g, r)
            && Elements(r) == Closure(g, Seeds(g, false) + Elements(selected))
            && Elements(selected) <= Elements(r)
            && forall n :: n in r && !g[n].required && n !in selected ==>
                 exists m :: m in r && m in g && n in Dependencies(g, m)
  {
    TransitionResolves(previous, selected, candidate);
    ResolvedSelection(candidate, selected, Transition(previous, selected, candidate));
    SelectionPreserves(GraphOf(candidate, |candidate|), selected, Transition(previous, selected, candidate).order);
  }

  lemma SelectionPreserves(g: Graph, selected: seq<Id>, r: seq<Id>)
    requires Closed(g) && (forall n :: n in selected ==> n in g) && Elements(r) == Selection(g, selected, false)
    ensures Elements(selected) <= Elements(r)
    ensures forall n :: n in r ==> n in g
    ensures forall n :: n in r && !g[n].required && n !in selected ==> exists m :: m in r && m in g && n in Dependencies(g, m)
  {
    var seeds := Seeds(g, false) + Elements(selected);
    SeedsKnown(g, selected, false);
    ClosureIsLeast(g, seeds, {});
    forall n | n in r ensures n in g {
      assert n in Elements(r);
    }
    forall n | n in r && !g[n].required && n !in selected ensures exists m :: m in r && m in g && n in Dependencies(g, m) {
      assert n in Elements(r);
      var m := PulledIn(g, seeds, n);
      assert m in Elements(r);
    }
  }

  lemma {:induction false} FirstRemovedNone(ids: seq<Id>, selected: seq<Id>, i: nat)
    requires i <= |selected|
    ensures FirstRemoved(ids, selected, i).None? <==> forall k :: i <= k < |selected| ==> selected[k] in ids
    decreases |selected| - i
  {
    if i < |selected| {
      FirstRemovedNone(ids, selected, i + 1);
    }
  }

  /** What is selected without requests is selected with them. */
  lemma SelectionGrows(g: Graph, selected: seq<Id>)
    requires Closed(g) && forall n :: n in selected ==> n in g
    ensures Selection(g, [], false) <= Selection(g, selected, false)
  {
    var seeds := Seeds(g, false) + Elements(selected);
    assert Seeds(g, false) + Elements([]) == Seeds(g, false);
    SeedsKnown(g, selected, false);
    ClosureIsLeast(g, seeds, {});
    ClosureIsLeast(g, Seeds(g, false), Closure(g, seeds));
  }

  /** A selection is its own closure exactly when it holds the required components and every dependency. */
  lemma SelfClosed(g: Graph, selected: seq<Id>)
    requires Closed(g) && forall n :: n in selected ==> n in g
    ensures Selection(g, selected, false) == Elements(selected) <==>
            Seeds(g, false) <= Elements(selected) && DependencyClosed(g, Elements(selected))
  {
    var seeds := Seeds(g, false) + Elements(selected);
    SeedsKnown(g, selected, false);
    ClosureIsLeast(g, seeds, Elements(selected));
    if Seeds(g, false) <= Elements(selected) {
      assert seeds == Elements(selected);
    }
  }

  /** A bundle within the limits, whose declarations and selection resolve. */
  ghost predicate Resolvable(cs: seq<Component>, selected: seq<Id>) {
    && 1 <= |cs| <= MAX_COMPONENTS && DeclarationsSound(cs, MAX_EDGES)
    && GraphResolvable(GraphOf(cs, |cs|), selected, false)
  }

  lemma ResolvableExact(cs: seq<Component>, selected: seq<Id>)
    requires |selected| <= MAX_COMPONENTS
    ensures var r := Resolve(cs, selected, false, MAX_COMPONENTS, MAX_EDGES);
            && (r.Ok? <==> Resolvable(cs, selected))
            && (r.Ok? ==> Elements(r.order) == Selection(GraphOf(cs, |cs|), selected, false))
  {
    ResolutionExact(cs, selected, false, MAX_COMPONENTS, MAX_EDGES);
  }

  /** The selection was accepted by the previous bundle, and is complete there. */
  ghost predicate Settled(previous: seq<Component>, selected: seq<Id>) {
    var g := GraphOf(previous, |previous|);
    Resolvable(previous, selected) && Seeds(g, false) <= Elements(selected) && DependencyClosed(g, Elements(selected))
  }

  lemma SettledExact(previous: seq<Component>, selected: seq<Id>)
    requires |selected| <= MAX_COMPONENTS
    ensures var r := Resolve(previous, selected, false, MAX_COMPONENTS, MAX_EDGES);
            r.Ok? && Elements(r.order) == Elements(selected) <==> Settled(previous, selected)
  {
    ResolvableExact(previous, selected);
    if Resolvable(previous, selected) {
      SelfClosed(GraphOf(previous, |previous|), selected);
    }
  }

  /** A candidate that resolves the selection passes the two earlier checks. */
  lemma EarlierChecksPass(candidate: seq<Component>, selected: seq<Id>)
    requires Resolvable(candidate, selected)
    ensures Resolvable(candidate, []) && FirstRemoved(Ids(candidate), SortIds(selected), 0).None?
  {
    SelectionGrows(GraphOf(candidate, |candidate|), selected);
    FirstRemovedNone(Ids(candidate), SortIds(selected), 0);
    IdsAreKeys(candidate);
  }

  /** A transition succeeds exactly for an accepted, complete selection that the candidate still resolves. */
  lemma TransitionExact(previous: seq<Component>, selected: seq<Id>, candidate: seq<Component>)
    ensures Transition(previous, selected, candidate).Ok? <==>
            ValidSelection(selected) && Settled(previous, selected) && Resolvable(candidate, selected)
  {
    if ValidSelection(selected) {
      SettledExact(previous, selected);
      ResolvableExact(candidate, []);
      ResolvableExact(candidate, selected);
      if Resolvable(candidate, selected) {
        EarlierChecksPass(candidate, selected);
      }
    }
  }

  /** A candidate that drops a previously selected component is always refused. */
  lemma RemovalRefused(previous: seq<Component>, selected: seq<Id>, candidate: seq<Component>, n: Id)
    requires n in selected && n !in Ids(candidate)
    ensures Transition(previous, selected, candidate).Err?
  {
    var sorted := SortIds(selected);
    FirstRemovedNone(Ids(candidate), sorted, 0);
    assert n in sorted;
    var k :| 0 <= k < |sorted| && sorted[k] == n;
  }
}
