/** `_selected_bundle`: the bundle that holds exactly a selection, and why it selects itself. */
module BundleSelection {
  import opened Sequences
  import opened Wrappers
  import opened ComponentGraph
  import opened ComponentSelection
  import opened ComponentResolver
  import opened ResolverAgreement

  /** A retained component: conflicts with excluded ones dropped, selected by default. */
  function Retained(c: Component, included: set<Id>): Component {
    c.(conflicts := Filter(c.conflicts, included), defaultSelected := if c.required then c.defaultSelected else true)
  }

  /** The first `n` components, only the included ones, as retained. */
  function Kept(cs: seq<Component>, included: set<Id>, n: nat): seq<Component>
    requires n <= |cs|
  {
    if n == 0 then []
    else if cs[n - 1].id in included then Kept(cs, included, n - 1) + [Retained(cs[n - 1], included)]
    else Kept(cs, included, n - 1)
  }

  predicate DependenciesIncluded(c: Component, included: set<Id>) {
    forall d :: d in c.dependencies ==> d in included
  }

  /** The derived bundle; none where a dependency has been left out. */
  function SelectedBundle(cs: seq<Component>, included: set<Id>): Option<seq<Component>> {
    if forall k :: 0 <= k < |cs| && cs[k].id in included ==> DependenciesIncluded(cs[k], included)
    then Some(Kept(cs, included, |cs|))
    else None
  }

  /** The included ones among the first `n` components, unedited. */
  function IncludedOnly(cs: seq<Component>, included: set<Id>, n: nat): seq<Component>
    requires n <= |cs|
  {
    if n == 0 then []
    else if cs[n - 1].id in included then IncludedOnly(cs, included, n - 1) + [cs[n - 1]]
    else IncludedOnly(cs, included, n - 1)
  }

  lemma {:induction false} KeptIsEdited(cs: seq<Component>, included: set<Id>, n: nat)
    requires n <= |cs|
    ensures var kept, plain := Kept(cs, included, n), IncludedOnly(cs, included, n);
            && |kept| == |plain| && (forall j :: 0 <= j < |plain| ==> kept[j] == Retained(plain[j], included))
            && ((forall j :: 0 <= j < |plain| ==> DependenciesIncluded(plain[j], included)) <==>
                forall k :: 0 <= k < n && cs[k].id in included ==> DependenciesIncluded(cs[k], included))
  {
    if n > 0 {
      KeptIsEdited(cs, included, n - 1);
      var before, plain := IncludedOnly(cs, included, n - 1), IncludedOnly(cs, included, n);
      if cs[n - 1].id in included {
        assert plain == before + [cs[n - 1]];
        assert forall j :: 0 <= j < |before| ==> plain[j] == before[j];
        assert plain[|before|] == cs[n - 1];
      }
    }
  }

  /** The source's two passes: drop the excluded entries, then edit the remaining ones in place. */
  method DeriveBundle(cs: seq<Component>, selected: seq<Id>) returns (r: Option<seq<Component>>)
    ensures r == SelectedBundle(cs, Elements(selected))
    ensures r.Some? ==> FinalizedBundle(r.value, cs, Elements(selected))
  {
    var included := Elements(selected);
    BundleExact(cs, included);
    var result: seq<Component> := [];
    var i := 0;
    while i < |cs|
      invariant 0 <= i <= |cs| && result == IncludedOnly(cs, included, i)
    {
      if cs[i].id in included {
        result := result + [cs[i]];
      }
      i := i + 1;
    }
    KeptIsEdited(cs, included, |cs|);
    ghost var plain := result;
    i := 0;
    while i < |result|
      invariant 0 <= i <= |result| == |plain|
      invariant forall j :: 0 <= j < i ==> result[j] == Retained(plain[j], included) && DependenciesIncluded(plain[j], included)
      invariant forall j :: i <= j < |plain| ==> result[j] == plain[j]
    {
      var entry := result[i];
      if exists d :: d in entry.dependencies && d !in included {
        assert !DependenciesIncluded(plain[i], included);
        return None;
      }
      entry := entry.(conflicts := Filter(entry.conflicts, included));
      if !entry.required {
        entry := entry.(defaultSelected := true);
      }
      result := result[i := entry];
      i := i + 1;
    }
    SameElements(result, Kept(cs, included, |cs|));
    return Some(result);
  }

  // ----- the derived bundle, component by component -----

  lemma {:induction false} KeptSource(cs: seq<Component>, included: set<Id>, n: nat, j: nat) returns (k: nat)
    requires n <= |cs| && j < |Kept(cs, included, n)|
    ensures k < n && cs[k].id in included && Kept(cs, included, n)[j] == Retained(cs[k], included)
  {
    if cs[n - 1].id in included && j == |Kept(cs, included, n)| - 1 {
      k := n - 1;
    } else {
      k := KeptSource(cs, included, n - 1, j);
    }
  }

  ghost predicate KeptAt(ids: seq<Id>, keep: set<Id>, at: seq<nat>, n: nat)
    requires n <= |ids|
  {
    forall j :: 0 <= j < |at| ==> at[j] < n && ids[at[j]] in keep
  }

  /** The places of a list whose identifier is kept, in order. */
  ghost predicate Marks(ids: seq<Id>, keep: set<Id>, at: seq<nat>) {
    && KeptAt(ids, keep, at, |ids|)
    && (forall i, j :: 0 <= i < j < |at| ==> at[i] < at[j])
    && (forall k {:trigger k in at} :: 0 <= k < |ids| && ids[k] in keep ==> k in at)
  }

  /** What stands at these places. */
  ghost predicate Picks(t: seq<Id>, s: seq<Id>, at: seq<nat>) {
    |t| == |at| && forall j :: 0 <= j < |at| ==> at[j] < |s| && t[j] == s[at[j]]
  }

  ghost predicate TrimmedConflicts(trimmed: seq<Id>, conflicts: seq<Id>, included: set<Id>) {
    exists at: seq<nat> :: Marks(conflicts, included, at) && Picks(trimmed, conflicts, at)
  }

  /** A component of the derived bundle beside its source. */
  ghost predicate Finalized(e: Component, c: Component, included: set<Id>) {
    && e.id == c.id && e.required == c.required && e.dependencies == c.dependencies
    && TrimmedConflicts(e.conflicts, c.conflicts, included)
    && e.defaultSelected == (!c.required || c.defaultSelected)
  }

  /** The derived components are the included ones, in their order, each finalized. */
  ghost predicate FinalizedBundle(kept: seq<Component>, cs: seq<Component>, included: set<Id>) {
    exists at: seq<nat> ::
      && Marks(Ids(cs), included, at) && |kept| == |at|
      && forall j :: 0 <= j < |at| ==> Finalized(kept[j], cs[at[j]], included)
  }

  /** The kept places among the first `n`. */
  ghost function Places(ids: seq<Id>, keep: set<Id>, n: nat): seq<nat>
    requires n <= |ids|
  {
    if n == 0 then []
    else if ids[n - 1] in keep then Places(ids, keep, n - 1) + [n - 1]
    else Places(ids, keep, n - 1)
  }

  lemma {:induction false} PlacesKept(ids: seq<Id>, keep: set<Id>, n: nat)
    requires n <= |ids|
    ensures KeptAt(ids, keep, Places(ids, keep, n), n)
  {
    if n > 0 {
      PlacesKept(ids, keep, n - 1);
    }
  }

  lemma {:induction false} PlacesAscend(ids: seq<Id>, keep: set<Id>, n: nat, i: nat, j: nat)
    requires n <= |ids| && i < j < |Places(ids, keep, n)|
    ensures Places(ids, keep, n)[i] < Places(ids, keep, n)[j]
  {
    PlacesKept(ids, keep, n - 1);
    if j < |Places(ids, keep, n - 1)| {
      PlacesAscend(ids, keep, n - 1, i, j);
    }
  }

  lemma {:induction false} KeptPlaced(ids: seq<Id>, keep: set<Id>, n: nat, k: nat)
    requires k < n <= |ids| && ids[k] in keep
    ensures k in Places(ids, keep, n)
  {
    if k < n - 1 {
      KeptPlaced(ids, keep, n - 1, k);
    }
  }

  lemma PlacesMark(ids: seq<Id>, keep: set<Id>)
    ensures Marks(ids, keep, Places(ids, keep, |ids|))
  {
    PlacesKept(ids, keep, |ids|);
    var at := Places(ids, keep, |ids|);
    forall i, j | 0 <= i < j < |at| ensures at[i] < at[j] {
      PlacesAscend(ids, keep, |ids|, i, j);
    }
    forall k | 0 <= k < |ids| && ids[k] in keep ensures k in Places(ids, keep, |ids|) {
      KeptPlaced(ids, keep, |ids|, k);
    }
  }

  lemma {:induction false} FilterPlaces(s: seq<Id>, keep: set<Id>, n: nat)
    requires n <= |s|
    ensures Picks(Filter(s[..n], keep), s, Places(s, keep, n))
  {
    if n > 0 {
      FilterPlaces(s, keep, n - 1);
      assert s[..n][..n - 1] == s[..n - 1];
    }
  }

  lemma RetainedFinalized(c: Component, included: set<Id>)
    ensures Finalized(Retained(c, included), c, included)
  {
    PlacesMark(c.conflicts, included);
    FilterPlaces(c.conflicts, included, |c.conflicts|);
    assert c.conflicts[..|c.conflicts|] == c.conflicts;
  }

  ghost predicate Retains(kept: seq<Component>, cs: seq<Component>, included: set<Id>, at: seq<nat>) {
    |kept| == |at| && forall j :: 0 <= j < |at| ==> at[j] < |cs| && kept[j] == Retained(cs[at[j]], included)
  }

  lemma {:induction false} KeptPlaces(cs: seq<Component>, included: set<Id>, n: nat)
    requires n <= |cs|
    ensures Retains(Kept(cs, included, n), cs, included, Places(Ids(cs), included, n))
  {
    if n > 0 {
      KeptPlaces(cs, included, n - 1);
    }
  }

  /** What is derived, field by field; nothing exactly where an included component has a dependency that is left out. */
  lemma BundleExact(cs: seq<Component>, included: set<Id>)
    ensures SelectedBundle(cs, included).None? <==>
            exists k, d :: 0 <= k < |cs| && cs[k].id in included && d in cs[k].dependencies && d !in included
    ensures SelectedBundle(cs, included).Some? ==> FinalizedBundle(SelectedBundle(cs, included).value, cs, included)
  {
    var at := Places(Ids(cs), included, |cs|);
    PlacesMark(Ids(cs), included);
    KeptPlaces(cs, included, |cs|);
    forall j | 0 <= j < |at| ensures Finalized(Kept(cs, included, |cs|)[j], cs[at[j]], included) {
      RetainedFinalized(cs[at[j]], included);
    }
  }

  lemma {:induction false} KeptHas(cs: seq<Component>, included: set<Id>, n: nat, k: nat) returns (j: nat)
    requires k < n <= |cs| && cs[k].id in included
    ensures j < |Kept(cs, included, n)| && Kept(cs, included, n)[j] == Retained(cs[k], included)
  {
    if k == n - 1 {
      j := |Kept(cs, included, n)| - 1;
    } else {
      j := KeptHas(cs, included, n - 1, k);
    }
  }

  lemma {:induction false} KeptDistinct(cs: seq<Component>, included: set<Id>, n: nat)
    requires n <= |cs| && NoDuplicates(Ids(cs))
    ensures NoDuplicates(Ids(Kept(cs, included, n)))
  {
    if n > 0 {
      KeptDistinct(cs, included, n - 1);
      var before := Kept(cs, included, n - 1);
      forall j | 0 <= j < |before| ensures before[j].id != cs[n - 1].id {
        var k := KeptSource(cs, included, n - 1, j);
        assert Ids(cs)[k] != Ids(cs)[n - 1];
      }
    }
  }

  lemma {:induction false} FilterShorter(s: seq<Id>, keep: set<Id>)
    ensures |Filter(s, keep)| <= |s|
  {
    if s != [] {
      FilterShorter(s[..|s| - 1], keep);
    }
  }

  lemma {:induction false} FilterDistinct(s: seq<Id>, keep: set<Id>)
    requires NoDuplicates(s)
    ensures NoDuplicates(Filter(s, keep))
  {
    if s != [] {
      FilterDistinct(s[..|s| - 1], keep);
    }
  }

  lemma {:induction false} KeptEdges(cs: seq<Component>, included: set<Id>, n: nat)
    requires n <= |cs|
    ensures var kept := Kept(cs, included, n);
            |kept| <= n && TotalEdges(kept, |kept|) <= TotalEdges(cs, n)
  {
    if n > 0 {
      KeptEdges(cs, included, n - 1);
      if cs[n - 1].id in included {
        var before := Kept(cs, included, n - 1);
        PrefixKept(Kept(cs, included, n), before, |before|);
        FilterShorter(cs[n - 1].conflicts, included);
      }
    }
  }

  /** The derived declarations are sound because the source ones are. */
  lemma KeptDeclarations(cs: seq<Component>, included: set<Id>, limit: nat)
    requires DeclarationsSound(cs, limit)
    ensures DeclarationsSound(Kept(cs, included, |cs|), limit)
  {
    var kept := Kept(cs, included, |cs|);
    KeptDistinct(cs, included, |cs|);
    KeptEdges(cs, included, |cs|);
    forall j | 0 <= j < |kept|
      ensures ValidIdentifier(kept[j].id) && ValidReferences(kept[j].dependencies) && ValidReferences(kept[j].conflicts)
    {
      var k := KeptSource(cs, included, |cs|, j);
      FilterShorter(cs[k].conflicts, included);
      FilterDistinct(cs[k].conflicts, included);
      forall i | 0 <= i < |kept[j].conflicts| ensures ValidIdentifier(kept[j].conflicts[i]) {
        assert kept[j].conflicts[i] in cs[k].conflicts;
      }
    }
  }

  // ----- the derived graph -----

  /** What the derived graph holds for each included component. */
  ghost predicate DerivedFrom(g: Graph, g': Graph, included: set<Id>) {
    && g'.Keys == included && included <= g.Keys
    && forall n :: n in included ==>
         && Dependencies(g', n) == Dependencies(g, n)
         && (forall c :: c in g'[n].conflicts <==> c in g[n].conflicts && c in included)
         && (g'[n].required || g'[n].defaultSelected)
  }

  lemma DerivedGraph(cs: seq<Component>, included: set<Id>)
    requires NoDuplicates(Ids(cs)) && included <= GraphOf(cs, |cs|).Keys
    ensures var kept := Kept(cs, included, |cs|);
            DerivedFrom(GraphOf(cs, |cs|), GraphOf(kept, |kept|), included)
  {
    var g := GraphOf(cs, |cs|);
    var kept := Kept(cs, included, |cs|);
    var g' := GraphOf(kept, |kept|);
    KeptDistinct(cs, included, |cs|);
    IdsAreKeys(cs);
    IdsAreKeys(kept);
    forall n | n in g' ensures n in included {
      assert n in Ids(kept);
      var j :| 0 <= j < |kept| && Ids(kept)[j] == n;
      var k := KeptSource(cs, included, |cs|, j);
    }
    forall n | n in included
      ensures n in g' && Dependencies(g', n) == Dependencies(g, n)
      ensures forall c :: c in g'[n].conflicts <==> c in g[n].conflicts && c in included
      ensures g'[n].required || g'[n].defaultSelected
    {
      assert n in Ids(cs);
      var k :| 0 <= k < |cs| && Ids(cs)[k] == n;
      var j := KeptHas(cs, included, |cs|, k);
      GraphAt(cs, |cs|, k);
      GraphAt(kept, |kept|, j);
    }
  }

  lemma DerivedAcyclic(g: Graph, g': Graph, included: set<Id>)
    requires DerivedFrom(g, g', included) && Acyclic(g)
    ensures Acyclic(g')
  {
    forall w: seq<Id> ensures !IsCycle(g', w) {
      if IsCycle(g', w) {
        assert IsCycle(g, w) by {
          forall k | 0 <= k < |w| ensures w[k] in g {
            assert w[k] in g';
          }
          forall k | 0 <= k < |w| - 1 ensures w[k + 1] in Dependencies(g, w[k]) {
            assert w[k] in included;
          }
        }
      }
    }
  }

  lemma DerivedReferences(g: Graph, g': Graph, included: set<Id>)
    requires DerivedFrom(g, g', included) && ReferencesSound(g) && DependencyClosed(g, included)
    ensures ReferencesSound(g')
  {
    forall n | n in g' ensures NodeSound(g', n) {
      assert n in included;
    }
  }

  lemma DerivedSelection(g: Graph, g': Graph, included: set<Id>)
    requires DerivedFrom(g, g', included) && ReferencesSound(g')
    ensures Selection(g', [], true) == included
  {
    assert Seeds(g', true) + Elements([]) == g'.Keys;
    SeedsReached(g', g'.Keys);
  }

  lemma DerivedConflictFree(g: Graph, g': Graph, included: set<Id>)
    requires DerivedFrom(g, g', included) && ConflictFree(g, included) && included <= g'.Keys
    ensures ConflictFree(g', included)
  {
  }

  /** The derived graph resolves without requests, to all of its components. */
  lemma DerivedResolvable(g: Graph, g': Graph, included: set<Id>)
    requires DerivedFrom(g, g', included) && ReferencesSound(g) && Acyclic(g)
    requires DependencyClosed(g, included) && ConflictFree(g, included)
    ensures GraphResolvable(g', [], true) && Selection(g', [], true) == included
  {
    DerivedAcyclic(g, g', included);
    DerivedReferences(g, g', included);
    DerivedSelection(g, g', included);
    DerivedConflictFree(g, g', included);
  }

  // ----- finalization -----

  lemma {:induction false} FilterTwice(s: seq<Id>, keep: set<Id>)
    ensures Filter(Filter(s, keep), keep) == Filter(s, keep)
  {
    if s != [] {
      var front, last := s[..|s| - 1], s[|s| - 1];
      FilterTwice(front, keep);
      if last in keep {
        FrontOfAppend(Filter(front, keep), last);
      }
    }
  }

  lemma {:induction false} KeptAgain(cs: seq<Component>, included: set<Id>, n: nat)
    requires n <= |cs| && forall k :: 0 <= k < |cs| ==> cs[k].id in included && Retained(cs[k], included) == cs[k]
    ensures Kept(cs, included, n) == cs[..n]
  {
    if n > 0 {
      KeptAgain(cs, included, n - 1);
    }
  }

  /**
    * A resolved selection never misses a dependency; the bundle derived from it, resolved with no
    * requests, selects exactly the retained components; deriving again changes nothing.
    */
  lemma DerivedBundleSelectsItself(cs: seq<Component>, requested: seq<Id>)
    requires Resolve(cs, requested, true, MAX_COMPONENTS, MAX_EDGES).Ok?
    requires Resolve(cs, requested, true, MAX_COMPONENTS, MAX_EDGES).order != []
    ensures var included := Elements(Resolve(cs, requested, true, MAX_COMPONENTS, MAX_EDGES).order);
            var kept := Kept(cs, included, |cs|);
            var again := Resolve(kept, [], true, MAX_COMPONENTS, MAX_EDGES);
            && SelectedBundle(cs, included) == Some(kept)
            && again.Ok? && Elements(again.order) == included == Elements(Ids(kept))
            && SelectedBundle(kept, included) == Some(kept)
  {
    var order := Resolve(cs, requested, true, MAX_COMPONENTS, MAX_EDGES).order;
    var included := Elements(order);
    ResolutionExact(cs, requested, true, MAX_COMPONENTS, MAX_EDGES);
    var g := GraphOf(cs, |cs|);
    var selected := SelectionClosed(g, requested, true);
    assert included == selected && order[0] in included;
    NothingOmitted(cs, included);
    DerivedResolves(cs, included, order[0]);
    KeptUnchanged(cs, included);
  }

  lemma NothingOmitted(cs: seq<Component>, included: set<Id>)
    requires NoDuplicates(Ids(cs)) && DependencyClosed(GraphOf(cs, |cs|), included)
    ensures SelectedBundle(cs, included) == Some(Kept(cs, included, |cs|))
  {
    forall k | 0 <= k < |cs| && cs[k].id in included ensures DependenciesIncluded(cs[k], included) {
      GraphAt(cs, |cs|, k);
      forall d | d in cs[k].dependencies ensures d in included {
        assert d in Dependencies(GraphOf(cs, |cs|), cs[k].id);
      }
    }
  }

  /** A bundle whose graph resolves to all of its components. */
  lemma SelectsAll(kept: seq<Component>, included: set<Id>)
    requires 1 <= |kept| <= MAX_COMPONENTS && DeclarationsSound(kept, MAX_EDGES)
    requires GraphResolvable(GraphOf(kept, |kept|), [], true) && GraphOf(kept, |kept|).Keys == included
    requires Selection(GraphOf(kept, |kept|), [], true) == included
    ensures var again := Resolve(kept, [], true, MAX_COMPONENTS, MAX_EDGES);
            again.Ok? && Elements(again.order) == included == Elements(Ids(kept))
  {
    IdsAreKeys(kept);
    ResolutionExact(kept, [], true, MAX_COMPONENTS, MAX_EDGES);
  }

  lemma {:induction false} DerivedResolves(cs: seq<Component>, included: set<Id>, member: Id)
    requires 1 <= |cs| <= MAX_COMPONENTS && DeclarationsSound(cs, MAX_EDGES) && member in included
    requires included <= GraphOf(cs, |cs|).Keys && ReferencesSound(GraphOf(cs, |cs|)) && Acyclic(GraphOf(cs, |cs|))
    requires DependencyClosed(GraphOf(cs, |cs|), included) && ConflictFree(GraphOf(cs, |cs|), included)
    ensures var kept := Kept(cs, included, |cs|);
            var again := Resolve(kept, [], true, MAX_COMPONENTS, MAX_EDGES);
            again.Ok? && Elements(again.order) == included == Elements(Ids(kept))
  {
    var kept := Kept(cs, included, |cs|);
    DerivedGraph(cs, included);
    DerivedResolvable(GraphOf(cs, |cs|), GraphOf(kept, |kept|), included);
    KeptDeclarations(cs, included, MAX_EDGES);
    KeptEdges(cs, included, |cs|);
    assert kept != [] by {
      assert member in GraphOf(kept, |kept|);
    }
    SelectsAll(kept, included);
  }

  lemma KeptUnchanged(cs: seq<Component>, included: set<Id>)
    requires NoDuplicates(Ids(cs)) && DependencyClosed(GraphOf(cs, |cs|), included)
    ensures var kept := Kept(cs, included, |cs|);
            SelectedBundle(kept, included) == Some(kept)
  {
    var kept := Kept(cs, included, |cs|);
    NothingOmitted(cs, included);
    forall j | 0 <= j < |kept|
      ensures kept[j].id in included && Retained(kept[j], included) == kept[j] && DependenciesIncluded(kept[j], included)
    {
      var k := KeptSource(cs, included, |cs|, j);
      FilterTwice(cs[k].conflicts, included);
    }
    KeptAgain(kept, included, |kept|);
    TakeAll(kept);
  }
}
