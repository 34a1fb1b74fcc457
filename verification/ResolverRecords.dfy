/** What the resolver promises, said of the component records alone. */
module ResolverRecords {
  import opened ComponentGraph
  import opened ComponentSelection
  import opened ComponentResolver
  import opened ResolverAgreement
  import opened BundleTransition

  // ----- conditions on records -----

  predicate Declared(cs: seq<Component>, n: Id) {
    exists k :: 0 <= k < |cs| && cs[k].id == n
  }

  /** `s` holds what a selection starts from: required and, if asked for, default components, and the requests. */
  predicate Starts(cs: seq<Component>, requested: seq<Id>, includeDefaults: bool, s: set<Id>) {
    && (forall k :: 0 <= k < |cs| && cs[k].required ==> cs[k].id in s)
    && (forall k :: 0 <= k < |cs| && includeDefaults && cs[k].defaultSelected ==> cs[k].id in s)
    && forall n :: n in requested ==> n in s
  }

  /** `s` holds the dependencies of all it holds. */
  predicate Complete(cs: seq<Component>, s: set<Id>) {
    forall k, d :: 0 <= k < |cs| && cs[k].id in s && d in cs[k].dependencies ==> d in s
  }

  /** No component of `s` conflicts with another one of it. */
  predicate Peaceful(cs: seq<Component>, s: set<Id>) {
    forall k, c :: 0 <= k < |cs| && cs[k].id in s && c in cs[k].conflicts ==> c !in s
  }

  /** Every reference is declared, and no component conflicts with itself. */
  predicate WellReferenced(cs: seq<Component>) {
    forall k :: 0 <= k < |cs| ==> Referenced(cs, k)
  }

  predicate Referenced(cs: seq<Component>, k: nat)
    requires k < |cs|
  {
    && (forall d :: d in cs[k].dependencies ==> Declared(cs, d))
    && (forall c :: c in cs[k].conflicts ==> Declared(cs, c) && c != cs[k].id)
  }

  // ----- records and graph -----

  /** The node of a component holds what its record holds, references in some order. */
  ghost predicate NodeMirrors(g: Graph, c: Component) {
    && c.id in g && g[c.id].required == c.required && g[c.id].defaultSelected == c.defaultSelected
    && (forall d :: d in g[c.id].dependencies <==> d in c.dependencies)
    && forall d :: d in g[c.id].conflicts <==> d in c.conflicts
  }

  ghost predicate Mirrors(g: Graph, cs: seq<Component>) {
    Mirrored(g, cs, |cs|) && AllDeclared(cs, g.Keys)
  }

  predicate AllDeclared(cs: seq<Component>, s: set<Id>) {
    forall n :: n in s ==> Declared(cs, n)
  }

  ghost predicate Mirrored(g: Graph, cs: seq<Component>, n: nat)
    requires n <= |cs|
  {
    n == 0 || (NodeMirrors(g, cs[n - 1]) && Mirrored(g, cs, n - 1))
  }

  lemma {:induction false} MirroredAt(g: Graph, cs: seq<Component>, n: nat, k: nat)
    requires n <= |cs| && Mirrored(g, cs, n) && k < n
    ensures NodeMirrors(g, cs[k])
  {
    if k < n - 1 {
      MirroredAt(g, cs, n - 1, k);
    }
  }

  lemma NodeIsMirror(g: Graph, c: Component)
    requires c.id in g && g[c.id] == NodeOf(c)
    ensures NodeMirrors(g, c)
  {
  }

  lemma KeysDeclared(cs: seq<Component>, g: Graph)
    requires forall n :: n in g ==> n in Ids(cs)
    ensures forall n :: n in g ==> Declared(cs, n)
  {
    forall n | n in g ensures Declared(cs, n) {
      var i :| 0 <= i < |Ids(cs)| && Ids(cs)[i] == n;
      assert cs[i].id == n;
    }
  }

  lemma GraphKeysDeclared(cs: seq<Component>, g: Graph)
    requires g == GraphOf(cs, |cs|)
    ensures forall n :: n in g ==> Declared(cs, n)
  {
    IdsAreKeys(cs);
    KeysDeclared(cs, g);
  }

  lemma RecordIsMirrored(cs: seq<Component>, k: nat, g: Graph)
    requires NoDuplicates(Ids(cs)) && k < |cs| && g == GraphOf(cs, |cs|)
    ensures NodeMirrors(g, cs[k])
  {
    GraphAt(cs, |cs|, k);
    NodeIsMirror(g, cs[k]);
  }

  lemma {:induction false} RecordsMirrored(cs: seq<Component>, n: nat, g: Graph)
    requires NoDuplicates(Ids(cs)) && n <= |cs| && g == GraphOf(cs, |cs|)
    ensures Mirrored(g, cs, n)
  {
    if n > 0 {
      RecordsMirrored(cs, n - 1, g);
      RecordIsMirrored(cs, n - 1, g);
    }
  }

  lemma GraphMirrors(cs: seq<Component>, g: Graph)
    requires NoDuplicates(Ids(cs)) && g == GraphOf(cs, |cs|)
    ensures Mirrors(g, cs)
  {
    RecordsMirrored(cs, |cs|, g);
    KeysToo(cs, g);
  }

  lemma KeysToo(cs: seq<Component>, g: Graph)
    requires Mirrored(g, cs, |cs|) && g == GraphOf(cs, |cs|)
    ensures Mirrors(g, cs)
  {
    GraphKeysDeclared(cs, g);
  }

  lemma SeedsStart(g: Graph, cs: seq<Component>, includeDefaults: bool, s: set<Id>)
    requires Mirrors(g, cs)
    ensures Starts(cs, [], includeDefaults, s) <==> Seeds(g, includeDefaults) <= s
  {
    if Starts(cs, [], includeDefaults, s) {
      forall n | n in Seeds(g, includeDefaults) ensures n in s {
        var k :| 0 <= k < |cs| && cs[k].id == n;
        MirroredAt(g, cs, |cs|, k);
      }
    }
    if Seeds(g, includeDefaults) <= s {
      forall k | 0 <= k < |cs| && (cs[k].required || (includeDefaults && cs[k].defaultSelected)) ensures cs[k].id in s {
        MirroredAt(g, cs, |cs|, k);
        assert cs[k].id in Seeds(g, includeDefaults);
      }
    }
  }

  lemma RequestsStart(cs: seq<Component>, requested: seq<Id>, includeDefaults: bool, s: set<Id>)
    ensures Starts(cs, requested, includeDefaults, s) <==> Starts(cs, [], includeDefaults, s) && Elements(requested) <= s
  {
  }

  lemma CompleteIsClosed(g: Graph, cs: seq<Component>, s: set<Id>)
    requires Mirrors(g, cs)
    ensures Complete(cs, s) <==> DependencyClosed(g, s)
  {
    if Complete(cs, s) {
      forall n, d | n in s && n in g && d in Dependencies(g, n) ensures d in s {
        var k :| 0 <= k < |cs| && cs[k].id == n;
        MirroredAt(g, cs, |cs|, k);
      }
    }
    if DependencyClosed(g, s) {
      forall k, d | 0 <= k < |cs| && cs[k].id in s && d in cs[k].dependencies ensures d in s {
        MirroredAt(g, cs, |cs|, k);
        assert d in Dependencies(g, cs[k].id);
      }
    }
  }

  lemma PeacefulIsConflictFree(g: Graph, cs: seq<Component>, s: set<Id>)
    requires Mirrors(g, cs)
    ensures Peaceful(cs, s) <==> ConflictFree(g, s)
  {
    if Peaceful(cs, s) {
      forall n, c | n in s && n in g && c in g[n].conflicts ensures c !in s {
        var k :| 0 <= k < |cs| && cs[k].id == n;
        MirroredAt(g, cs, |cs|, k);
      }
    }
    if ConflictFree(g, s) {
      forall k, c | 0 <= k < |cs| && cs[k].id in s && c in cs[k].conflicts ensures c !in s {
        MirroredAt(g, cs, |cs|, k);
      }
    }
  }

  // ----- what is selected -----

  /**
    * The resolved components are the least set that holds the required ones, the defaults if asked
    * for, the requests and every dependency; none of them conflict, and each comes once, behind its
    * dependencies.
    */
  lemma SelectedRecords(cs: seq<Component>, requested: seq<Id>, includeDefaults: bool, componentLimit: int, edgeLimit: int)
    requires Resolve(cs, requested, includeDefaults, componentLimit, edgeLimit).Ok?
    ensures var order := Resolve(cs, requested, includeDefaults, componentLimit, edgeLimit).order;
            && Starts(cs, requested, includeDefaults, Elements(order)) && Complete(cs, Elements(order)) && Peaceful(cs, Elements(order))
            && NoDuplicates(order) && (forall n :: n in order ==> Declared(cs, n)) && Behind(cs, order)
  {
    var order := Resolve(cs, requested, includeDefaults, componentLimit, edgeLimit).order;
    ResolutionExact(cs, requested, includeDefaults, componentLimit, edgeLimit);
    var g := GraphOf(cs, |cs|);
    GraphMirrors(cs, GraphOf(cs, |cs|));
    var selected := SelectionClosed(g, requested, includeDefaults);
    ClosureIsLeast(g, Seeds(g, includeDefaults) + Elements(requested), {});
    SeedsStart(g, cs, includeDefaults, selected);
    RequestsStart(cs, requested, includeDefaults, selected);
    CompleteIsClosed(g, cs, selected);
    PeacefulIsConflictFree(g, cs, selected);
    OrderIsBehind(g, cs, order);
  }

  /** Each component comes behind its dependencies. */
  predicate Behind(cs: seq<Component>, order: seq<Id>) {
    forall i, k, d :: 0 <= i < |order| && 0 <= k < |cs| && cs[k].id == order[i] && d in cs[k].dependencies ==> d in order[..i]
  }

  lemma OrderIsBehind(g: Graph, cs: seq<Component>, order: seq<Id>)
    requires Mirrors(g, cs) && DependencyFirst(g, order)
    ensures Behind(cs, order) && forall n :: n in order ==> Declared(cs, n)
  {
    forall i, k, d | 0 <= i < |order| && 0 <= k < |cs| && cs[k].id == order[i] && d in cs[k].dependencies ensures d in order[..i] {
      MirroredAt(g, cs, |cs|, k);
      assert d in Dependencies(g, order[i]);
    }
  }

  lemma SelectedLeast(cs: seq<Component>, requested: seq<Id>, includeDefaults: bool, componentLimit: int, edgeLimit: int, other: set<Id>)
    requires Resolve(cs, requested, includeDefaults, componentLimit, edgeLimit).Ok?
    requires Starts(cs, requested, includeDefaults, other) && Complete(cs, other)
    ensures Elements(Resolve(cs, requested, includeDefaults, componentLimit, edgeLimit).order) <= other
  {
    ResolutionExact(cs, requested, includeDefaults, componentLimit, edgeLimit);
    var g := GraphOf(cs, |cs|);
    GraphMirrors(cs, GraphOf(cs, |cs|));
    SeedsStart(g, cs, includeDefaults, other);
    RequestsStart(cs, requested, includeDefaults, other);
    CompleteIsClosed(g, cs, other);
    SeedsKnown(g, requested, includeDefaults);
    ClosureIsLeast(g, Seeds(g, includeDefaults) + Elements(requested), other);
  }

  /** The same of the C++ resolver, which always includes the defaults. */
  lemma ProductSelects(cs: seq<Component>, requested: seq<Id>, other: set<Id>)
    requires ResolveProduct(cs, requested).Some?
    ensures var order := ResolveProduct(cs, requested).value;
            && Starts(cs, requested, true, Elements(order)) && Complete(cs, Elements(order)) && Peaceful(cs, Elements(order))
            && NoDuplicates(order) && (forall n :: n in order ==> Declared(cs, n)) && Behind(cs, order)
            && (Starts(cs, requested, true, other) && Complete(cs, other) ==> Elements(order) <= other)
  {
    ProductDomain(cs, requested);
    SelectedRecords(cs, requested, true, MAX_COMPONENTS, MAX_EDGES);
    if Starts(cs, requested, true, other) && Complete(cs, other) {
      SelectedLeast(cs, requested, true, MAX_COMPONENTS, MAX_EDGES, other);
    }
  }

  /** And of a transition: it keeps the selection and adds what the candidate requires, with all dependencies, and no more. */
  lemma TransitionSelects(previous: seq<Component>, selected: seq<Id>, candidate: seq<Component>, other: set<Id>)
    requires Transition(previous, selected, candidate).Ok?
    ensures var order := Transition(previous, selected, candidate).order;
            && Starts(candidate, selected, false, Elements(order)) && Complete(candidate, Elements(order))
            && Peaceful(candidate, Elements(order)) && NoDuplicates(order) && Behind(candidate, order)
            && (Starts(candidate, selected, false, other) && Complete(candidate, other) ==> Elements(order) <= other)
  {
    TransitionResolves(previous, selected, candidate);
    SelectedRecords(candidate, selected, false, MAX_COMPONENTS, MAX_EDGES);
    if Starts(candidate, selected, false, other) && Complete(candidate, other) {
      SelectedLeast(candidate, selected, false, MAX_COMPONENTS, MAX_EDGES, other);
    }
  }

  // ----- when it succeeds -----

  lemma WellReferencedIsSound(g: Graph, cs: seq<Component>)
    requires Mirrors(g, cs)
    ensures WellReferenced(cs) <==> ReferencesSound(g)
  {
    forall n ensures Declared(cs, n) <==> n in g {
      DeclaredIsKey(g, cs, n);
    }
    if WellReferenced(cs) {
      forall n | n in g ensures NodeSound(g, n) {
        var k :| 0 <= k < |cs| && cs[k].id == n;
        MirroredAt(g, cs, |cs|, k);
        assert Referenced(cs, k);
      }
    }
    if ReferencesSound(g) {
      forall k | 0 <= k < |cs| ensures Referenced(cs, k) {
        SoundIsReferenced(g, cs, k);
      }
    }
  }

  lemma DeclaredIsKey(g: Graph, cs: seq<Component>, n: Id)
    requires Mirrors(g, cs)
    ensures Declared(cs, n) <==> n in g
  {
    if Declared(cs, n) {
      var k :| 0 <= k < |cs| && cs[k].id == n;
      MirroredAt(g, cs, |cs|, k);
    }
  }

  lemma SoundIsReferenced(g: Graph, cs: seq<Component>, k: nat)
    requires Mirrors(g, cs) && ReferencesSound(g) && k < |cs| && forall n :: Declared(cs, n) <==> n in g
    ensures Referenced(cs, k)
  {
    MirroredAt(g, cs, |cs|, k);
    forall d | d in cs[k].dependencies ensures Declared(cs, d) {
      assert d in Dependencies(g, cs[k].id);
    }
  }

  /** A cycle of the records: each entry is declared and the next one is among its dependencies. */
  predicate Needs(cs: seq<Component>, n: Id, d: Id) {
    exists k :: 0 <= k < |cs| && cs[k].id == n && d in cs[k].dependencies
  }

  ghost predicate RecordCycle(cs: seq<Component>, w: seq<Id>) {
    |w| >= 2 && w[0] == w[|w| - 1] && forall i :: 0 <= i < |w| - 1 ==> Needs(cs, w[i], w[i + 1])
  }

  lemma NeedsIsDependency(g: Graph, cs: seq<Component>, n: Id, d: Id)
    requires Mirrors(g, cs) && NoDuplicates(Ids(cs))
    ensures Needs(cs, n, d) <==> n in g && d in Dependencies(g, n)
  {
    if Needs(cs, n, d) {
      var k :| 0 <= k < |cs| && cs[k].id == n && d in cs[k].dependencies;
      MirroredAt(g, cs, |cs|, k);
    }
    if n in g && d in Dependencies(g, n) {
      var k :| 0 <= k < |cs| && cs[k].id == n;
      MirroredAt(g, cs, |cs|, k);
    }
  }

  lemma CycleIsCycle(g: Graph, cs: seq<Component>, w: seq<Id>)
    requires Mirrors(g, cs) && NoDuplicates(Ids(cs)) && Closed(g)
    ensures RecordCycle(cs, w) <==> IsCycle(g, w)
  {
    forall i | 0 <= i < |w| - 1 ensures Needs(cs, w[i], w[i + 1]) <==> w[i] in g && w[i + 1] in Dependencies(g, w[i]) {
      NeedsIsDependency(g, cs, w[i], w[i + 1]);
    }
    if RecordCycle(cs, w) {
      forall i | 0 <= i < |w| ensures w[i] in g {
        if i == |w| - 1 {
          assert Needs(cs, w[0], w[1]);
        } else {
          assert Needs(cs, w[i], w[i + 1]);
        }
      }
    }
  }

  /** The least set is peaceful if any larger one is. */
  lemma PeacefulBelow(cs: seq<Component>, s: set<Id>, t: set<Id>)
    requires s <= t && Peaceful(cs, t)
    ensures Peaceful(cs, s)
  {
  }

  /** Some set holds what the selection starts from and every dependency, and is free of conflicts. */
  ghost predicate Satisfiable(cs: seq<Component>, requested: seq<Id>, includeDefaults: bool) {
    exists s: set<Id> :: Starts(cs, requested, includeDefaults, s) && Complete(cs, s) && Peaceful(cs, s)
  }

  lemma SatisfiableExact(g: Graph, cs: seq<Component>, requested: seq<Id>, includeDefaults: bool)
    requires Mirrors(g, cs) && Closed(g) && forall n :: n in requested ==> n in g
    ensures Satisfiable(cs, requested, includeDefaults) <==> ConflictFree(g, Selection(g, requested, includeDefaults))
  {
    var seeds := Seeds(g, includeDefaults) + Elements(requested);
    var least := Selection(g, requested, includeDefaults);
    SeedsKnown(g, requested, includeDefaults);
    ClosureIsLeast(g, seeds, {});
    PeacefulIsConflictFree(g, cs, least);
    SeedsStart(g, cs, includeDefaults, least);
    RequestsStart(cs, requested, includeDefaults, least);
    CompleteIsClosed(g, cs, least);
    if s: set<Id> :| Starts(cs, requested, includeDefaults, s) && Complete(cs, s) && Peaceful(cs, s) {
      SeedsStart(g, cs, includeDefaults, s);
      RequestsStart(cs, requested, includeDefaults, s);
      CompleteIsClosed(g, cs, s);
      ClosureIsLeast(g, seeds, s);
      PeacefulBelow(cs, least, s);
    }
  }

  /** The resolver succeeds exactly on records whose references are sound and acyclic and whose demands can be met. */
  lemma SuccessExact(cs: seq<Component>, requested: seq<Id>, includeDefaults: bool, componentLimit: int, edgeLimit: int)
    ensures Resolve(cs, requested, includeDefaults, componentLimit, edgeLimit).Ok? <==>
            && 1 <= componentLimit <= MAX_COMPONENTS && 0 <= edgeLimit <= MAX_EDGES
            && 1 <= |cs| <= componentLimit && |requested| <= componentLimit && DeclarationsSound(cs, edgeLimit)
            && WellReferenced(cs) && (forall w :: !RecordCycle(cs, w))
            && (forall n :: n in requested ==> ValidIdentifier(n) && Declared(cs, n))
            && Satisfiable(cs, requested, includeDefaults)
  {
    ResolutionExact(cs, requested, includeDefaults, componentLimit, edgeLimit);
    if 0 <= edgeLimit && DeclarationsSound(cs, edgeLimit) {
      GraphMirrors(cs, GraphOf(cs, |cs|));
      GraphResolvableExact(GraphOf(cs, |cs|), cs, requested, includeDefaults);
    }
  }

  lemma GraphResolvableExact(g: Graph, cs: seq<Component>, requested: seq<Id>, includeDefaults: bool)
    requires Mirrors(g, cs) && NoDuplicates(Ids(cs))
    ensures GraphResolvable(g, requested, includeDefaults) <==>
            && WellReferenced(cs) && (forall w :: !RecordCycle(cs, w))
            && (forall n :: n in requested ==> ValidIdentifier(n) && Declared(cs, n))
            && Satisfiable(cs, requested, includeDefaults)
  {
    WellReferencedIsSound(g, cs);
    if WellReferenced(cs) {
      forall w: seq<Id> ensures RecordCycle(cs, w) <==> IsCycle(g, w) {
        CycleIsCycle(g, cs, w);
      }
      forall n ensures Declared(cs, n) <==> n in g {
        DeclaredIsKey(g, cs, n);
      }
      if forall n :: n in requested ==> n in g {
        SatisfiableExact(g, cs, requested, includeDefaults);
      }
    }
  }
}
