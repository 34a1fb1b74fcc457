/** The C++ and the Python resolver accept the same sorted bundles and select the same sequence. */
module ResolverAgreement {
  import opened Sequences
  import opened Bytes
  import opened Wrappers
  import opened ComponentGraph
  import opened ComponentSearch
  import opened ComponentSelection
  import opened ComponentResolver
  import opened ProductResolver

  // ----- sorting a sorted list changes nothing -----

  lemma AscendingTail(s: seq<Id>)
    requires AscendingIds(s) && s != []
    ensures AscendingIds(s[1..])
  {
    forall i | 0 < i < |s[1..]| ensures Less(s[1..][i - 1], s[1..][i]) {
      assert Less(s[i], s[i + 1]);
    }
  }

  lemma {:induction false} SortOfAscending(s: seq<Id>)
    requires AscendingIds(s)
    ensures SortIds(s) == s
  {
    if s != [] {
      AscendingTail(s);
      SortOfAscending(s[1..]);
      if |s| > 1 {
        LessTotal(s[0], s[1]);
      }
      HeadAndTail(s);
    }
  }

  lemma {:induction false} AscendingLess(s: seq<Id>, i: nat, j: nat)
    requires AscendingIds(s) && i < j < |s|
    ensures Less(s[i], s[j])
    decreases j - i
  {
    if i + 1 < j {
      AscendingLess(s, i, j - 1);
      LessTransitive(s[i], s[j - 1], s[j]);
    }
  }

  lemma AscendingDistinct(s: seq<Id>)
    requires AscendingIds(s)
    ensures NoDuplicates(s)
  {
    forall i, j | 0 <= i < j < |s| ensures s[i] != s[j] {
      AscendingLess(s, i, j);
      LessTotal(s[i], s[j]);
    }
  }

  // ----- one graph -----

  /** Components and references listed in strictly ascending order. */
  predicate SortedBundle(cs: seq<Component>) {
    AscendingIds(Ids(cs)) && forall k :: 0 <= k < |cs| ==> AscendingIds(cs[k].dependencies) && AscendingIds(cs[k].conflicts)
  }

  predicate SameGrammar(x: Id) {
    ProductIdentifier(x) <==> ValidIdentifier(x)
  }

  /** No identifier in play is one the two grammars judge differently. */
  predicate SharedGrammar(cs: seq<Component>, requested: seq<Id>) {
    && (forall k :: 0 <= k < |cs| ==> SameGrammar(cs[k].id))
    && (forall k, x :: 0 <= k < |cs| && x in cs[k].dependencies ==> SameGrammar(x))
    && (forall k, x :: 0 <= k < |cs| && x in cs[k].conflicts ==> SameGrammar(x))
    && forall x :: x in requested ==> SameGrammar(x)
  }

  lemma {:induction false} SameGraph(cs: seq<Component>, n: nat)
    requires SortedBundle(cs) && n <= |cs|
    ensures ProductGraph(cs, n) == GraphOf(cs, n)
  {
    if n > 0 {
      SameGraph(cs, n - 1);
      SortOfAscending(cs[n - 1].dependencies);
      SortOfAscending(cs[n - 1].conflicts);
    }
  }

  lemma {:induction false} GraphAt(cs: seq<Component>, n: nat, k: nat)
    requires NoDuplicates(Ids(cs)) && k < n <= |cs|
    ensures cs[k].id in GraphOf(cs, n) && GraphOf(cs, n)[cs[k].id] == NodeOf(cs[k])
  {
    if k < n - 1 {
      GraphAt(cs, n - 1, k);
      assert Ids(cs)[k] != Ids(cs)[n - 1];
    }
  }

  lemma IdsAreKeys(cs: seq<Component>)
    ensures forall n :: n in Ids(cs) <==> n in GraphOf(cs, |cs|)
  {
    GraphKeys(cs, |cs|);
    TakeAll(Ids(cs));
  }

  /** Accepted declarations give a graph with sound references. */
  lemma ProductGraphSound(cs: seq<Component>)
    requires ProductDeclarations(cs)
    ensures SortedBundle(cs) && ProductGraph(cs, |cs|) == GraphOf(cs, |cs|)
    ensures ReferencesSound(GraphOf(cs, |cs|)) && forall n :: n in Ids(cs) <==> n in GraphOf(cs, |cs|)
  {
    forall k | 0 <= k < |cs| ensures AscendingIds(cs[k].dependencies) && AscendingIds(cs[k].conflicts) {
      assert ProductComponent(cs, k);
    }
    SameGraph(cs, |cs|);
    AscendingDistinct(Ids(cs));
    IdsAreKeys(cs);
    var g := GraphOf(cs, |cs|);
    forall n | n in g ensures NodeSound(g, n) {
      assert n in Ids(cs);
      var k :| 0 <= k < |cs| && Ids(cs)[k] == n;
      GraphAt(cs, |cs|, k);
      assert ProductComponent(cs, k);
    }
  }

  /** The C++ resolver as one function; nothing is returned where it throws. */
  ghost function ResolveProduct(cs: seq<Component>, requested: seq<Id>): Option<seq<Id>> {
    if !ProductDeclarations(cs) then None
    else
      ProductGraphSound(cs);
      SelectProduct(ProductGraph(cs, |cs|), Ids(cs), requested)
  }

  method InspectAndResolve(cs: seq<Component>, requested: seq<Id>) returns (r: Option<seq<Id>>)
    ensures r == ResolveProduct(cs, requested)
  {
    var ok, g := ReadComponents(cs);
    if !ok {
      return None;
    }
    ProductGraphSound(cs);
    r := ResolveSelection(g, Ids(cs), requested);
  }

  // ----- agreement -----

  /** What the Python resolver returns, as the C++ one would. */
  ghost function PythonSelection(cs: seq<Component>, requested: seq<Id>): Option<seq<Id>> {
    match Resolve(cs, requested, true, MAX_COMPONENTS, MAX_EDGES)
    case Ok(order) => Some(order)
    case Err(_) => None
  }

  lemma SelfLoopIsCycle(g: Graph, n: Id)
    requires n in g && n in Dependencies(g, n)
    ensures !Acyclic(g)
  {
    var w := [n, n];
    assert IsCycle(g, w);
  }

  /** A bundle the Python resolver accepts passes the C++ declaration checks. */
  lemma {:induction false} AcceptedDeclarations(cs: seq<Component>, requested: seq<Id>)
    requires SortedBundle(cs) && SharedGrammar(cs, requested)
    requires 1 <= |cs| <= MAX_COMPONENTS && DeclarationsSound(cs, MAX_EDGES)
    requires ReferencesSound(GraphOf(cs, |cs|)) && Acyclic(GraphOf(cs, |cs|))
    ensures ProductDeclarations(cs)
  {
    var g := GraphOf(cs, |cs|);
    IdsAreKeys(cs);
    forall k | 0 <= k < |cs| ensures ProductIdentifier(cs[k].id) && ProductComponent(cs, k) {
      assert SameGrammar(cs[k].id);
      GraphAt(cs, |cs|, k);
      EdgesGrow(cs, k + 1, |cs|);
      AcceptedReferences(cs, requested, k);
    }
  }

  lemma AcceptedReferences(cs: seq<Component>, requested: seq<Id>, k: nat)
    requires SortedBundle(cs) && SharedGrammar(cs, requested) && k < |cs| && DeclarationsSound(cs, MAX_EDGES)
    requires ReferencesSound(GraphOf(cs, |cs|)) && Acyclic(GraphOf(cs, |cs|))
    ensures ProductReferences(cs[k].dependencies, Ids(cs), cs[k].id)
    ensures ProductReferences(cs[k].conflicts, Ids(cs), cs[k].id)
  {
    var g := GraphOf(cs, |cs|);
    IdsAreKeys(cs);
    GraphAt(cs, |cs|, k);
    var c := cs[k];
    forall i | 0 <= i < |c.dependencies|
      ensures ProductIdentifier(c.dependencies[i]) && c.dependencies[i] in Ids(cs) && c.dependencies[i] != c.id
    {
      var d := c.dependencies[i];
      assert d in Dependencies(g, c.id);
      assert SameGrammar(d);
      if d == c.id {
        SelfLoopIsCycle(g, d);
      }
    }
    forall i | 0 <= i < |c.conflicts|
      ensures ProductIdentifier(c.conflicts[i]) && c.conflicts[i] in Ids(cs) && c.conflicts[i] != c.id
    {
      var x := c.conflicts[i];
      assert x in g[c.id].conflicts;
      assert SameGrammar(x);
    }
  }

  /** Declarations the C++ resolver accepts are sound for the Python one. */
  lemma SoundDeclarations(cs: seq<Component>, requested: seq<Id>)
    requires ProductDeclarations(cs) && SharedGrammar(cs, requested)
    ensures DeclarationsSound(cs, MAX_EDGES)
  {
    AscendingDistinct(Ids(cs));
    assert ProductComponent(cs, |cs| - 1);
    forall k | 0 <= k < |cs|
      ensures ValidIdentifier(cs[k].id) && ValidReferences(cs[k].dependencies) && ValidReferences(cs[k].conflicts)
    {
      assert SameGrammar(cs[k].id) && ProductComponent(cs, k);
      AscendingDistinct(cs[k].dependencies);
      AscendingDistinct(cs[k].conflicts);
      forall i | 0 <= i < |cs[k].dependencies| ensures ValidIdentifier(cs[k].dependencies[i]) {
        assert SameGrammar(cs[k].dependencies[i]);
      }
      forall i | 0 <= i < |cs[k].conflicts| ensures ValidIdentifier(cs[k].conflicts[i]) {
        assert SameGrammar(cs[k].conflicts[i]);
      }
    }
  }

  /** On one sound graph the two last phases agree. */
  lemma SelectionsAgree(g: Graph, names: seq<Id>, order: seq<Id>, requested: seq<Id>)
    requires Closed(g) && (forall n :: n in names <==> n in g) && (forall n :: n in order <==> n in g)
    requires DependencyFirst(g, order) && forall x :: x in requested ==> SameGrammar(x)
    ensures match SelectOrdered(g, names, order, requested, true)
            case Ok(o) =>
              && !(exists n :: n in requested && (!ProductIdentifier(n) || n !in g))
              && ConflictFree(g, Selection(g, requested, true)) && o == Filter(order, Selection(g, requested, true))
            case Err(_) =>
              || (exists n :: n in requested && (!ProductIdentifier(n) || n !in g))
              || !ConflictFree(g, Selection(g, requested, true))
  {
    OrderedSelection(g, names, order, requested, true);
  }

  lemma GraphsAgree(cs: seq<Component>, requested: seq<Id>)
    requires ProductDeclarations(cs) && SharedGrammar(cs, requested) && |requested| <= MAX_COMPONENTS
    ensures var g := GraphOf(cs, |cs|);
            && ReferencesSound(g) && (forall n :: n in Ids(cs) <==> n in g)
            && match ResolveGraph(g, Ids(cs), requested, true)
               case Ok(o) => SelectProduct(g, Ids(cs), requested) == Some(o)
               case Err(_) => SelectProduct(g, Ids(cs), requested) == None
  {
    var g := GraphOf(cs, |cs|);
    ProductGraphSound(cs);
    ReferencesChecked(g, Ids(cs));
    SearchExact(g, Ids(cs));
    match VisitAll(g, Ids(cs), 0, [])
    case CycleFound(_) =>
    case Done(order) => SelectionsAgree(g, Ids(cs), order, requested);
  }

  /**
    * On a sorted bundle whose identifiers both grammars judge alike, defaults included, the two
    * resolvers refuse the same inputs and otherwise return the same sequence.
    */
  lemma ResolversAgree(cs: seq<Component>, requested: seq<Id>)
    requires SortedBundle(cs) && SharedGrammar(cs, requested)
    ensures ResolveProduct(cs, requested) == PythonSelection(cs, requested)
  {
    var g := GraphOf(cs, |cs|);
    ResolutionExact(cs, requested, true, MAX_COMPONENTS, MAX_EDGES);
    SortOfAscending(Ids(cs));
    if ProductDeclarations(cs) {
      ProductGraphSound(cs);
      SoundDeclarations(cs, requested);
      DeclarationsChecked(cs, MAX_EDGES);
      if |requested| <= MAX_COMPONENTS {
        GraphsAgree(cs, requested);
      }
    } else if PythonSelection(cs, requested).Some? {
      AcceptedDeclarations(cs, requested);
    }
  }

  /** Every identifier in play satisfies the stricter grammar. */
  predicate ProductIdentifiersOnly(cs: seq<Component>, requested: seq<Id>) {
    && (forall k :: 0 <= k < |cs| ==> ProductIdentifier(cs[k].id))
    && (forall k, x :: 0 <= k < |cs| && x in cs[k].dependencies ==> ProductIdentifier(x))
    && (forall k, x :: 0 <= k < |cs| && x in cs[k].conflicts ==> ProductIdentifier(x))
    && forall x :: x in requested ==> ProductIdentifier(x)
  }

  lemma StricterGrammar(x: Id)
    requires ProductIdentifier(x)
    ensures SameGrammar(x)
  {
  }

  lemma StricterIsShared(cs: seq<Component>, requested: seq<Id>)
    requires ProductIdentifiersOnly(cs, requested)
    ensures SharedGrammar(cs, requested)
  {
    forall x | ProductIdentifier(x) ensures SameGrammar(x) {
      StricterGrammar(x);
    }
  }

  lemma AcceptedIdentifiers(cs: seq<Component>, requested: seq<Id>)
    requires ResolveProduct(cs, requested).Some?
    ensures SortedBundle(cs) && ProductIdentifiersOnly(cs, requested)
  {
    ProductGraphSound(cs);
    forall k, x | 0 <= k < |cs| && (x in cs[k].dependencies || x in cs[k].conflicts) ensures ProductIdentifier(x) {
      assert ProductComponent(cs, k);
    }
  }

  /**
    * Without any assumption on the bundle: the C++ resolver succeeds exactly where the bundle is
    * sorted, uses only its own identifiers and the Python resolver succeeds, with the same result.
    */
  lemma ProductDomain(cs: seq<Component>, requested: seq<Id>)
    ensures ResolveProduct(cs, requested) ==
            if SortedBundle(cs) && ProductIdentifiersOnly(cs, requested) then PythonSelection(cs, requested) else None
  {
    if ResolveProduct(cs, requested).Some? {
      AcceptedIdentifiers(cs, requested);
    }
    if SortedBundle(cs) && ProductIdentifiersOnly(cs, requested) {
      StricterIsShared(cs, requested);
      ResolversAgree(cs, requested);
    }
  }
}
