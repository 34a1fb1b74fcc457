/** The C++ side: the component checks of `inspect_product`, and `resolve_selection`. */
module ProductResolver {
  import opened Sequences
  import opened Bytes
  import opened Wrappers
  import opened ComponentGraph
  import opened ComponentOrder
  import opened ComponentSelection
  import opened ComponentResolver

  /** `require_id`: at most 128 bytes, and no colon. */
  predicate ProductIdentifier(s: Id) {
    && 1 <= |s| <= 128 && Alphanumeric(s[0])
    && forall i :: 0 <= i < |s| ==> Alphanumeric(s[i]) || s[i] == 0x2E || s[i] == 0x5F || s[i] == 0x2D
  }

  /** Strictly ascending, as a bundle must list its components and references. */
  predicate AscendingIds(s: seq<Id>) {
    forall i :: 0 < i < |s| ==> Less(s[i - 1], s[i])
  }

  /** `ids(input, known)`, and the self-reference test of its caller. */
  predicate ProductReferences(refs: seq<Id>, known: seq<Id>, owner: Id) {
    && (forall i :: 0 <= i < |refs| ==> ProductIdentifier(refs[i]) && refs[i] in known && refs[i] != owner)
    && AscendingIds(refs)
  }

  predicate ProductComponent(cs: seq<Component>, k: nat)
    requires k < |cs|
  {
    && ProductReferences(cs[k].dependencies, Ids(cs), cs[k].id)
    && ProductReferences(cs[k].conflicts, Ids(cs), cs[k].id)
    && TotalEdges(cs, k + 1) <= 65536
  }

  /** What `inspect_product` demands of the component list before it resolves a selection. */
  predicate ProductDeclarations(cs: seq<Component>) {
    && 1 <= |cs| <= 4096
    && (forall k :: 0 <= k < |cs| ==> ProductIdentifier(cs[k].id)) && AscendingIds(Ids(cs))
    && forall k :: 0 <= k < |cs| ==> ProductComponent(cs, k)
  }

  /** The nodes with their references as listed. */
  function ProductGraph(cs: seq<Component>, n: nat): Graph
    requires n <= |cs|
  {
    if n == 0 then map[]
    else
      var c := cs[n - 1];
      ProductGraph(cs, n - 1)[c.id := Node(c.required, c.defaultSelected, c.dependencies, c.conflicts)]
  }

  // ----- the methods -----

  method CheckIds(refs: seq<Id>, known: seq<Id>, owner: Id) returns (ok: bool)
    ensures ok == ProductReferences(refs, known, owner)
  {
    var i := 0;
    while i < |refs|
      invariant 0 <= i <= |refs|
      invariant forall k :: 0 <= k < i ==> ProductIdentifier(refs[k]) && refs[k] in known && refs[k] != owner
      invariant forall k :: 0 < k < i ==> Less(refs[k - 1], refs[k])
    {
      if !ProductIdentifier(refs[i]) || (i > 0 && !Less(refs[i - 1], refs[i])) || refs[i] !in known || refs[i] == owner {
        return false;
      }
      i := i + 1;
    }
    return true;
  }

  /** The two passes over the component list: names first, then relations and graph. */
  method ReadComponents(cs: seq<Component>) returns (ok: bool, g: Graph)
    ensures ok == ProductDeclarations(cs)
    ensures ok ==> g == ProductGraph(cs, |cs|)
  {
    g := map[];
    if |cs| == 0 || |cs| > 4096 {
      return false, g;
    }
    var ids := Ids(cs);
    var i := 0;
    while i < |cs|
      invariant 0 <= i <= |cs|
      invariant forall k :: 0 <= k < i ==> ProductIdentifier(cs[k].id)
      invariant forall k :: 0 < k < i ==> Less(ids[k - 1], ids[k])
    {
      if !ProductIdentifier(cs[i].id) || (i > 0 && !Less(ids[i - 1], ids[i])) {
        return false, g;
      }
      i := i + 1;
    }
    var relations := 0;
    i := 0;
    while i < |cs|
      invariant 0 <= i <= |cs| && relations == TotalEdges(cs, i) && g == ProductGraph(cs, i)
      invariant forall k :: 0 <= k < i ==> ProductComponent(cs, k)
    {
      var c := cs[i];
      ok := CheckIds(c.dependencies, ids, c.id);
      if !ok {
        assert !ProductComponent(cs, i);
        return;
      }
      ok := CheckIds(c.conflicts, ids, c.id);
      if !ok {
        assert !ProductComponent(cs, i);
        return;
      }
      relations := relations + (|c.dependencies| + |c.conflicts|);
      if relations > 65536 {
        assert !ProductComponent(cs, i);
        return false, g;
      }
      g := g[c.id := Node(c.required, c.defaultSelected, c.dependencies, c.conflicts)];
      i := i + 1;
    }
    return true, g;
  }

  /** `resolve_selection` on a graph whose components are `names`, in map order. */
  ghost function SelectProduct(g: Graph, names: seq<Id>, requested: seq<Id>): Option<seq<Id>>
    requires Closed(g) && forall n :: n in names <==> n in g
  {
    if |requested| > 4096 then None
    else
      match VisitAll(g, names, 0, [])
      case CycleFound(_) => None
      case Done(order) =>
        if exists n :: n in requested && (!ProductIdentifier(n) || n !in g) then None
        else
          var selected := Selection(g, requested, true);
          if ConflictFree(g, selected) then Some(Filter(order, selected)) else None
  }

  method ResolveSelection(g: Graph, names: seq<Id>, requested: seq<Id>) returns (r: Option<seq<Id>>)
    requires Closed(g) && forall n :: n in names <==> n in g
    ensures r == SelectProduct(g, names, requested)
  {
    if |requested| > 4096 {
      return None;
    }
    var ok, order := DependencyFirstOrder(g, names);
    if !ok {
      return None;
    }
    var pending := DefaultList(g, names);
    var i := 0;
    while i < |requested|
      invariant 0 <= i <= |requested|
      invariant forall k :: 0 <= k < i ==> ProductIdentifier(requested[k]) && requested[k] in g
      invariant Elements(pending) == Seeds(g, true) + Elements(requested[..i])
    {
      if !ProductIdentifier(requested[i]) || requested[i] !in g {
        return None;
      }
      ElementsStep(requested, i);
      ElementsConcat(pending, [requested[i]]);
      pending := pending + [requested[i]];
      i := i + 1;
    }
    assert requested[..i] == requested;
    SeedsKnown(g, requested, true);
    var selected := SelectClosure(g, pending);
    ok := NoConflict(g, names, selected);
    return if ok then Some(Filter(order, selected)) else None;
  }

  lemma ElementsStep(s: seq<Id>, i: nat)
    requires i < |s|
    ensures Elements(s[..i + 1]) == Elements(s[..i]) + Elements([s[i]])
  {
    TakeOneMore(s, i);
    ElementsConcat(s[..i], [s[i]]);
  }

  method DefaultList(g: Graph, names: seq<Id>) returns (pending: seq<Id>)
    requires forall n :: n in names <==> n in g
    ensures Elements(pending) == Seeds(g, true) + Elements([])
  {
    pending := [];
    var i := 0;
    while i < |names|
      invariant 0 <= i <= |names|
      invariant forall n :: n in pending <==> n in names[..i] && n in Seeds(g, true)
    {
      TakeOneMore(names, i);
      if g[names[i]].required || g[names[i]].defaultSelected {
        pending := pending + [names[i]];
      }
      i := i + 1;
    }
    assert names[..|names|] == names;
  }

  method NoConflict(g: Graph, names: seq<Id>, selected: set<Id>) returns (ok: bool)
    requires (forall n :: n in names <==> n in g) && selected <= g.Keys
    ensures ok == ConflictFree(g, selected)
  {
    var i := 0;
    while i < |names|
      invariant 0 <= i <= |names|
      invariant forall k, c :: 0 <= k < i && names[k] in selected && c in g[names[k]].conflicts ==> c !in selected
    {
      if names[i] in selected {
        var conflicts := g[names[i]].conflicts;
        var j := 0;
        while j < |conflicts|
          invariant 0 <= j <= |conflicts|
          invariant forall c :: c in conflicts[..j] ==> c !in selected
        {
          if conflicts[j] in selected {
            return false;
          }
          TakeOneMore(conflicts, j);
          j := j + 1;
        }
        assert conflicts[..|conflicts|] == conflicts;
      }
      i := i + 1;
    }
    forall n, c | n in selected && c in g[n].conflicts ensures c !in selected {
      assert n in names;
      var k :| 0 <= k < |names| && names[k] == n;
    }
    return true;
  }
}
