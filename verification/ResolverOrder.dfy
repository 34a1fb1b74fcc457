/** The order in which components and references are written does not matter to the resolver. */
module ResolverOrder {
  import opened Sequences
  import opened Bytes
  import opened ComponentGraph
  import opened ComponentResolver
  import opened ResolverAgreement

  /** A component with its references as bags. */
  datatype Record = Record(id: Id, required: bool, defaultSelected: bool, dependencies: multiset<Id>, conflicts: multiset<Id>)

  function RecordOf(c: Component): Record {
    Record(c.id, c.required, c.defaultSelected, multiset(c.dependencies), multiset(c.conflicts))
  }

  function Records(cs: seq<Component>): (r: seq<Record>)
    ensures |r| == |cs| && forall k :: 0 <= k < |cs| ==> r[k] == RecordOf(cs[k])
  {
    seq(|cs|, k requires 0 <= k < |cs| => RecordOf(cs[k]))
  }

  /** The same components in any order, each with its references in any order. */
  ghost predicate Rearranged(cs: seq<Component>, ds: seq<Component>) {
    multiset(Records(cs)) == multiset(Records(ds))
  }

  // ----- sorting forgets the order -----

  lemma SortedFirst(a: seq<Id>, b: seq<Id>)
    requires a != [] && SortedIds(a) && SortedIds(b) && multiset(a) == multiset(b)
    ensures b != [] && a[0] == b[0]
  {
    assert a[0] in multiset(a);
    assert a[0] in b;
    var t :| 0 <= t < |b| && b[t] == a[0];
    assert b[0] in multiset(b);
    assert b[0] in a;
    var u :| 0 <= u < |a| && a[u] == b[0];
    LessTotal(a[0], b[0]);
  }

  lemma {:induction false} SortedUnique(a: seq<Id>, b: seq<Id>)
    requires SortedIds(a) && SortedIds(b) && multiset(a) == multiset(b)
    ensures a == b
  {
    if a == [] {
      assert |multiset(b)| == 0;
    } else {
      SortedFirst(a, b);
      SameTails(a, b);
      SortedUnique(a[1..], b[1..]);
      HeadAndTail(a);
      HeadAndTail(b);
    }
  }

  lemma SortForgets(a: seq<Id>, b: seq<Id>)
    requires multiset(a) == multiset(b)
    ensures SortIds(a) == SortIds(b)
  {
    SortExact(a);
    SortExact(b);
    SortedUnique(SortIds(a), SortIds(b));
  }

  // ----- one component taken out of each list -----

  function Without<T>(s: seq<T>, j: nat): seq<T>
    requires j < |s|
  {
    s[..j] + s[j + 1..]
  }

  lemma WithoutCounts<T>(s: seq<T>, j: nat)
    requires j < |s|
    ensures multiset(s) == multiset(Without(s, j)) + multiset{s[j]}
  {
    assert s == s[..j] + [s[j]] + s[j + 1..];
  }

  lemma RecordsWithout(ds: seq<Component>, j: nat)
    requires j < |ds|
    ensures Records(Without(ds, j)) == Without(Records(ds), j)
    ensures Ids(Without(ds, j)) == Without(Ids(ds), j)
  {
  }

  /** The counterpart of the first component, and what is left. */
  lemma TakenOut(cs: seq<Component>, ds: seq<Component>) returns (j: nat)
    requires Rearranged(cs, ds) && cs != []
    ensures j < |ds| && RecordOf(ds[j]) == RecordOf(cs[0]) && Rearranged(Without(cs, 0), Without(ds, j))
  {
    var r := Records(cs)[0];
    assert r in multiset(Records(cs));
    assert r in Records(ds);
    var i :| 0 <= i < |ds| && Records(ds)[i] == r;
    j := i;
    WithoutCounts(Records(cs), 0);
    WithoutCounts(Records(ds), j);
    RecordsWithout(cs, 0);
    RecordsWithout(ds, j);
    SameRest(multiset(Records(cs)), multiset(Records(Without(cs, 0))), multiset(Records(Without(ds, j))), r);
  }

  lemma SameRest<T>(all: multiset<T>, a: multiset<T>, b: multiset<T>, x: T)
    requires all == a + multiset{x} && all == b + multiset{x}
    ensures a == b
  {
    assert a == all - multiset{x} && b == all - multiset{x};
  }

  // ----- what the lists have in common -----

  lemma {:induction false} EdgesWithout(ds: seq<Component>, j: nat)
    requires j < |ds|
    ensures TotalEdges(ds, |ds|) == TotalEdges(Without(ds, j), |ds| - 1) + Edges(ds[j])
  {
    var rest := Without(ds, j);
    if j == |ds| - 1 {
      PrefixKept(ds, rest, |rest|);
    } else {
      var front := ds[..|ds| - 1];
      EdgesWithout(front, j);
      PrefixKept(ds, front, |front|);
      PrefixKept(rest, Without(front, j), |rest| - 1);
    }
  }

  lemma SameLength(cs: seq<Component>, ds: seq<Component>)
    requires Rearranged(cs, ds)
    ensures |cs| == |ds|
  {
    assert |multiset(Records(cs))| == |cs| && |multiset(Records(ds))| == |ds|;
  }

  lemma EdgesTakenOut(ds: seq<Component>, j: nat, rest: seq<Component>, e: nat)
    requires j < |ds| && rest == Without(ds, j) && e == Edges(ds[j])
    ensures TotalEdges(ds, |ds|) == TotalEdges(rest, |rest|) + e
  {
    EdgesWithout(ds, j);
  }

  lemma {:induction false} SameTotals(cs: seq<Component>, ds: seq<Component>)
    requires Rearranged(cs, ds)
    ensures TotalEdges(cs, |cs|) == TotalEdges(ds, |ds|)
    decreases |cs|
  {
    SameLength(cs, ds);
    if cs != [] {
      var j := TakenOut(cs, ds);
      var e, fewer, rest := Edges(cs[0]), Without(cs, 0), Without(ds, j);
      SameTotals(fewer, rest);
      SameEdges(cs[0], ds[j]);
      EdgesTakenOut(cs, 0, fewer, e);
      EdgesTakenOut(ds, j, rest, e);
    }
  }

  lemma IdsWithout(cs: seq<Component>, j: nat)
    requires j < |cs|
    ensures multiset(Ids(cs)) == multiset(Ids(Without(cs, j))) + multiset{cs[j].id}
  {
    RecordsWithout(cs, j);
    WithoutCounts(Ids(cs), j);
  }

  lemma {:induction false} SameIds(cs: seq<Component>, ds: seq<Component>)
    requires Rearranged(cs, ds)
    ensures multiset(Ids(cs)) == multiset(Ids(ds))
    decreases |cs|
  {
    SameLength(cs, ds);
    if cs != [] {
      var j := TakenOut(cs, ds);
      SameIds(Without(cs, 0), Without(ds, j));
      IdsWithout(cs, 0);
      IdsWithout(ds, j);
    }
  }

  lemma SameEdges(c: Component, d: Component)
    requires RecordOf(c) == RecordOf(d)
    ensures Edges(c) == Edges(d)
  {
    assert |multiset(c.dependencies)| == |c.dependencies| && |multiset(d.dependencies)| == |d.dependencies|;
    assert |multiset(c.conflicts)| == |c.conflicts| && |multiset(d.conflicts)| == |d.conflicts|;
  }

  // ----- distinctness and validity depend on the bag alone -----

  lemma DistinctByBag(a: seq<Id>, b: seq<Id>)
    requires multiset(a) == multiset(b) && NoDuplicates(a)
    ensures NoDuplicates(b)
  {
    forall i, j | 0 <= i < j < |b| ensures b[i] != b[j] {
      if b[i] == b[j] {
        MetTwice(b, i, j);
        assert b[i] in multiset(b);
        assert b[i] in a;
        var k :| 0 <= k < |a| && a[k] == b[i];
        MetOnce(a, k);
      }
    }
  }

  lemma MetOnce(s: seq<Id>, k: nat)
    requires k < |s| && NoDuplicates(s)
    ensures multiset(s)[s[k]] == 1
  {
    WithoutCounts(s, k);
    forall i | 0 <= i < |Without(s, k)| ensures Without(s, k)[i] != s[k] {
      assert Without(s, k)[i] == s[if i < k then i else i + 1];
    }
    assert s[k] !in Without(s, k);
  }

  lemma ReferencesByBag(a: seq<Id>, b: seq<Id>)
    requires multiset(a) == multiset(b) && ValidReferences(a)
    ensures ValidReferences(b)
  {
    assert |multiset(a)| == |a| && |multiset(b)| == |b|;
    DistinctByBag(a, b);
    forall i | 0 <= i < |b| ensures ValidIdentifier(b[i]) {
      assert b[i] in multiset(b);
      assert b[i] in a;
    }
  }

  lemma Counterpart(cs: seq<Component>, ds: seq<Component>, j: nat) returns (k: nat)
    requires Rearranged(cs, ds) && j < |ds|
    ensures k < |cs| && RecordOf(cs[k]) == RecordOf(ds[j])
  {
    assert Records(ds)[j] in multiset(Records(ds));
    assert Records(ds)[j] in Records(cs);
    var i :| 0 <= i < |cs| && Records(cs)[i] == Records(ds)[j];
    k := i;
  }

  lemma SoundRearranged(cs: seq<Component>, ds: seq<Component>, limit: nat)
    requires Rearranged(cs, ds) && DeclarationsSound(cs, limit)
    ensures DeclarationsSound(ds, limit)
  {
    SameTotals(cs, ds);
    SameIds(cs, ds);
    DistinctByBag(Ids(cs), Ids(ds));
    forall j | 0 <= j < |ds|
      ensures ValidIdentifier(ds[j].id) && ValidReferences(ds[j].dependencies) && ValidReferences(ds[j].conflicts)
    {
      var k := Counterpart(cs, ds, j);
      ReferencesByBag(cs[k].dependencies, ds[j].dependencies);
      ReferencesByBag(cs[k].conflicts, ds[j].conflicts);
    }
  }

  // ----- the same graph -----

  lemma SameNode(c: Component, d: Component)
    requires RecordOf(c) == RecordOf(d)
    ensures NodeOf(c) == NodeOf(d)
  {
    SortForgets(c.dependencies, d.dependencies);
    SortForgets(c.conflicts, d.conflicts);
  }

  lemma NodeRearranged(cs: seq<Component>, ds: seq<Component>, n: Id)
    requires Rearranged(cs, ds) && NoDuplicates(Ids(cs)) && NoDuplicates(Ids(ds)) && n in GraphOf(ds, |ds|)
    ensures n in GraphOf(cs, |cs|) && GraphOf(cs, |cs|)[n] == GraphOf(ds, |ds|)[n]
  {
    IdsAreKeys(ds);
    var i :| 0 <= i < |Ids(ds)| && Ids(ds)[i] == n;
    var k := Counterpart(cs, ds, i);
    SameNode(cs[k], ds[i]);
    GraphAt(ds, |ds|, i);
    GraphAt(cs, |cs|, k);
  }

  lemma SameGraph(cs: seq<Component>, ds: seq<Component>)
    requires Rearranged(cs, ds) && NoDuplicates(Ids(cs)) && NoDuplicates(Ids(ds))
    ensures GraphOf(cs, |cs|) == GraphOf(ds, |ds|)
  {
    var g, h := GraphOf(cs, |cs|), GraphOf(ds, |ds|);
    forall n | n in h ensures n in g && g[n] == h[n] {
      NodeRearranged(cs, ds, n);
    }
    forall n | n in g ensures n in h {
      NodeRearranged(ds, cs, n);
    }
  }

  /** Rearranging sound declarations changes nothing, refusals and their witnesses included. */
  lemma RearrangedAlike(cs: seq<Component>, ds: seq<Component>, requested: seq<Id>, includeDefaults: bool, componentLimit: int,
                        edgeLimit: nat)
    requires Rearranged(cs, ds) && DeclarationsSound(cs, edgeLimit)
    ensures Resolve(ds, requested, includeDefaults, componentLimit, edgeLimit) ==
            Resolve(cs, requested, includeDefaults, componentLimit, edgeLimit)
  {
    SameLength(cs, ds);
    SoundRearranged(cs, ds, edgeLimit);
    if cs != [] {
      DeclarationsChecked(cs, edgeLimit);
      DeclarationsChecked(ds, edgeLimit);
      SameGraph(cs, ds);
      SameIds(cs, ds);
      SortForgets(Ids(cs), Ids(ds));
    }
  }

  /** And whatever the declarations, one arrangement resolves exactly when the other does, to the same sequence. */
  lemma OrderDoesNotMatter(cs: seq<Component>, ds: seq<Component>, requested: seq<Id>, includeDefaults: bool, componentLimit: int,
                           edgeLimit: int)
    requires Rearranged(cs, ds)
    ensures var r, s := Resolve(cs, requested, includeDefaults, componentLimit, edgeLimit),
                        Resolve(ds, requested, includeDefaults, componentLimit, edgeLimit);
            (r.Ok? <==> s.Ok?) && (r.Ok? ==> r == s)
  {
    ResolutionExact(cs, requested, includeDefaults, componentLimit, edgeLimit);
    ResolutionExact(ds, requested, includeDefaults, componentLimit, edgeLimit);
    if 0 <= edgeLimit && DeclarationsSound(cs, edgeLimit) {
      RearrangedAlike(cs, ds, requested, includeDefaults, componentLimit, edgeLimit);
    } else if 0 <= edgeLimit && DeclarationsSound(ds, edgeLimit) {
      RearrangedAlike(ds, cs, requested, includeDefaults, componentLimit, edgeLimit);
    }
  }
}
