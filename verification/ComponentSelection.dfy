/** The components a selection pulls in: the least dependency-closed set holding the seeds. */
module ComponentSelection {
  import opened Sequences
  import opened ComponentGraph
  import opened ComponentSearch

  ghost predicate Reaches(g: Graph, seeds: set<Id>, n: Id) {
    exists p: seq<Id> :: p != [] && IsPath(g, p) && p[0] in seeds && p[|p| - 1] == n
  }

  /** Everything a seed depends on, directly or not, the seeds included. */
  ghost function Closure(g: Graph, seeds: set<Id>): set<Id> {
    set n | n in g && Reaches(g, seeds, n)
  }

  predicate DependencyClosed(g: Graph, s: set<Id>) {
    forall n, d :: n in s && n in g && d in Dependencies(g, n) ==> d in s
  }

  lemma SeedsReached(g: Graph, seeds: set<Id>)
    requires seeds <= g.Keys
    ensures seeds <= Closure(g, seeds)
  {
    forall n | n in seeds ensures Reaches(g, seeds, n) {
      var p := [n];
      assert IsPath(g, p) && p[0] in seeds && p[|p| - 1] == n;
    }
  }

  lemma DependencyReached(g: Graph, seeds: set<Id>, n: Id, d: Id)
    requires Closed(g) && n in Closure(g, seeds) && d in Dependencies(g, n)
    ensures d in Closure(g, seeds)
  {
    var p: seq<Id> :| p != [] && IsPath(g, p) && p[0] in seeds && p[|p| - 1] == n;
    var q := p + [d];
    forall k | 0 <= k < |q| - 1 ensures q[k + 1] in Dependencies(g, q[k]) {
      if k + 1 < |p| {
        assert q[k] == p[k] && q[k + 1] == p[k + 1];
      }
    }
    assert IsPath(g, q) && q[0] in seeds && q[|q| - 1] == d;
  }

  lemma {:induction false} PathStaysInside(g: Graph, s: set<Id>, p: seq<Id>, k: nat)
    requires DependencyClosed(g, s) && IsPath(g, p) && k < |p| && p[0] in s
    ensures p[k] in s
  {
    if k > 0 {
      PathStaysInside(g, s, p, k - 1);
    }
  }

  /** The closure contains the seeds, is dependency-closed, and lies in every set that is both. */
  lemma ClosureIsLeast(g: Graph, seeds: set<Id>, other: set<Id>)
    requires Closed(g) && seeds <= g.Keys
    ensures seeds <= Closure(g, seeds) && DependencyClosed(g, Closure(g, seeds))
    ensures seeds <= other && DependencyClosed(g, other) ==> Closure(g, seeds) <= other
  {
    SeedsReached(g, seeds);
    forall n, d | n in Closure(g, seeds) && d in Dependencies(g, n) ensures d in Closure(g, seeds) {
      DependencyReached(g, seeds, n, d);
    }
    if seeds <= other && DependencyClosed(g, other) {
      forall n | n in Closure(g, seeds) ensures n in other {
        var p: seq<Id> :| p != [] && IsPath(g, p) && p[0] in seeds && p[|p| - 1] == n;
        PathStaysInside(g, other, p, |p| - 1);
      }
    }
  }

  function Elements(s: seq<Id>): set<Id> {
    set n | n in s
  }

  lemma ElementsConcat(a: seq<Id>, b: seq<Id>)
    ensures Elements(a + b) == Elements(a) + Elements(b)
  {
  }

  lemma ElementsLast(s: seq<Id>)
    requires s != []
    ensures Elements(s) == Elements(s[..|s| - 1]) + {s[|s| - 1]}
  {
    FrontAndLast(s);
    ElementsConcat(s[..|s| - 1], [s[|s| - 1]]);
  }

  /** What the work list keeps: nothing unreachable, and nothing owed that is not pending. */
  ghost predicate WorkList(g: Graph, reach: set<Id>, seeds: set<Id>, selected: set<Id>, pending: set<Id>) {
    && selected <= reach && pending <= reach && seeds <= selected + pending
    && forall n :: n in selected && n in g ==> Elements(Dependencies(g, n)) <= selected + pending
  }

  lemma WorkListTurn(g: Graph, reach: set<Id>, seeds: set<Id>, selected: set<Id>, rest: set<Id>, name: Id)
    requires reach <= g.Keys && DependencyClosed(g, reach)
    requires WorkList(g, reach, seeds, selected, rest + {name})
    ensures name in g
    ensures name in selected ==> WorkList(g, reach, seeds, selected, rest)
    ensures name !in selected ==> WorkList(g, reach, seeds, selected + {name}, rest + Elements(Dependencies(g, name)))
  {
    assert name in reach;
    if name in selected {
      assert selected + (rest + {name}) == selected + rest;
    } else {
      assert (selected + {name}) + (rest + Elements(Dependencies(g, name))) ==
             (selected + (rest + {name})) + Elements(Dependencies(g, name));
    }
  }

  /** The work-list loop of both resolvers. */
  method SelectClosure(g: Graph, initial: seq<Id>) returns (selected: set<Id>)
    requires Closed(g) && Elements(initial) <= g.Keys
    ensures selected == Closure(g, Elements(initial))
  {
    ghost var seeds := Elements(initial);
    ghost var reach := ReachableFrom(g, seeds);
    selected := {};
    var pending := initial;
    while pending != []
      invariant WorkList(g, reach, seeds, selected, Elements(pending))
      decreases |g.Keys - selected|, |pending|
    {
      var name := pending[|pending| - 1];
      var rest := pending[..|pending| - 1];
      ElementsLast(pending);
      WorkListTurn(g, reach, seeds, selected, Elements(rest), name);
      pending := rest;
      if name !in selected {
        OneFewer(g.Keys, selected, name);
        ElementsConcat(rest, Dependencies(g, name));
        selected := selected + {name};
        pending := pending + Dependencies(g, name);
      }
    }
    assert Elements([]) == {};
    AllReached(g, seeds, selected);
  }

  /** The closure, with what the loop needs to know about it. */
  lemma ReachableFrom(g: Graph, seeds: set<Id>) returns (reach: set<Id>)
    requires Closed(g) && seeds <= g.Keys
    ensures reach == Closure(g, seeds) && seeds <= reach <= g.Keys && DependencyClosed(g, reach)
  {
    reach := Closure(g, seeds);
    ClosureIsLeast(g, seeds, {});
  }

  lemma AllReached(g: Graph, seeds: set<Id>, selected: set<Id>)
    requires Closed(g) && seeds <= g.Keys && WorkList(g, Closure(g, seeds), seeds, selected, {})
    ensures selected == Closure(g, seeds)
  {
    ClosureIsLeast(g, seeds, selected);
  }

  lemma OneFewer(all: set<Id>, taken: set<Id>, x: Id)
    requires x in all && x !in taken
    ensures |all - (taken + {x})| < |all - taken|
  {
    assert all - (taken + {x}) == (all - taken) - {x};
  }

  // ----- keeping the selected part of an order -----

  function Filter(order: seq<Id>, keep: set<Id>): (r: seq<Id>)
    ensures forall n :: n in r <==> n in order && n in keep
  {
    if order == [] then []
    else
      var front := Filter(order[..|order| - 1], keep);
      var last := order[|order| - 1];
      assert order == order[..|order| - 1] + [last];
      if last in keep then front + [last] else front
  }

  /** The selected part of a dependency-first order is dependency-first if the selection is closed. */
  lemma {:induction false} FilterDependencyFirst(g: Graph, order: seq<Id>, keep: set<Id>)
    requires DependencyFirst(g, order) && DependencyClosed(g, keep)
    ensures DependencyFirst(g, Filter(order, keep))
  {
    if order != [] {
      var front, last := order[..|order| - 1], order[|order| - 1];
      assert order == front + [last];
      forall k, d | 0 <= k < |front| && d in Dependencies(g, front[k]) ensures d in front[..k] {
        assert order[..k] == front[..k] && order[k] == front[k];
      }
      FilterDependencyFirst(g, front, keep);
      if last in keep {
        assert last !in front;
        forall d | d in Dependencies(g, last) ensures d in Filter(front, keep) {
          assert d in order[..|order| - 1];
        }
        EmitKeepsOrder(g, Filter(front, keep), last);
      }
    }
  }
}
