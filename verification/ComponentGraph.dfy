/**
  * Component graphs: what a dependency-first order, a cycle and a selection closure are, and
  * depth-first search as a recursive function.
  */
module ComponentGraph {
  import opened Sequences
  import opened Bytes

  type Id = Bytes

  datatype Node = Node(required: bool, defaultSelected: bool, dependencies: seq<Id>, conflicts: seq<Id>)

  type Graph = map<Id, Node>

  function Dependencies(g: Graph, n: Id): seq<Id>
    requires n in g
  {
    g[n].dependencies
  }

  /** Every dependency names a component of the graph. */
  predicate Closed(g: Graph) {
    forall n, d :: n in g && d in Dependencies(g, n) ==> d in g
  }

  predicate NoDuplicates(s: seq<Id>) {
    forall i, j :: 0 <= i < j < |s| ==> s[i] != s[j]
  }

  // ----- paths, cycles, orders -----

  /** Each component depends on the next. */
  predicate IsPath(g: Graph, p: seq<Id>) {
    && (forall k :: 0 <= k < |p| ==> p[k] in g)
    && forall k :: 0 <= k < |p| - 1 ==> p[k + 1] in Dependencies(g, p[k])
  }

  predicate IsCycle(g: Graph, w: seq<Id>) {
    |w| >= 2 && IsPath(g, w) && w[0] == w[|w| - 1]
  }

  ghost predicate Acyclic(g: Graph) {
    forall w: seq<Id> :: !IsCycle(g, w)
  }

  /** Duplicate-free, and every dependency of a component stands before it. */
  predicate DependencyFirst(g: Graph, order: seq<Id>) {
    && NoDuplicates(order)
    && (forall k :: 0 <= k < |order| ==> order[k] in g)
    && forall k, d :: 0 <= k < |order| && d in Dependencies(g, order[k]) ==> d in order[..k]
  }

  // ----- depth-first search -----

  datatype Outcome = Done(order: seq<Id>) | CycleFound(cycle: seq<Id>)

  function PositionOf(path: seq<Id>, n: Id): (i: nat)
    requires n in path
    ensures i < |path| && path[i] == n
  {
    if path[0] == n then 0 else 1 + PositionOf(path[1..], n)
  }

  /**
    * Visit the dependencies of `name`, the last component of `path`, from index `i` on, and
    * then emit `name`. A dependency on the path closes a cycle.
    */
  function Visit(g: Graph, path: seq<Id>, name: Id, i: nat, order: seq<Id>): Outcome
    requires Closed(g) && name in g && i <= |Dependencies(g, name)|
    requires NoDuplicates(path) && forall n :: n in path ==> n in g
    decreases |g| - |path|, |Dependencies(g, name)| - i, 0
  {
    if i == |Dependencies(g, name)| then Done(order + [name])
    else
      var d := Dependencies(g, name)[i];
      if d in path then CycleFound(path[PositionOf(path, d)..] + [d])
      else if d in order then Visit(g, path, name, i + 1, order)
      else
        PathFits(g, path + [d]);
        match Visit(g, path + [d], d, 0, order)
        case CycleFound(w) => CycleFound(w)
        case Done(o) => Visit(g, path, name, i + 1, o)
  }

  lemma PathFits(g: Graph, path: seq<Id>)
    requires NoDuplicates(path) && forall n :: n in path ==> n in g
    ensures |path| <= |g|
  {
    var s := set k | 0 <= k < |path| :: path[k];
    SetOfDistinct(path);
    assert s <= g.Keys;
    SubsetSize(s, g.Keys);
  }

  lemma {:induction false} SetOfDistinct(s: seq<Id>)
    requires NoDuplicates(s)
    ensures |set k | 0 <= k < |s| :: s[k]| == |s|
  {
    var all := set k | 0 <= k < |s| :: s[k];
    if s == [] {
      assert all == {};
    } else {
      var last := s[|s| - 1];
      var front := s[..|s| - 1];
      SetOfDistinct(front);
      var rest := set k | 0 <= k < |front| :: front[k];
      assert last !in rest;
      assert all == rest + {last} by {
        forall x | x in all ensures x in rest + {last} {
          var k :| 0 <= k < |s| && s[k] == x;
          if k < |front| {
            assert front[k] == x;
          }
        }
        forall x | x in rest ensures x in all {
          var k :| 0 <= k < |front| && front[k] == x;
          assert s[k] == x;
        }
        assert s[|s| - 1] == last;
      }
    }
  }

  /** Search from every start in turn, skipping what is already ordered. */
  function VisitAll(g: Graph, starts: seq<Id>, i: nat, order: seq<Id>): Outcome
    requires Closed(g) && i <= |starts| && forall n :: n in starts ==> n in g
    decreases |starts| - i
  {
    if i == |starts| then Done(order)
    else if starts[i] in order then VisitAll(g, starts, i + 1, order)
    else
      match Visit(g, [starts[i]], starts[i], 0, order)
      case CycleFound(w) => CycleFound(w)
      case Done(o) => VisitAll(g, starts, i + 1, o)
  }
}
