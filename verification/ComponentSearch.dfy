/** Depth-first search finds a dependency-first order of the whole graph, or a real cycle. */
module ComponentSearch {
  import opened ComponentGraph

  /** The search stands at dependency `i` of `name`, the end of `path`, with `order` emitted. */
  predicate Standing(g: Graph, path: seq<Id>, name: Id, i: nat, order: seq<Id>) {
    && Closed(g) && path != [] && path[|path| - 1] == name
    && IsPath(g, path) && NoDuplicates(path)
    && DependencyFirst(g, order) && (forall n :: n in path ==> n !in order)
    && i <= |Dependencies(g, name)|
    && forall k :: 0 <= k < i ==> Dependencies(g, name)[k] in order
  }

  lemma EmitKeepsOrder(g: Graph, order: seq<Id>, name: Id)
    requires DependencyFirst(g, order) && name in g && name !in order
    requires forall d :: d in Dependencies(g, name) ==> d in order
    ensures DependencyFirst(g, order + [name])
  {
    var o := order + [name];
    forall k, d | 0 <= k < |o| && d in Dependencies(g, o[k]) ensures d in o[..k] {
      if k < |order| {
        assert o[..k] == order[..k];
      } else {
        assert o[..k] == order;
      }
    }
  }

  lemma ClosedByBackEdge(g: Graph, path: seq<Id>, d: Id)
    requires Closed(g) && path != [] && IsPath(g, path) && d in path && d in Dependencies(g, path[|path| - 1])
    ensures IsCycle(g, path[PositionOf(path, d)..] + [d])
  {
    var p := PositionOf(path, d);
    var w := path[p..] + [d];
    forall k | 0 <= k < |w| - 1 ensures w[k + 1] in Dependencies(g, w[k]) {
      if k + 1 < |w| - 1 {
        assert w[k] == path[p + k] && w[k + 1] == path[p + k + 1];
      }
    }
  }

  lemma PathExtends(g: Graph, path: seq<Id>, name: Id, i: nat, order: seq<Id>)
    requires Standing(g, path, name, i, order) && i < |Dependencies(g, name)|
    requires Dependencies(g, name)[i] !in path && Dependencies(g, name)[i] !in order
    ensures var d := Dependencies(g, name)[i]; Standing(g, path + [d], d, 0, order)
  {
    var d := Dependencies(g, name)[i];
    var longer := path + [d];
    forall k | 0 <= k < |longer| - 1 ensures longer[k + 1] in Dependencies(g, longer[k]) {
      if k + 1 < |path| {
        assert longer[k] == path[k] && longer[k + 1] == path[k + 1];
      }
    }
  }

  /** What a completed visit has done: extended the order by `name` and components off the path. */
  predicate Finished(g: Graph, path: seq<Id>, name: Id, order: seq<Id>, o: seq<Id>) {
    && order <= o && DependencyFirst(g, o) && name in o
    && forall n :: n in path && n != name ==> n !in o
  }

  lemma {:induction false} VisitSound(g: Graph, path: seq<Id>, name: Id, i: nat, order: seq<Id>)
    requires Standing(g, path, name, i, order)
    ensures match Visit(g, path, name, i, order)
            case CycleFound(w) => IsCycle(g, w)
            case Done(o) => Finished(g, path, name, order, o)
    decreases |g| - |path|, |Dependencies(g, name)| - i
  {
    PathFits(g, path);
    if i == |Dependencies(g, name)| {
      EmitKeepsOrder(g, order, name);
    } else {
      var d := Dependencies(g, name)[i];
      if d in path {
        ClosedByBackEdge(g, path, d);
      } else if d in order {
        VisitSound(g, path, name, i + 1, order);
      } else {
        PathExtends(g, path, name, i, order);
        PathFits(g, path + [d]);
        VisitSound(g, path + [d], d, 0, order);
        match Visit(g, path + [d], d, 0, order)
        case CycleFound(_) =>
        case Done(o) =>
          assert forall n :: n in path ==> n in path + [d];
          assert Standing(g, path, name, i + 1, o);
          VisitSound(g, path, name, i + 1, o);
    }
    }
  }

  lemma {:induction false} VisitAllSound(g: Graph, starts: seq<Id>, i: nat, order: seq<Id>)
    requires Closed(g) && i <= |starts| && (forall n :: n in starts ==> n in g)
    requires DependencyFirst(g, order) && forall k :: 0 <= k < i ==> starts[k] in order
    ensures match VisitAll(g, starts, i, order)
            case CycleFound(w) => IsCycle(g, w)
            case Done(o) => DependencyFirst(g, o) && forall n :: n in starts ==> n in o
    decreases |starts| - i
  {
    if i < |starts| {
      if starts[i] in order {
        VisitAllSound(g, starts, i + 1, order);
      } else {
        VisitSound(g, [starts[i]], starts[i], 0, order);
        match Visit(g, [starts[i]], starts[i], 0, order)
        case CycleFound(_) =>
        case Done(o) => VisitAllSound(g, starts, i + 1, o);
      }
    }
  }

  // ----- an ordered graph has no cycle -----

  lemma {:induction false} PathGoesBack(g: Graph, order: seq<Id>, p: seq<Id>, i: nat, k: nat)
    requires DependencyFirst(g, order) && IsPath(g, p) && (forall n :: n in p ==> n in order)
    requires i < |order| && 0 < k < |p| && order[i] == p[0]
    ensures exists j :: 0 <= j < i && order[j] == p[k]
    decreases k
  {
    if k == 1 {
      assert p[1] in order[..i];
    } else {
      PathGoesBack(g, order, p, i, k - 1);
      var j :| 0 <= j < i && order[j] == p[k - 1];
      assert p[k] in order[..j];
    }
  }

  lemma OrderedIsAcyclic(g: Graph, order: seq<Id>)
    requires DependencyFirst(g, order) && forall n :: n in g ==> n in order
    ensures Acyclic(g)
  {
    forall w: seq<Id> ensures !IsCycle(g, w) {
      if IsCycle(g, w) {
        assert forall n :: n in w ==> n in order by {
          forall n | n in w ensures n in order {
            var k :| 0 <= k < |w| && w[k] == n;
          }
        }
        assert w[0] in order;
        var i :| 0 <= i < |order| && order[i] == w[0];
        PathGoesBack(g, order, w, i, |w| - 1);
      }
    }
  }

  /** The search succeeds exactly on acyclic graphs, and then orders every component. */
  lemma SearchExact(g: Graph, starts: seq<Id>)
    requires Closed(g) && forall n :: n in starts <==> n in g
    ensures match VisitAll(g, starts, 0, [])
            case CycleFound(w) => IsCycle(g, w) && !Acyclic(g)
            case Done(o) => Acyclic(g) && DependencyFirst(g, o) && forall n :: n in o <==> n in g
  {
    VisitAllSound(g, starts, 0, []);
    match VisitAll(g, starts, 0, [])
    case CycleFound(w) =>
    case Done(o) => OrderedIsAcyclic(g, o);
  }
}
