/**
  * The two iterative searches. Both keep an explicit stack of (component, next dependency) and
  * a colour per component; the Python one also keeps the active path and each component's
  * position on it. Both are proved to compute the recursive search.
  */
module ComponentOrder {
  import opened Sequences
  import opened ComponentGraph

  datatype Frame = Frame(name: Id, index: nat)

  function Names(stack: seq<Frame>): (r: seq<Id>)
    ensures |r| == |stack|
  {
    seq(|stack|, i requires 0 <= i < |stack| => stack[i].name)
  }

  /** Frames of distinct components of the graph, none past its last dependency. */
  predicate StackOk(g: Graph, stack: seq<Frame>) {
    && NoDuplicates(Names(stack))
    && forall k :: 0 <= k < |stack| ==> stack[k].name in g && stack[k].index <= |Dependencies(g, stack[k].name)|
  }

  lemma StackPath(g: Graph, stack: seq<Frame>)
    requires StackOk(g, stack)
    ensures NoDuplicates(Names(stack)) && forall n :: n in Names(stack) ==> n in g
  {
  }

  lemma StackFront(g: Graph, stack: seq<Frame>)
    requires StackOk(g, stack) && stack != []
    ensures StackOk(g, stack[..|stack| - 1])
    ensures Names(stack) == Names(stack[..|stack| - 1]) + [stack[|stack| - 1].name]
  {
    var front := stack[..|stack| - 1];
    assert Names(stack)[..|front|] == Names(front);
  }

  /** What remains of the recursive search, seen from the stack: finish the top, then the rest. */
  function Unwind(g: Graph, stack: seq<Frame>, order: seq<Id>): Outcome
    requires Closed(g) && StackOk(g, stack)
    decreases |stack|
  {
    if stack == [] then Done(order)
    else
      StackPath(g, stack);
      StackFront(g, stack);
      var top := stack[|stack| - 1];
      match Visit(g, Names(stack), top.name, top.index, order)
      case CycleFound(w) => CycleFound(w)
      case Done(o) => Unwind(g, stack[..|stack| - 1], o)
  }

  // ----- one turn of the loop -----

  function Advance(stack: seq<Frame>): seq<Frame>
    requires stack != []
  {
    stack[|stack| - 1 := stack[|stack| - 1].(index := stack[|stack| - 1].index + 1)]
  }

  lemma AdvanceOk(g: Graph, stack: seq<Frame>)
    requires StackOk(g, stack) && stack != []
    requires stack[|stack| - 1].index < |Dependencies(g, stack[|stack| - 1].name)|
    ensures StackOk(g, Advance(stack)) && Names(Advance(stack)) == Names(stack)
    ensures Advance(stack)[..|stack| - 1] == stack[..|stack| - 1]
  {
    assert Names(Advance(stack)) == Names(stack);
  }

  lemma PushOk(g: Graph, stack: seq<Frame>, d: Id)
    requires StackOk(g, stack) && d in g && d !in Names(stack)
    ensures StackOk(g, stack + [Frame(d, 0)]) && Names(stack + [Frame(d, 0)]) == Names(stack) + [d]
  {
    assert Names(stack + [Frame(d, 0)]) == Names(stack) + [d];
  }

  lemma UnwindPop(g: Graph, stack: seq<Frame>, order: seq<Id>)
    requires Closed(g) && StackOk(g, stack) && stack != []
    requires stack[|stack| - 1].index == |Dependencies(g, stack[|stack| - 1].name)|
    ensures StackOk(g, stack[..|stack| - 1])
    ensures Unwind(g, stack, order) == Unwind(g, stack[..|stack| - 1], order + [stack[|stack| - 1].name])
  {
    StackFront(g, stack);
  }

  lemma UnwindSkip(g: Graph, stack: seq<Frame>, order: seq<Id>)
    requires Closed(g) && StackOk(g, stack) && stack != []
    requires stack[|stack| - 1].index < |Dependencies(g, stack[|stack| - 1].name)|
    requires var d := Dependencies(g, stack[|stack| - 1].name)[stack[|stack| - 1].index];
             d !in Names(stack) && d in order
    ensures StackOk(g, Advance(stack))
    ensures Unwind(g, stack, order) == Unwind(g, Advance(stack), order)
  {
    AdvanceOk(g, stack);
    StackPath(g, stack);
    var top := stack[|stack| - 1];
    assert Visit(g, Names(stack), top.name, top.index, order) == Visit(g, Names(stack), top.name, top.index + 1, order);
  }

  lemma UnwindCycle(g: Graph, stack: seq<Frame>, order: seq<Id>)
    requires Closed(g) && StackOk(g, stack) && stack != []
    requires stack[|stack| - 1].index < |Dependencies(g, stack[|stack| - 1].name)|
    requires Dependencies(g, stack[|stack| - 1].name)[stack[|stack| - 1].index] in Names(stack)
    ensures var d := Dependencies(g, stack[|stack| - 1].name)[stack[|stack| - 1].index];
            Unwind(g, stack, order) == CycleFound(Names(stack)[PositionOf(Names(stack), d)..] + [d])
  {
    StackPath(g, stack);
  }

  lemma UnwindPush(g: Graph, stack: seq<Frame>, order: seq<Id>, d: Id)
    requires Closed(g) && StackOk(g, stack) && stack != []
    requires stack[|stack| - 1].index < |Dependencies(g, stack[|stack| - 1].name)|
    requires d == Dependencies(g, stack[|stack| - 1].name)[stack[|stack| - 1].index]
    requires d !in Names(stack) && d !in order
    ensures StackOk(g, Advance(stack) + [Frame(d, 0)])
    ensures Unwind(g, stack, order) == Unwind(g, Advance(stack) + [Frame(d, 0)], order)
  {
    AdvanceOk(g, stack);
    PushOk(g, Advance(stack), d);
    StackPath(g, stack);
    PathFits(g, Names(stack) + [d]);
    var pushed := Advance(stack) + [Frame(d, 0)];
    assert pushed[..|pushed| - 1] == Advance(stack);
    var top := stack[|stack| - 1];
    var inner := Visit(g, Names(stack) + [d], d, 0, order);
    if inner.Done? {
      assert Visit(g, Names(stack), top.name, top.index, order) == Visit(g, Names(stack), top.name, top.index + 1, inner.order);
    }
  }

  // ----- the loops -----

  type Colours = map<Id, int>

  function Colour(state: Colours, n: Id): int {
    if n in state then state[n] else 0
  }

  /** Colour 1 marks the stack, colour 2 the emitted components; nothing is both. */
  ghost predicate Coloured(g: Graph, stack: seq<Frame>, order: seq<Id>, state: Colours) {
    && StackOk(g, stack)
    && (forall n :: Colour(state, n) == 1 <==> n in Names(stack))
    && (forall n :: Colour(state, n) == 2 <==> n in order)
    && NoDuplicates(order) && forall n :: n in order ==> n in g
  }

  /** Components on the stack and emitted ones together are distinct, so there is a last push. */
  lemma Discovered(g: Graph, stack: seq<Frame>, order: seq<Id>, state: Colours)
    requires Coloured(g, stack, order, state)
    ensures |order| + |stack| <= |g|
  {
    var all := order + Names(stack);
    forall i, j | 0 <= i < j < |all| ensures all[i] != all[j] {
      if i < |order| && j >= |order| {
        assert Names(stack)[j - |order|] in Names(stack);
        assert order[i] in order;
      }
    }
    StackPath(g, stack);
    PathFits(g, all);
  }

  /** Dependencies still to be looked at by the frames of the stack, and the frames themselves. */
  function Remaining(g: Graph, stack: seq<Frame>): nat
    requires forall k :: 0 <= k < |stack| ==> stack[k].name in g && stack[k].index <= |Dependencies(g, stack[k].name)|
  {
    if stack == [] then 0
    else
      var top := stack[|stack| - 1];
      Remaining(g, stack[..|stack| - 1]) + (|Dependencies(g, top.name)| - top.index) + 1
  }

  lemma PopColoured(g: Graph, stack: seq<Frame>, order: seq<Id>, state: Colours)
    requires Coloured(g, stack, order, state) && stack != []
    ensures var name := stack[|stack| - 1].name;
            Coloured(g, stack[..|stack| - 1], order + [name], state[name := 2])
  {
    StackFront(g, stack);
    var name := stack[|stack| - 1].name;
    var front := stack[..|stack| - 1];
    assert Names(stack)[|front|] == name;
    forall k | 0 <= k < |front| ensures Names(front)[k] != name {
      assert Names(stack)[k] == Names(front)[k];
    }
    assert forall n :: n in Names(stack) <==> n in Names(front) || n == name;
    assert name !in order;
  }

  lemma PushColoured(g: Graph, stack: seq<Frame>, order: seq<Id>, state: Colours, d: Id)
    requires Coloured(g, stack, order, state) && d in g && Colour(state, d) != 1 && Colour(state, d) != 2
    ensures Coloured(g, stack + [Frame(d, 0)], order, state[d := 1])
  {
    PushOk(g, stack, d);
  }

  /** `positions` is the index of the active path. */
  ghost predicate Positioned(active: seq<Id>, positions: map<Id, nat>) {
    && (forall n :: n in positions <==> n in active)
    && forall k :: 0 <= k < |active| ==> positions[active[k]] == k
  }

  lemma PositionedPop(active: seq<Id>, positions: map<Id, nat>)
    requires active != [] && Positioned(active, positions)
    ensures var last := active[|active| - 1];
            Positioned(active[..|active| - 1], map n | n in positions && n != last :: positions[n])
  {
    var last, front := active[|active| - 1], active[..|active| - 1];
    assert last !in front;
    FrontAndLast(active);
  }

  lemma PositionedPush(active: seq<Id>, positions: map<Id, nat>, n: Id)
    requires n !in active && Positioned(active, positions)
    ensures Positioned(active + [n], positions[n := |active|])
  {
  }

  /** The inner loop of the Python resolver, with its active path and positions. */
  method SearchWithPositions(g: Graph, start: Id, state0: Colours, order0: seq<Id>)
    returns (r: Outcome, state: Colours)
    requires Closed(g) && start in g && Coloured(g, [], order0, state0) && start !in order0
    ensures r == Visit(g, [start], start, 0, order0)
    ensures r.Done? ==> Coloured(g, [], r.order, state)
  {
    var order := order0;
    PushColoured(g, [], order, state0, start);
    state := state0[start := 1];
    var active := [start];
    var positions: map<Id, nat> := map[start := 0];
    var stack := [Frame(start, 0)];
    assert [] + stack == stack;
    ghost var goal := Visit(g, [start], start, 0, order);
    assert Names(stack) == [start];
    assert Unwind(g, stack, order) == goal by {
      assert stack[..0] == [];
    }
    while stack != []
      invariant Coloured(g, stack, order, state) && active == Names(stack)
      invariant Positioned(active, positions)
      invariant Unwind(g, stack, order) == goal
      decreases |g| - |order| - |stack|, Remaining(g, stack)
    {
      Discovered(g, stack, order, state);
      var name, index := stack[|stack| - 1].name, stack[|stack| - 1].index;
      var dependencies := Dependencies(g, name);
      if index == |dependencies| {
        UnwindPop(g, stack, order);
        PopColoured(g, stack, order, state);
        StackFront(g, stack);
        PositionedPop(active, positions);
        stack := stack[..|stack| - 1];
        active := active[..|active| - 1];
        positions := map n | n in positions && n != name :: positions[n];
        state := state[name := 2];
        order := order + [name];
        continue;
      }
      var dependency := dependencies[index];
      if Colour(state, dependency) == 1 {
        UnwindCycle(g, stack, order);
        return CycleFound(active[positions[dependency]..] + [dependency]), state;
      }
      AdvanceOk(g, stack);
      if Colour(state, dependency) != 2 {
        UnwindPush(g, stack, order, dependency);
        PushColoured(g, Advance(stack), order, state, dependency);
        PositionedPush(active, positions, dependency);
        state := state[dependency := 1];
        positions := positions[dependency := |active|];
        active := active + [dependency];
        stack := Advance(stack) + [Frame(dependency, 0)];
        Discovered(g, stack, order, state);
      } else {
        UnwindSkip(g, stack, order);
        stack := Advance(stack);
      }
    }
    return Done(order), state;
  }

  /** The inner loop of the C++ resolver: the stack is all it keeps; a cycle is only reported. */
  method SearchWithStack(g: Graph, start: Id, state0: Colours, order0: seq<Id>)
    returns (ok: bool, order: seq<Id>, state: Colours)
    requires Closed(g) && start in g && Coloured(g, [], order0, state0) && start !in order0
    ensures match Visit(g, [start], start, 0, order0)
            case CycleFound(_) => !ok
            case Done(o) => ok && order == o && Coloured(g, [], order, state)
  {
    order := order0;
    PushColoured(g, [], order, state0, start);
    state := state0[start := 1];
    var stack := [Frame(start, 0)];
    assert [] + stack == stack;
    ghost var goal := Visit(g, [start], start, 0, order);
    assert Names(stack) == [start];
    assert Unwind(g, stack, order) == goal by {
      assert stack[..0] == [];
    }
    while stack != []
      invariant Coloured(g, stack, order, state)
      invariant Unwind(g, stack, order) == goal
      decreases |g| - |order| - |stack|, Remaining(g, stack)
    {
      Discovered(g, stack, order, state);
      var frame := stack[|stack| - 1];
      var dependencies := Dependencies(g, frame.name);
      if frame.index == |dependencies| {
        UnwindPop(g, stack, order);
        PopColoured(g, stack, order, state);
        state := state[frame.name := 2];
        order := order + [frame.name];
        stack := stack[..|stack| - 1];
        continue;
      }
      var dependency := dependencies[frame.index];
      if Colour(state, dependency) == 1 {
        UnwindCycle(g, stack, order);
        return false, order, state;
      }
      AdvanceOk(g, stack);
      if Colour(state, dependency) != 2 {
        UnwindPush(g, stack, order, dependency);
        PushColoured(g, Advance(stack), order, state, dependency);
        state := state[dependency := 1];
        stack := Advance(stack) + [Frame(dependency, 0)];
        Discovered(g, stack, order, state);
      } else {
        UnwindSkip(g, stack, order);
        stack := Advance(stack);
      }
    }
    return true, order, state;
  }

  /** The outer loop of the Python resolver. */
  method TopologicalOrder(g: Graph, starts: seq<Id>) returns (r: Outcome)
    requires Closed(g) && forall n :: n in starts ==> n in g
    ensures r == VisitAll(g, starts, 0, [])
  {
    var state: Colours := map[];
    var order: seq<Id> := [];
    var i := 0;
    while i < |starts|
      invariant 0 <= i <= |starts| && Coloured(g, [], order, state)
      invariant VisitAll(g, starts, i, order) == VisitAll(g, starts, 0, [])
    {
      if Colour(state, starts[i]) != 2 {
        r, state := SearchWithPositions(g, starts[i], state, order);
        if r.CycleFound? {
          return;
        }
        order := r.order;
      }
      i := i + 1;
    }
    return Done(order);
  }

  /** The outer loop of the C++ resolver. */
  method DependencyFirstOrder(g: Graph, starts: seq<Id>) returns (ok: bool, order: seq<Id>)
    requires Closed(g) && forall n :: n in starts ==> n in g
    ensures match VisitAll(g, starts, 0, [])
            case CycleFound(_) => !ok
            case Done(o) => ok && order == o
  {
    var state: Colours := map[];
    order := [];
    var i := 0;
    while i < |starts|
      invariant 0 <= i <= |starts| && Coloured(g, [], order, state)
      invariant VisitAll(g, starts, i, order) == VisitAll(g, starts, 0, [])
    {
      if Colour(state, starts[i]) != 2 {
        ok, order, state := SearchWithStack(g, starts[i], state, order);
        if !ok {
          return;
        }
      }
      i := i + 1;
    }
    return true, order;
  }
}
