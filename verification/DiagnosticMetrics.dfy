/**
  * The lock-free saturating counters: every counter is a 64-bit cell updated by a
  * compare-exchange loop, with one shared flag stored after a saturating update. The steps of
  * any number of threads interleave freely; a relaxed load may return any value at all, only a
  * successful compare-exchange is tied to the cell's current value.
  */
module DiagnosticMetrics {
  import opened Bytes

  /** The 29 totals, then the scope-id sequence. */
  const SEQUENCE := 29
  const CELLS := 30

  datatype Thread =
    | Idle
    // In `add`, holding the value last loaded.
    | Trying(cell: nat, amount: uint64, previous: uint64)
    // Past a saturating compare-exchange, before the flag store.
    | Storing

  /** Shared cells and flag, the threads, and for each cell the sum of what was committed to it. */
  datatype State = State(
    values: seq<uint64>,
    saturated: bool,
    threads: map<nat, Thread>,
    sums: seq<nat>,
    ids: seq<uint64>)

  predicate WellFormed(s: State) {
    && |s.values| == |s.sums| == CELLS
    && forall t :: t in s.threads && s.threads[t].Trying? ==>
         s.threads[t].cell < CELLS && (s.threads[t].cell == SEQUENCE ==> s.threads[t].amount == 1)
  }

  predicate Initial(s: State) {
    && s.values == seq(CELLS, _ => 0) && s.sums == seq(CELLS, _ => 0)
    && !s.saturated && s.ids == []
    && forall t :: t in s.threads ==> s.threads[t] == Idle
  }

  // ----- steps -----

  datatype Step =
    | Load(t: nat, cell: nat, amount: uint64, loaded: uint64)
    | CasFails(t: nat, loaded: uint64)
    | CasSucceeds(t: nat)
    | StoreFlag(t: nat)

  predicate Overflows(amount: uint64, previous: uint64) {
    amount > MAX_UINT64 - previous
  }

  /** The value `add` tries to install. */
  function Next(amount: uint64, previous: uint64): uint64 {
    if Overflows(amount, previous) then MAX_UINT64 else previous + amount
  }

  predicate Enabled(s: State, step: Step) {
    && WellFormed(s) && step.t in s.threads
    && match step
       case Load(t, cell, amount, _) =>
         s.threads[t].Idle? && cell < CELLS && (cell == SEQUENCE ==> amount == 1)
       case CasFails(t, _) => s.threads[t].Trying?
       case CasSucceeds(t) => s.threads[t].Trying? && s.values[s.threads[t].cell] == s.threads[t].previous
       case StoreFlag(t) => s.threads[t].Storing?
  }

  function Apply(s: State, step: Step): State
    requires Enabled(s, step)
  {
    match step
    case Load(t, cell, amount, loaded) =>
      s.(threads := s.threads[t := Trying(cell, amount, loaded)])
    case CasFails(t, loaded) =>
      s.(threads := s.threads[t := s.threads[t].(previous := loaded)])
    case CasSucceeds(t) =>
      var Trying(cell, amount, previous) := s.threads[t];
      var next := Next(amount, previous);
      State(s.values[cell := next], s.saturated,
            s.threads[t := if Overflows(amount, previous) then Storing else Idle],
            s.sums[cell := s.sums[cell] + amount],
            if cell == SEQUENCE then s.ids + [next] else s.ids)
    case StoreFlag(t) =>
      s.(saturated := true, threads := s.threads[t := Idle])
  }

  // ----- what every step keeps -----

  function Capped(n: nat): uint64 {
    if n > MAX_UINT64 then MAX_UINT64 else n
  }

  predicate Exceeded(s: State) {
    exists c :: 0 <= c < |s.sums| && s.sums[c] > MAX_UINT64
  }

  predicate Pending(s: State) {
    exists t :: t in s.threads && s.threads[t].Storing?
  }

  predicate Invariant(s: State) {
    && WellFormed(s)
    && (forall c :: 0 <= c < CELLS ==> s.values[c] == Capped(s.sums[c]))
    && (Exceeded(s) <==> s.saturated || Pending(s))
    && s.sums[SEQUENCE] == |s.ids|
    && (forall i :: 0 <= i < |s.ids| ==> s.ids[i] == Capped(i + 1))
  }

  lemma InitialHolds(s: State)
    requires Initial(s)
    ensures Invariant(s)
  {
  }

  lemma PendingOthers(s: State, t: nat, thread: Thread)
    requires t in s.threads && !s.threads[t].Storing? && !thread.Storing?
    ensures Pending(s.(threads := s.threads[t := thread])) == Pending(s)
  {
    var s' := s.(threads := s.threads[t := thread]);
    if Pending(s) {
      var u :| u in s.threads && s.threads[u].Storing?;
      assert u in s'.threads && s'.threads[u].Storing?;
    }
  }

  /** A committed amount overflows the cell exactly when the sum is pushed, or was already, past the maximum. */
  lemma CommitCaps(sum: nat, amount: uint64)
    ensures Next(amount, Capped(sum)) == Capped(sum + amount)
    ensures Overflows(amount, Capped(sum)) ==> sum + amount > MAX_UINT64
    ensures sum + amount > MAX_UINT64 ==> Overflows(amount, Capped(sum)) || sum > MAX_UINT64
  {
  }

  lemma CommitKeeps(s: State, t: nat)
    requires Invariant(s) && Enabled(s, CasSucceeds(t))
    ensures Invariant(Apply(s, CasSucceeds(t)))
  {
    var Trying(cell, amount, previous) := s.threads[t];
    var s' := Apply(s, CasSucceeds(t));
    CommitCaps(s.sums[cell], amount);
    if Exceeded(s) {
      var c :| 0 <= c < |s.sums| && s.sums[c] > MAX_UINT64;
      assert s'.sums[c] > MAX_UINT64;
      if !s.saturated {
        var u :| u in s.threads && s.threads[u].Storing?;
        assert u in s'.threads && s'.threads[u].Storing?;
      }
    }
    if Overflows(amount, previous) {
      assert s'.sums[cell] > MAX_UINT64;
      assert s'.threads[t].Storing?;
    }
    if Exceeded(s') && !Exceeded(s) {
      var c :| 0 <= c < |s'.sums| && s'.sums[c] > MAX_UINT64;
      assert c == cell;
      assert s'.threads[t].Storing?;
    }
    if Pending(s') && !Overflows(amount, previous) {
      var u :| u in s'.threads && s'.threads[u].Storing?;
      assert u != t && s.threads[u].Storing?;
    }
  }

  lemma StepKeeps(s: State, step: Step)
    requires Invariant(s) && Enabled(s, step)
    ensures Invariant(Apply(s, step))
  {
    match step
    case Load(t, cell, amount, loaded) =>
      PendingOthers(s, t, Trying(cell, amount, loaded));
    case CasFails(t, loaded) =>
      PendingOthers(s, t, s.threads[t].(previous := loaded));
    case CasSucceeds(t) =>
      CommitKeeps(s, t);
    case StoreFlag(t) =>
      assert Pending(s);
  }

  // ----- runs -----

  /** The state after a sequence of steps, each enabled where it is taken. */
  ghost predicate Leads(s: State, steps: seq<Step>, end: State)
    decreases |steps|
  {
    if steps == [] then s == end
    else Enabled(s, steps[0]) && Leads(Apply(s, steps[0]), steps[1..], end)
  }

  lemma {:induction false} RunKeeps(s: State, steps: seq<Step>, end: State)
    requires Invariant(s) && Leads(s, steps, end)
    ensures Invariant(end)
    decreases |steps|
  {
    if steps != [] {
      StepKeeps(s, steps[0]);
      RunKeeps(Apply(s, steps[0]), steps[1..], end);
    }
  }

  /** What one step commits to a cell. */
  function Commits(s: State, step: Step, c: nat): nat
    requires Enabled(s, step)
  {
    if step.CasSucceeds? && s.threads[step.t].cell == c then s.threads[step.t].amount else 0
  }

  /** The sum of everything a run commits to a cell. */
  ghost function Committed(s: State, steps: seq<Step>, end: State, c: nat): nat
    requires Leads(s, steps, end)
    decreases |steps|
  {
    if steps == [] then 0 else Commits(s, steps[0], c) + Committed(Apply(s, steps[0]), steps[1..], end, c)
  }

  lemma {:induction false} SumsAreCommitted(s: State, steps: seq<Step>, end: State, c: nat)
    requires Leads(s, steps, end) && |s.sums| == CELLS && c < CELLS
    ensures |end.sums| == CELLS && end.sums[c] == s.sums[c] + Committed(s, steps, end, c)
    decreases |steps|
  {
    if steps != [] {
      SumsAreCommitted(Apply(s, steps[0]), steps[1..], end, c);
    }
  }

  /** Under every interleaving each counter is the sum of the committed amounts, capped at 2^64 - 1. */
  lemma CountersExact(s: State, steps: seq<Step>, end: State, c: nat)
    requires Initial(s) && Leads(s, steps, end) && c < CELLS
    ensures |end.values| == CELLS && end.values[c] == Capped(Committed(s, steps, end, c))
  {
    InitialHolds(s);
    RunKeeps(s, steps, end);
    SumsAreCommitted(s, steps, end, c);
  }

  /** Some counter was asked to hold more than it can. */
  ghost predicate RunExceeds(s: State, steps: seq<Step>, end: State)
    requires Leads(s, steps, end)
  {
    exists c: nat :: c < CELLS && Committed(s, steps, end, c) > MAX_UINT64
  }

  /** The flag is never set before a sum has exceeded the maximum, and is set exactly then once no store is outstanding. */
  lemma FlagExact(s: State, steps: seq<Step>, end: State)
    requires Initial(s) && Leads(s, steps, end)
    ensures end.saturated ==> RunExceeds(s, steps, end)
    ensures !Pending(end) ==> (end.saturated <==> RunExceeds(s, steps, end))
  {
    InitialHolds(s);
    RunKeeps(s, steps, end);
    forall c: nat | c < CELLS
      ensures end.sums[c] == Committed(s, steps, end, c)
    {
      SumsAreCommitted(s, steps, end, c);
    }
    if Exceeded(end) {
      var c :| 0 <= c < |end.sums| && end.sums[c] > MAX_UINT64;
      assert Committed(s, steps, end, c) > MAX_UINT64;
    }
    if RunExceeds(s, steps, end) {
      var c: nat :| c < CELLS && Committed(s, steps, end, c) > MAX_UINT64;
      assert end.sums[c] > MAX_UINT64;
    }
  }

  /** Scope ids are pairwise distinct, and in order, until the sequence saturates. */
  lemma ScopeIdsDistinct(s: State, steps: seq<Step>, end: State, i: nat, j: nat)
    requires Initial(s) && Leads(s, steps, end)
    requires i < j < |end.ids|
    ensures end.ids[i] < end.ids[j] || end.ids[i] == end.ids[j] == MAX_UINT64
    ensures end.ids[i] == end.ids[j] ==> i + 1 >= MAX_UINT64
  {
    InitialHolds(s);
    RunKeeps(s, steps, end);
  }
}
