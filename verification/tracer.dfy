/** The driver loop of the path follower: repeat single steps from the
    start cell until the end cell is current, failing on an oscillation
    between two adjacent path positions. */
module Tracer {
  import opened Types
  import opened Directions
  import opened Step
  import StepFacts

  /** The least index of `path` holding `loc`; None exactly when `loc`
      does not occur. */
  function FirstPathIndex(path: seq<Loc>, loc: Loc): (r: Option<nat>)
    ensures r.Some? ==> r.value < |path| && path[r.value] == loc
    ensures r.Some? ==> forall j :: 0 <= j < r.value ==> path[j] != loc
    ensures r.None? <==> !Contains(path, loc)
  {
    if |path| == 0 then None
    else if path[0] == loc then Some(0)
    else match FirstPathIndex(path[1..], loc)
      case None => None
      case Some(k) => Some(k + 1)
  }

  /** Two path indices are adjacent when both exist and one directly
      follows the other. */
  function Adjacent(index1: Option<nat>, index2: Option<nat>): (b: bool)
    ensures b ==> index1.Some? && index2.Some?
    ensures index1.Some? && index2.Some? ==>
              (b <==> index1.value == index2.value + 1 || index2.value == index1.value + 1)
  {
    if index1.Some? && index2.Some? then
      var diff := index1.value - index2.value;
      diff == 1 || diff == -1
    else false
  }

  lemma AdjacentSymmetric(index1: Option<nat>, index2: Option<nat>)
    ensures Adjacent(index1, index2) == Adjacent(index2, index1)
    ensures !Adjacent(index1, index1)
  {
  }

  /** The loop state: travel direction, current cell, the append-only
      path, and the first-occurrence index the current cell had in the
      path when it was chosen. */
  datatype State = State(direction: Direction, current: Loc, path: seq<Loc>, previousIndex: Option<nat>)

  /** The path is never empty and ends with the current cell. */
  predicate Consistent(t: State) {
    |t.path| > 0 && t.path[|t.path| - 1] == t.current
  }

  /** The recorded index is the first index the current cell had in the
      path before it was last appended. */
  predicate Recorded(t: State) {
    |t.path| > 0 && t.previousIndex == FirstPathIndex(t.path[..|t.path| - 1], t.current)
  }

  function Initial(start: Loc): (t: State)
    ensures Consistent(t)
  {
    State(NoDirection, start, [start], None)
  }

  /** A single step: from the path so far, the travel direction and the
      current cell to the extended path. The driver loop below is written
      against any such function; the path follower instantiates it with
      OnePathStep on a fixed grid. */
  type Stepper = (seq<Loc>, Direction, Loc) -> Result<seq<Loc>>

  /** `ext` keeps `path` as a prefix and adds at least one cell. */
  predicate Extends(path: seq<Loc>, ext: seq<Loc>) {
    |ext| > |path| && ext[..|path|] == path
  }

  /** Every successful step strictly extends the path it is given. */
  ghost predicate Extending(step: Stepper) {
    forall path, d, base :: step(path, d, base).Ok? ==> Extends(path, step(path, d, base).value)
  }

  /** Every successful step starts from a cell inside the grid, and every
      cell it adds before the chosen one is inside the grid. */
  ghost predicate KeepsInside(grid: Grid, step: Stepper) {
    forall path, d, base :: step(path, d, base).Ok? ==>
      && InBounds(grid, base)
      && forall i :: |path| <= i < |step(path, d, base).value| - 1 ==> InBounds(grid, step(path, d, base).value[i])
  }

  /** One iteration of the driver loop (the end test is the caller's):
      take a step, stop on an oscillation between adjacent path positions,
      and derive the new travel direction from the move. */
  function Advance(step: Stepper, t: State): (r: Result<State>)
    requires Extending(step)
    ensures r.Ok? ==> Consistent(r.value)
    ensures r.Ok? ==> Extends(t.path, r.value.path)
    ensures r.Ok? ==> step(t.path, t.direction, t.current) == Ok(r.value.path)
    ensures r.Ok? ==> r.value.direction != NoDirection
    ensures r.Ok? ==> r.value.current != t.current
    ensures r.Ok? ==> NextDirection(r.value.current.row - t.current.row, r.value.current.col - t.current.col)
                      == Ok(r.value.direction)
    ensures r.Ok? ==> r.value.previousIndex
                      == FirstPathIndex(r.value.path[..|r.value.path| - 1], r.value.current)
    ensures step(t.path, t.direction, t.current).Err? ==> r == Err(step(t.path, t.direction, t.current).error)
    ensures step(t.path, t.direction, t.current).Ok? && r.Err? ==> r.error in {InfinitePath, InvalidPathDirection}
    ensures step(t.path, t.direction, t.current).Ok? ==>
              var p := step(t.path, t.direction, t.current).value;
              (r == Err(InfinitePath) <==> Adjacent(t.previousIndex, FirstPathIndex(p[..|p| - 1], p[|p| - 1])))
    ensures (r.Err? && r.error == InvalidPathDirection && step(t.path, t.direction, t.current).Ok?) ==>
              var p := step(t.path, t.direction, t.current).value;
              p[|p| - 1] == t.current
    ensures step(t.path, t.direction, t.current).Ok? ==>
              var p := step(t.path, t.direction, t.current).value;
              (p[|p| - 1] == t.current && !Adjacent(t.previousIndex, FirstPathIndex(p[..|p| - 1], p[|p| - 1]))
               ==> r == Err(InvalidPathDirection))
  {
    match step(t.path, t.direction, t.current)
    case Err(e) => Err(e)
    case Ok(p) =>
      var next := p[|p| - 1];
      var nextIndex := FirstPathIndex(p[..|p| - 1], next);
      if Adjacent(t.previousIndex, nextIndex) then Err(InfinitePath)
      else match NextDirection(next.row - t.current.row, next.col - t.current.col)
        case Err(e) => Err(e)
        case Ok(d) => Ok(State(d, next, p, nextIndex))
  }

  lemma PrefixTrans(a: seq<Loc>, b: seq<Loc>, c: seq<Loc>)
    requires |a| <= |b| && b[..|a|] == a
    requires |b| <= |c| && c[..|b|] == b
    ensures c[..|a|] == a
  {
    assert c[..|a|] == c[..|b|][..|a|];
  }

  /** One iteration of the driver loop as a state transition. */
  type Transition = State -> Result<State>

  /** Every successful iteration keeps the state consistent and strictly
      extends the path. */
  ghost predicate Progressing(advance: Transition) {
    forall t :: Consistent(t) && advance(t).Ok? ==>
      Consistent(advance(t).value) && Extends(t.path, advance(t).value.path)
  }

  /** Every successful iteration records the first index of its new
      current cell. */
  ghost predicate KeepsRecorded(advance: Transition) {
    forall t :: Consistent(t) && advance(t).Ok? ==> Recorded(advance(t).value)
  }

  /** Every failing iteration fails with a tracing error. */
  ghost predicate FailsWithTraceErrors(advance: Transition) {
    forall t :: Consistent(t) && advance(t).Err? ==> TraceError(advance(t).error)
  }

  /** The driver loop, bounded by `fuel` iterations: the end test comes
      before every iteration, so a result always ends with the end cell
      and keeps the path so far as a prefix. */
  function Run(advance: Transition, end: Loc, t: State, fuel: nat): (r: Result<seq<Loc>>)
    requires Progressing(advance) && Consistent(t)
    ensures r.Ok? ==> |r.value| >= |t.path| && r.value[..|t.path|] == t.path
    ensures r.Ok? ==> r.value[|r.value| - 1] == end
    ensures t.current == end ==> r == Ok(t.path)
    decreases fuel
  {
    if t.current == end then Ok(t.path)
    else if fuel == 0 then Err(OutOfFuel)
    else
      var next := advance(t);
      if next.Err? then Err(next.error)
      else
        var r := Run(advance, end, next.value, fuel - 1);
        if r.Ok? then PrefixTrans(t.path, next.value.path, r.value); r else r
  }

  /** `k` iterations of the loop body from `t`, without the end test; the
      first failing iteration fails the whole sequence. Each successful
      iteration adds at least one cell to the path. */
  function Iterate(advance: Transition, t: State, k: nat): (r: Result<State>)
    requires Progressing(advance) && Consistent(t)
    ensures r.Ok? ==> Consistent(r.value)
    ensures r.Ok? ==> |r.value.path| >= |t.path| + k && r.value.path[..|t.path|] == t.path
    decreases k
  {
    if k == 0 then Ok(t)
    else match advance(t)
      case Err(e) => Err(e)
      case Ok(s) =>
        var r := Iterate(advance, s, k - 1);
        if r.Ok? then PrefixTrans(t.path, s.path, r.value.path); r else r
  }

  /** A path the loop returns is the path of the first iterate whose
      current cell is the end cell, reached within the fuel: the loop
      stops on the first arrival and on no other state. */
  lemma {:induction false} RunArrives(advance: Transition, end: Loc, t: State, fuel: nat) returns (k: nat)
    requires Progressing(advance) && Consistent(t)
    requires Run(advance, end, t, fuel).Ok?
    ensures k <= fuel
    ensures Iterate(advance, t, k).Ok? && Iterate(advance, t, k).value.current == end
    ensures Run(advance, end, t, fuel) == Ok(Iterate(advance, t, k).value.path)
    ensures forall j :: 0 <= j < k ==> Iterate(advance, t, j).Ok? && Iterate(advance, t, j).value.current != end
    decreases fuel
  {
    if t.current == end {
      k := 0;
    } else {
      var s := advance(t).value;
      var k' := RunArrives(advance, end, s, fuel - 1);
      k := k' + 1;
      forall j | 0 <= j < k
        ensures Iterate(advance, t, j).Ok? && Iterate(advance, t, j).value.current != end
      {
        if j > 0 {
          assert Iterate(advance, t, j) == Iterate(advance, s, j - 1);
        }
      }
      assert Iterate(advance, t, k) == Iterate(advance, s, k');
    }
  }

  /** Conversely, when the `k`-th iterate is the first to stand on the end
      cell and the fuel allows `k` iterations, the loop returns its path. */
  lemma {:induction false} ArrivalRuns(advance: Transition, end: Loc, t: State, fuel: nat, k: nat)
    requires Progressing(advance) && Consistent(t) && k <= fuel
    requires Iterate(advance, t, k).Ok? && Iterate(advance, t, k).value.current == end
    requires forall j :: 0 <= j < k ==> Iterate(advance, t, j).Ok? ==> Iterate(advance, t, j).value.current != end
    ensures Run(advance, end, t, fuel) == Ok(Iterate(advance, t, k).value.path)
    decreases k
  {
    if k > 0 {
      assert Iterate(advance, t, 0) == Ok(t);
      var s := advance(t).value;
      forall j | 0 <= j < k - 1
        ensures Iterate(advance, s, j).Ok? ==> Iterate(advance, s, j).value.current != end
      {
        assert Iterate(advance, t, j + 1) == Iterate(advance, s, j);
      }
      assert Iterate(advance, t, k) == Iterate(advance, s, k - 1);
      ArrivalRuns(advance, end, s, fuel - 1, k - 1);
    }
  }

  /** A failing loop stopped at the `k`-th iterate, which is not on the end
      cell, nor is any earlier one: either the fuel was spent there, or
      that iterate's iteration failed and its error is the loop's. */
  lemma {:induction false} RunStops(advance: Transition, end: Loc, t: State, fuel: nat) returns (k: nat)
    requires Progressing(advance) && Consistent(t)
    requires Run(advance, end, t, fuel).Err?
    ensures k <= fuel
    ensures Iterate(advance, t, k).Ok? && Iterate(advance, t, k).value.current != end
    ensures forall j :: 0 <= j < k ==> Iterate(advance, t, j).Ok? && Iterate(advance, t, j).value.current != end
    ensures k == fuel ==> Run(advance, end, t, fuel) == Err(OutOfFuel)
    ensures k < fuel ==> advance(Iterate(advance, t, k).value).Err?
                         && Run(advance, end, t, fuel) == Err(advance(Iterate(advance, t, k).value).error)
    decreases fuel
  {
    if fuel == 0 || advance(t).Err? {
      k := 0;
    } else {
      var s := advance(t).value;
      var k' := RunStops(advance, end, s, fuel - 1);
      k := k' + 1;
      forall j | 0 <= j < k
        ensures Iterate(advance, t, j).Ok? && Iterate(advance, t, j).value.current != end
      {
        if j > 0 {
          assert Iterate(advance, t, j) == Iterate(advance, s, j - 1);
        }
      }
      assert Iterate(advance, t, k) == Iterate(advance, s, k');
    }
  }

  /** The step of the path follower on a fixed grid. */
  function OneStep(grid: Grid): Stepper {
    (path, d, base) => OnePathStep(path, grid, d, base)
  }

  /** OnePathStep extends the path, from an in-grid base, with in-grid
      cells before the chosen one. */
  lemma OneStepExtending(grid: Grid)
    ensures Extending(OneStep(grid))
    ensures KeepsInside(grid, OneStep(grid))
  {
    forall path, d, base
      ensures OneStep(grid)(path, d, base).Ok? ==>
                && Extends(path, OneStep(grid)(path, d, base).value)
                && InBounds(grid, base)
                && forall i :: |path| <= i < |OneStep(grid)(path, d, base).value| - 1 ==>
                     InBounds(grid, OneStep(grid)(path, d, base).value[i])
    {
      StepFacts.StepExtends(path, grid, d, base);
    }
  }

  /** One iteration of the path follower on a fixed grid. */
  function Iteration(grid: Grid): (advance: Transition)
    ensures Progressing(advance)
    ensures FailsWithTraceErrors(advance)
  {
    OneStepExtending(grid);
    IterationErrors(grid);
    t => Advance(OneStep(grid), t)
  }

  /** Every successful iteration records its new current cell's first
      index. */
  lemma IterationRecorded(grid: Grid)
    ensures KeepsRecorded(Iteration(grid))
  {
    OneStepExtending(grid);
    forall t | Consistent(t) && Iteration(grid)(t).Ok?
      ensures Recorded(Iteration(grid)(t).value)
    {
      assert Iteration(grid)(t) == Advance(OneStep(grid), t);
    }
  }

  /** A failing iteration fails with an index panic, "no direction to
      follow", "infinite path" or "invalid path direction". */
  lemma IterationErrors(grid: Grid)
    requires Extending(OneStep(grid))
    ensures forall t :: Consistent(t) && Advance(OneStep(grid), t).Err? ==> TraceError(Advance(OneStep(grid), t).error)
  {
    forall t | Consistent(t) && Advance(OneStep(grid), t).Err?
      ensures TraceError(Advance(OneStep(grid), t).error)
    {
      StepFacts.StepExtends(t.path, grid, t.direction, t.current);
    }
  }

  /** The loop fails only with the error of a failing iteration or by
      running out of fuel. */
  lemma {:induction false} RunErrors(advance: Transition, end: Loc, t: State, fuel: nat)
    requires Progressing(advance) && FailsWithTraceErrors(advance) && Consistent(t)
    ensures Run(advance, end, t, fuel).Err? ==> TraceError(Run(advance, end, t, fuel).error)
    decreases fuel
  {
    if t.current != end && fuel > 0 && advance(t).Ok? {
      RunErrors(advance, end, advance(t).value, fuel - 1);
    }
  }

  /** Follows the path from `start` until `end` is reached, within `fuel`
      iterations. A result starts with the start cell and ends with the
      end cell; when they coincide the path is just the start. */
  function FollowPath(grid: Grid, start: Loc, end: Loc, fuel: nat): (r: Result<seq<Loc>>)
    ensures r.Ok? ==> |r.value| > 0 && r.value[0] == start && r.value[|r.value| - 1] == end
    ensures start == end ==> r == Ok([start])
    ensures r.Err? ==> TraceError(r.error)
  {
    RunErrors(Iteration(grid), end, Initial(start), fuel);
    Run(Iteration(grid), end, Initial(start), fuel)
  }

  /** The state of the path follower after `k` iterations from `start`
      (without the end test). Its path begins with the start cell, every
      path cell before the current one is in the grid, and the current
      cell's first index is recorded. */
  function Trace(grid: Grid, start: Loc, k: nat): (r: Result<State>)
    ensures r.Ok? ==> Consistent(r.value) && |r.value.path| > k && r.value.path[0] == start
    ensures r.Ok? ==> Settled(grid, r.value) && Recorded(r.value)
  {
    IterationSettled(grid);
    IterationRecorded(grid);
    assert Recorded(Initial(start));
    IterateKeeps(Iteration(grid), s => Settled(grid, s) && Recorded(s), Initial(start), k);
    var r := Iterate(Iteration(grid), Initial(start), k);
    if r.Ok? then assert r.value.path[..1] == [start]; r else r
  }

  /** A traced path is the path of the first traced state on the end
      cell, reached within the fuel; no earlier state stands on it. */
  lemma FollowPathArrives(grid: Grid, start: Loc, end: Loc, fuel: nat) returns (k: nat)
    requires FollowPath(grid, start, end, fuel).Ok?
    ensures k <= fuel
    ensures Trace(grid, start, k).Ok? && Trace(grid, start, k).value.current == end
    ensures FollowPath(grid, start, end, fuel) == Ok(Trace(grid, start, k).value.path)
    ensures forall j :: 0 <= j < k ==> Trace(grid, start, j).Ok? && Trace(grid, start, j).value.current != end
  {
    k := RunArrives(Iteration(grid), end, Initial(start), fuel);
  }

  /** Conversely, the first arrival within the fuel is what is returned. */
  lemma FollowPathFirstArrival(grid: Grid, start: Loc, end: Loc, fuel: nat, k: nat)
    requires k <= fuel
    requires Trace(grid, start, k).Ok? && Trace(grid, start, k).value.current == end
    requires forall j :: 0 <= j < k ==> Trace(grid, start, j).Ok? ==> Trace(grid, start, j).value.current != end
    ensures FollowPath(grid, start, end, fuel) == Ok(Trace(grid, start, k).value.path)
  {
    var advance := Iteration(grid);
    assert Trace(grid, start, k) == Iterate(advance, Initial(start), k);
    forall j | 0 <= j < k
      ensures Iterate(advance, Initial(start), j).Ok? ==> Iterate(advance, Initial(start), j).value.current != end
    {
      assert Trace(grid, start, j) == Iterate(advance, Initial(start), j);
    }
    ArrivalRuns(advance, end, Initial(start), fuel, k);
  }

  /** Every path cell before the current one is inside the grid. */
  predicate Settled(grid: Grid, t: State) {
    forall i :: 0 <= i < |t.path| - 1 ==> InBounds(grid, t.path[i])
  }

  /** Every successful iteration from a settled state is settled. */
  ghost predicate KeepsSettled(grid: Grid, advance: Transition) {
    forall t :: Consistent(t) && Settled(grid, t) && advance(t).Ok? ==> Settled(grid, advance(t).value)
  }

  lemma {:induction false} AdvanceSettled(grid: Grid, step: Stepper, t: State)
    requires Extending(step) && KeepsInside(grid, step)
    requires Consistent(t) && Settled(grid, t)
    ensures Advance(step, t).Ok? ==> Settled(grid, Advance(step, t).value)
  {
    var r := Advance(step, t);
    if r.Ok? {
      var p := r.value.path;
      assert step(t.path, t.direction, t.current) == Ok(p);
      forall i | 0 <= i < |p| - 1
        ensures InBounds(grid, p[i])
      {
        if i < |t.path| {
          assert p[i] == p[..|t.path|][i] == t.path[i];
        }
      }
    }
  }

  lemma IterationSettled(grid: Grid)
    ensures KeepsSettled(grid, Iteration(grid))
  {
    OneStepExtending(grid);
    forall t | Consistent(t) && Settled(grid, t)
      ensures Iteration(grid)(t).Ok? ==> Settled(grid, Iteration(grid)(t).value)
    {
      AdvanceSettled(grid, OneStep(grid), t);
    }
  }

  /** A property of states that every successful iteration keeps holds
      after any number of iterations. */
  lemma {:induction false} IterateKeeps(advance: Transition, inv: State -> bool, t: State, k: nat)
    requires Progressing(advance) && Consistent(t) && inv(t)
    requires forall s :: Consistent(s) && inv(s) && advance(s).Ok? ==> inv(advance(s).value)
    ensures Iterate(advance, t, k).Ok? ==> inv(Iterate(advance, t, k).value)
    decreases k
  {
    if k > 0 && advance(t).Ok? {
      IterateKeeps(advance, inv, advance(t).value, k - 1);
    }
  }

  /** When the end cell is inside the grid, a loop whose iterations keep
      the path settled returns a path entirely inside the grid: the last
      cell is the end cell. */
  lemma {:induction false} RunInBounds(grid: Grid, advance: Transition, end: Loc, t: State, fuel: nat)
    requires Progressing(advance) && KeepsSettled(grid, advance)
    requires Consistent(t) && Settled(grid, t) && InBounds(grid, end)
    ensures Run(advance, end, t, fuel).Ok? ==> AllInBounds(grid, Run(advance, end, t, fuel).value)
    decreases fuel
  {
    if t.current != end && fuel > 0 {
      var next := advance(t);
      if next.Ok? {
        RunInBounds(grid, advance, end, next.value, fuel - 1);
      }
    }
  }

  /** When the end cell is inside the grid, a traced path lies entirely
      inside it: a step that leaves the grid (a chain walk off the top or
      left edge) is caught by the next step's index panic. */
  lemma FollowPathInBounds(grid: Grid, start: Loc, end: Loc, fuel: nat)
    requires InBounds(grid, end)
    ensures FollowPath(grid, start, end, fuel).Ok? ==> AllInBounds(grid, FollowPath(grid, start, end, fuel).value)
  {
    IterationSettled(grid);
    RunInBounds(grid, Iteration(grid), end, Initial(start), fuel);
  }

  /** Fuel only bounds the loop: any outcome other than running out of
      fuel is the same with more fuel. */
  lemma {:induction false} RunFuelMonotone(advance: Transition, end: Loc, t: State, fuel: nat, more: nat)
    requires Progressing(advance) && Consistent(t) && fuel <= more
    requires Run(advance, end, t, fuel) != Err(OutOfFuel)
    ensures Run(advance, end, t, more) == Run(advance, end, t, fuel)
    decreases fuel
  {
    if t.current != end {
      var next := advance(t);
      if next.Ok? {
        RunFuelMonotone(advance, end, next.value, fuel - 1, more - 1);
      }
    }
  }

  lemma FollowPathFuelMonotone(grid: Grid, start: Loc, end: Loc, fuel: nat, more: nat)
    requires fuel <= more && FollowPath(grid, start, end, fuel) != Err(OutOfFuel)
    ensures FollowPath(grid, start, end, more) == FollowPath(grid, start, end, fuel)
  {
    RunFuelMonotone(Iteration(grid), end, Initial(start), fuel, more);
  }
}
