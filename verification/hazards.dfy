/** Behaviours of the single step that the code has as written and
    that a reader might not expect, each shown on every grid that has the
    few cells it needs. */
module Hazards {
  import opened Types
  import opened Directions
  import opened Step
  import opened StepFacts
  import opened Tracer

  /** Under a `|` base, a run of cells each of which is in the grid and is
      the base, the cell behind, or outside the base column leaves the
      scan unchanged. */
  lemma {:induction false} SkipColumns(grid: Grid, d: Direction, base: Loc, lineIndex: int, lo: int, hi: int, acc: Scan)
    requires InBounds(grid, base) && CharAt(grid, base) == VerticalConnection
    requires forall c :: lo <= c <= hi ==>
               && InBounds(grid, Loc(lineIndex, c))
               && (c != base.col || Loc(lineIndex, c) == base || Loc(lineIndex, c) == Behind(base, d))
    ensures ScanColumns(grid, d, base, lineIndex, lo, hi, acc) == Ok(acc)
    decreases hi - lo
  {
    if lo <= hi {
      assert VisitCell(grid, d, base, Loc(lineIndex, lo), acc) == Ok(acc);
      SkipColumns(grid, d, base, lineIndex, lo + 1, hi, acc);
    }
  }

  /** Walking off the top: travelling up onto a `|` whose cell above is a
      `-` in the first row, the crossing walk steps to row -1 and the step
      chooses that cell outside the grid. */
  lemma WalkOffTop(grid: Grid, path: seq<Loc>, col: int)
    requires InBounds(grid, Loc(0, col)) && InBounds(grid, Loc(1, col))
    requires CharAt(grid, Loc(0, col)) == HorizontalConnection
    requires CharAt(grid, Loc(1, col)) == VerticalConnection
    ensures OnePathStep(path, grid, Up, Loc(1, col)) == Ok(path + [Loc(0, col), Loc(-1, col)])
  {
    var base := Loc(1, col);
    var acc0 := Scan(path, Loc(0, col), []);
    var acc1 := Scan(path + [Loc(0, col)], Loc(-1, col), [Loc(-1, col)]);
    assert WalkColumn(grid, false, 0, col, path) == Ok(Walk(-1, path + [Loc(0, col)]));
    assert [] + [Loc(-1, col)] == [Loc(-1, col)];
    assert VisitCell(grid, Up, base, Loc(0, col), acc0) == Ok(acc1);
    assert ScanColumns(grid, Up, base, 0, col + 1, col, acc1) == Ok(acc1);
    assert ScanColumns(grid, Up, base, 0, col, col, acc0) == Ok(acc1);
    var (lo1, hi1) := ColumnRange(grid, base, 1);
    SkipColumns(grid, Up, base, 1, lo1, hi1, acc1);
    var last := Min(2, |grid| - 1);
    if last == 2 {
      var (lo2, hi2) := ColumnRange(grid, base, 2);
      SkipColumns(grid, Up, base, 2, lo2, hi2, acc1);
    }
    assert ScanLines(grid, Up, base, 1, last, acc1) == Ok(acc1);
    assert ScanLines(grid, Up, base, 0, last, acc0) == Ok(acc1);
    assert path + [Loc(0, col)] + [Loc(-1, col)] == path + [Loc(0, col), Loc(-1, col)];
  }

  /** One loop iteration later the off-grid cell is current. */
  lemma WalkOffTopAdvance(grid: Grid, t: State, col: int)
    requires InBounds(grid, Loc(0, col)) && InBounds(grid, Loc(1, col))
    requires CharAt(grid, Loc(0, col)) == HorizontalConnection
    requires CharAt(grid, Loc(1, col)) == VerticalConnection
    requires Consistent(t) && Settled(grid, t)
    requires t.direction == Up && t.current == Loc(1, col)
    ensures Iteration(grid)(t) == Ok(State(Up, Loc(-1, col), t.path + [Loc(0, col), Loc(-1, col)], None))
  {
    WalkOffTop(grid, t.path, col);
    var p := t.path + [Loc(0, col), Loc(-1, col)];
    assert p[..|p| - 1] == t.path + [Loc(0, col)];
    assert Loc(-1, col) !in p[..|p| - 1];
  }

  /** An iteration from a cell off the grid is an index panic on that cell. */
  lemma OffGridPanics(grid: Grid, t: State)
    requires Consistent(t) && !InBounds(grid, t.current)
    ensures Iteration(grid)(t) == Err(IndexOutOfRange(t.current))
  {
  }

  /** So the second iteration after climbing onto the `-` panics. */
  lemma WalkOffTopPanics(grid: Grid, t: State, col: int)
    requires InBounds(grid, Loc(0, col)) && InBounds(grid, Loc(1, col))
    requires CharAt(grid, Loc(0, col)) == HorizontalConnection
    requires CharAt(grid, Loc(1, col)) == VerticalConnection
    requires Consistent(t) && Settled(grid, t)
    requires t.direction == Up && t.current == Loc(1, col)
    ensures Iteration(grid)(t).Ok?
    ensures Iteration(grid)(Iteration(grid)(t).value) == Err(IndexOutOfRange(Loc(-1, col)))
  {
    WalkOffTopAdvance(grid, t, col);
    OffGridPanics(grid, Iteration(grid)(t).value);
  }

  /** Short rows: travelling up or down on a `|` over a run of `-` cells
      onto a row too short to hold the column, the crossing walk reads
      past the end of that row. */
  lemma ShortRowPanics(grid: Grid, path: seq<Loc>, d: Direction, base: Loc, n: nat)
    requires InBounds(grid, base) && CharAt(grid, base) == VerticalConnection
    requires d == Up || d == Down
    requires n > 0
    requires var run := ColumnRun(Ahead(base, d).row, base.col, d == Down, n);
      forall i :: 0 <= i < n ==> InBounds(grid, run[i]) && CharAt(grid, run[i]) == HorizontalConnection
    requires var land := Loc(if d == Down then base.row + 1 + n else base.row - 1 - n, base.col);
      0 <= land.row < |grid| && base.col >= |grid[land.row]|
    ensures var land := Loc(if d == Down then base.row + 1 + n else base.row - 1 - n, base.col);
      OnePathStep(path, grid, d, base) == Err(IndexOutOfRange(land))
  {
    var ahead := Ahead(base, d);
    WalkColumnShort(grid, d == Down, ahead.row, base.col, path, n);
    assert ColumnRun(ahead.row, base.col, d == Down, n)[0] == ahead;
    ColumnScanLooksAhead(grid, d, base, Scan(path, ahead, []));
  }

  /** Direction fallback: on a `|` reached sideways (or at the start)
      with a `-` below and no non-blank cell above (none at all in the
      first row), the `-` below is walked upwards, back onto the base
      itself, which then becomes the only candidate and is chosen. */
  lemma FallbackChoosesBase(grid: Grid, path: seq<Loc>, d: Direction, base: Loc)
    requires d != Up && d != Down
    requires InBounds(grid, base) && CharAt(grid, base) == VerticalConnection
    requires var above := Loc(base.row - 1, base.col);
      !InBounds(grid, above) || CharAt(grid, above) == SpaceCharacter
    requires var below := Loc(base.row + 1, base.col);
      InBounds(grid, below) && CharAt(grid, below) == HorizontalConnection
    ensures OnePathStep(path, grid, d, base) == Ok(path + [Loc(base.row + 1, base.col), base])
  {
    var below := Loc(base.row + 1, base.col);
    var acc0 := Scan(path, Ahead(base, d), []);
    var pre := FallbackAround(grid, d, base);
    FallbackReturns(grid, path, d, base, []);
    ScanSingle(grid, d, base, pre, below, [], acc0);
    assert pre + [below] + [] == pre + [below];
    ScanNeighboursAsList(grid, d, base, acc0);
    OnlyBaseChosen(base, Ahead(base, d), path + [below]);
    assert path + [below] + [base] == path + [below, base];
  }

  /** The examined cells around that `|` base end with the `-` below, and
      every cell before it is passed over. */
  lemma FallbackAround(grid: Grid, d: Direction, base: Loc) returns (pre: seq<Loc>)
    requires d != Up && d != Down
    requires InBounds(grid, base) && CharAt(grid, base) == VerticalConnection
    requires var above := Loc(base.row - 1, base.col);
      !InBounds(grid, above) || CharAt(grid, above) == SpaceCharacter
    requires InBounds(grid, Loc(base.row + 1, base.col))
    ensures Neighbourhood(grid, base) == pre + [Loc(base.row + 1, base.col)]
    ensures forall i :: 0 <= i < |pre| ==> Passes(grid, d, base, pre[i])
  {
    var upper := UpperCell(grid, base);
    var row := BaseRow(grid, base);
    assert forall i :: 0 <= i < |upper| ==> Passes(grid, d, base, upper[i]);
    assert forall i :: 0 <= i < |row| ==> Passes(grid, d, base, row[i]);
    pre := upper + row;
  }

  /** The visit of the `-` below a `|` reached sideways: the walk goes up
      over it and back onto the base, which becomes a candidate. */
  lemma FallbackReturns(grid: Grid, path: seq<Loc>, d: Direction, base: Loc, valid: seq<Loc>)
    requires d != Up && d != Down
    requires InBounds(grid, base) && CharAt(grid, base) == VerticalConnection
    requires var below := Loc(base.row + 1, base.col);
      InBounds(grid, below) && CharAt(grid, below) == HorizontalConnection
    ensures var below := Loc(base.row + 1, base.col);
      VisitCell(grid, d, base, below, Scan(path, Ahead(base, d), valid))
      == Ok(Scan(path + [below], Ahead(base, d), valid + [base]))
  {
    var below := Loc(base.row + 1, base.col);
    assert ColumnRun(below.row, base.col, false, 1) == [below];
    WalkColumnAcross(grid, false, below.row, base.col, path, 1);
  }

  /** With the base as the only candidate, the base is chosen. */
  lemma OnlyBaseChosen(base: Loc, preferred: Loc, p: seq<Loc>)
    ensures Choose(base, Scan(p, preferred, [base])) == Ok(p + [base])
  {
  }

  /** The mirror on a `-` reached vertically (or at the start) with a `|`
      on its right and no non-blank cell on its left (none at all in the
      first column): the `|` is walked leftwards, back onto the base, which
      is chosen. */
  lemma RowFallbackChoosesBase(grid: Grid, path: seq<Loc>, d: Direction, base: Loc)
    requires d != Left && d != Right
    requires InBounds(grid, base) && CharAt(grid, base) == HorizontalConnection
    requires var left := Loc(base.row, base.col - 1);
      !InBounds(grid, left) || CharAt(grid, left) == SpaceCharacter
    requires var right := Loc(base.row, base.col + 1);
      InBounds(grid, right) && CharAt(grid, right) == VerticalConnection
    ensures OnePathStep(path, grid, d, base) == Ok(path + [Loc(base.row, base.col + 1), base])
  {
    var right := Loc(base.row, base.col + 1);
    var acc0 := Scan(path, Ahead(base, d), []);
    var pre, post := RowFallbackAround(grid, d, base);
    RowFallbackReturns(grid, path, d, base, []);
    ScanSingle(grid, d, base, pre, right, post, acc0);
    ScanNeighboursAsList(grid, d, base, acc0);
    OnlyBaseChosen(base, Ahead(base, d), path + [right]);
    assert path + [right] + [base] == path + [right, base];
  }

  /** The visit of the `|` right of a `-` reached vertically: the walk
      goes left over it and back onto the base, which becomes a candidate. */
  lemma RowFallbackReturns(grid: Grid, path: seq<Loc>, d: Direction, base: Loc, valid: seq<Loc>)
    requires d != Left && d != Right
    requires InBounds(grid, base) && CharAt(grid, base) == HorizontalConnection
    requires var right := Loc(base.row, base.col + 1);
      InBounds(grid, right) && CharAt(grid, right) == VerticalConnection
    ensures var right := Loc(base.row, base.col + 1);
      VisitCell(grid, d, base, right, Scan(path, Ahead(base, d), valid))
      == Ok(Scan(path + [right], Ahead(base, d), valid + [base]))
  {
    var right := Loc(base.row, base.col + 1);
    assert RowRun(base.row, right.col, false, 1) == [right];
    WalkRowAcross(grid, false, base.row, right.col, path, 1);
  }

  /** The examined cells around that `-` base, split around the `|` on its
      right: every other cell is passed over. */
  lemma RowFallbackAround(grid: Grid, d: Direction, base: Loc) returns (pre: seq<Loc>, post: seq<Loc>)
    requires d != Left && d != Right
    requires InBounds(grid, base) && CharAt(grid, base) == HorizontalConnection
    requires var left := Loc(base.row, base.col - 1);
      !InBounds(grid, left) || CharAt(grid, left) == SpaceCharacter
    requires InBounds(grid, Loc(base.row, base.col + 1))
    ensures Neighbourhood(grid, base) == pre + [Loc(base.row, base.col + 1)] + post
    ensures forall i :: 0 <= i < |pre| ==> Passes(grid, d, base, pre[i])
    ensures forall i :: 0 <= i < |post| ==> Passes(grid, d, base, post[i])
  {
    var upper := UpperCell(grid, base);
    var lower := LowerCell(grid, base);
    var leftPart := if base.col > 0 then [Loc(base.row, base.col - 1)] else [];
    assert BaseRow(grid, base) == leftPart + [base] + [Loc(base.row, base.col + 1)];
    pre := upper + leftPart + [base];
    post := lower;
    assert forall i :: 0 <= i < |upper| ==> Passes(grid, d, base, upper[i]);
    assert forall i :: 0 <= i < |leftPart| ==> Passes(grid, d, base, leftPart[i]);
  }

  /** The two cells the fallback below the first row acts on: the cell
      above becomes the first candidate, and the walk from the `-` below
      appends it and returns to the base. */
  lemma FallbackVisits(grid: Grid, path: seq<Loc>, d: Direction, base: Loc)
    requires d != Up && d != Down
    requires InBounds(grid, base) && CharAt(grid, base) == VerticalConnection
    requires var above := Loc(base.row - 1, base.col);
      InBounds(grid, above) && CharAt(grid, above) != SpaceCharacter && CharAt(grid, above) != HorizontalConnection
    requires var below := Loc(base.row + 1, base.col);
      InBounds(grid, below) && CharAt(grid, below) == HorizontalConnection
    ensures var above := Loc(base.row - 1, base.col);
      VisitCell(grid, d, base, above, Scan(path, Ahead(base, d), [])) == Ok(Scan(path, Ahead(base, d), [above]))
    ensures var above := Loc(base.row - 1, base.col);
      var below := Loc(base.row + 1, base.col);
      VisitCell(grid, d, base, below, Scan(path, Ahead(base, d), [above]))
      == Ok(Scan(path + [below], Ahead(base, d), [above, base]))
  {
    var above := Loc(base.row - 1, base.col);
    var below := Loc(base.row + 1, base.col);
    WalkColumnAcross(grid, false, above.row, base.col, path, 0);
    assert path + ColumnRun(above.row, base.col, false, 0) == path;
    assert [] + [above] == [above];
    assert ColumnRun(below.row, base.col, false, 1) == [below];
    WalkColumnAcross(grid, false, below.row, base.col, path, 1);
    assert [above] + [base] == [above, base];
  }

  /** Direction fallback below the first row: on a `|` reached sideways
      (or at the start) with a `-` below and a cell other than a blank or
      `-` above, the `-` below is walked upwards onto the base and stays on
      the path, while the step goes up to the cell above, the first
      candidate found. */
  lemma FallbackLeavesCrossing(grid: Grid, path: seq<Loc>, d: Direction, base: Loc)
    requires d != Up && d != Down
    requires InBounds(grid, base) && CharAt(grid, base) == VerticalConnection
    requires var above := Loc(base.row - 1, base.col);
      InBounds(grid, above) && CharAt(grid, above) != SpaceCharacter && CharAt(grid, above) != HorizontalConnection
    requires var below := Loc(base.row + 1, base.col);
      InBounds(grid, below) && CharAt(grid, below) == HorizontalConnection
    ensures OnePathStep(path, grid, d, base)
         == Ok(path + [Loc(base.row + 1, base.col), Loc(base.row - 1, base.col)])
  {
    var above := Loc(base.row - 1, base.col);
    var below := Loc(base.row + 1, base.col);
    FallbackScan(grid, path, d, base);
    FallbackChoosesAbove(base, d, path + [below]);
    assert path + [below] + [above] == path + [below, above];
  }

  /** The scan in that fallback: two candidates, the cell above and then
      the base, with the `-` below appended to the path. */
  lemma FallbackScan(grid: Grid, path: seq<Loc>, d: Direction, base: Loc)
    requires d != Up && d != Down
    requires InBounds(grid, base) && CharAt(grid, base) == VerticalConnection
    requires var above := Loc(base.row - 1, base.col);
      InBounds(grid, above) && CharAt(grid, above) != SpaceCharacter && CharAt(grid, above) != HorizontalConnection
    requires var below := Loc(base.row + 1, base.col);
      InBounds(grid, below) && CharAt(grid, below) == HorizontalConnection
    ensures ScanNeighbours(grid, d, base, Scan(path, Ahead(base, d), []))
         == Ok(Scan(path + [Loc(base.row + 1, base.col)], Ahead(base, d), [Loc(base.row - 1, base.col), base]))
  {
    var above := Loc(base.row - 1, base.col);
    var below := Loc(base.row + 1, base.col);
    var ahead := Ahead(base, d);
    var acc0 := Scan(path, ahead, []);
    var acc1 := Scan(path, ahead, [above]);
    var acc2 := Scan(path + [below], ahead, [above, base]);
    FallbackVisits(grid, path, d, base);
    var row := BaseRow(grid, base);
    assert forall i :: 0 <= i < |row| ==> Passes(grid, d, base, row[i]);
    ScanSingle(grid, d, base, [], above, [], acc0);
    assert [] + [above] + [] == [above];
    assert ScanCells(grid, d, base, [above], acc0) == Ok(acc1);
    ScanPasses(grid, d, base, row, acc1);
    ScanCellsAppend(grid, d, base, [above], row, acc0);
    assert ScanCells(grid, d, base, [above] + row, acc0) == Ok(acc1);
    ScanSingle(grid, d, base, [], below, [], acc1);
    assert [] + [below] + [] == [below];
    assert ScanCells(grid, d, base, [below], acc1) == Ok(acc2);
    ScanCellsAppend(grid, d, base, [above] + row, [below], acc0);
    assert Neighbourhood(grid, base) == [above] + row + [below];
    ScanNeighboursAsList(grid, d, base, acc0);
  }

  /** The choice in that fallback: the cell straight ahead is neither
      candidate (or is the base itself), so the first candidate wins. */
  lemma FallbackChoosesAbove(base: Loc, d: Direction, p: seq<Loc>)
    requires d != Up && d != Down
    ensures var above := Loc(base.row - 1, base.col);
      Choose(base, Scan(p, Ahead(base, d), [above, base])) == Ok(p + [above])
  {
  }

  /** The mirror below the first column: on a `-` reached vertically (or
      at the start) with a `|` on its right and a cell other than a blank
      or `|` on its left, the `|` is walked leftwards onto the base and
      stays on the path, while the step goes left, to the first candidate
      found. */
  lemma RowFallbackLeavesCrossing(grid: Grid, path: seq<Loc>, d: Direction, base: Loc)
    requires d != Left && d != Right
    requires InBounds(grid, base) && CharAt(grid, base) == HorizontalConnection
    requires var left := Loc(base.row, base.col - 1);
      InBounds(grid, left) && CharAt(grid, left) != SpaceCharacter && CharAt(grid, left) != VerticalConnection
    requires var right := Loc(base.row, base.col + 1);
      InBounds(grid, right) && CharAt(grid, right) == VerticalConnection
    ensures OnePathStep(path, grid, d, base)
         == Ok(path + [Loc(base.row, base.col + 1), Loc(base.row, base.col - 1)])
  {
    var left := Loc(base.row, base.col - 1);
    var right := Loc(base.row, base.col + 1);
    RowFallbackScan(grid, path, d, base);
    RowFallbackChoosesLeft(base, d, path + [right]);
    assert path + [right] + [left] == path + [right, left];
  }

  /** The scan in that mirror: two candidates, the cell on the left and
      then the base, with the `|` on the right appended to the path. */
  lemma RowFallbackScan(grid: Grid, path: seq<Loc>, d: Direction, base: Loc)
    requires d != Left && d != Right
    requires InBounds(grid, base) && CharAt(grid, base) == HorizontalConnection
    requires var left := Loc(base.row, base.col - 1);
      InBounds(grid, left) && CharAt(grid, left) != SpaceCharacter && CharAt(grid, left) != VerticalConnection
    requires var right := Loc(base.row, base.col + 1);
      InBounds(grid, right) && CharAt(grid, right) == VerticalConnection
    ensures ScanNeighbours(grid, d, base, Scan(path, Ahead(base, d), []))
         == Ok(Scan(path + [Loc(base.row, base.col + 1)], Ahead(base, d), [Loc(base.row, base.col - 1), base]))
  {
    var left := Loc(base.row, base.col - 1);
    var right := Loc(base.row, base.col + 1);
    var ahead := Ahead(base, d);
    var acc0 := Scan(path, ahead, []);
    var acc1 := Scan(path, ahead, [left]);
    var acc2 := Scan(path + [right], ahead, [left, base]);
    var upper, lower := RowFallbackSplit(grid, d, base);
    assert [base][0] == base;
    RowFallbackVisitsLeft(grid, path, d, base);
    ScanSingle(grid, d, base, upper, left, [base], acc0);
    assert upper + [left] + [base] == upper + [left, base];
    RowFallbackReturns(grid, path, d, base, [left]);
    assert [left] + [base] == [left, base];
    ScanSingle(grid, d, base, [], right, lower, acc1);
    assert [] + [right] + lower == [right] + lower;
    ScanCellsAppend(grid, d, base, upper + [left, base], [right] + lower, acc0);
    ScanNeighboursAsList(grid, d, base, acc0);
  }

  /** The examined cells around a `-` with both row neighbours: the cells
      above and below, which are passed over, around the base row. */
  lemma RowFallbackSplit(grid: Grid, d: Direction, base: Loc) returns (upper: seq<Loc>, lower: seq<Loc>)
    requires InBounds(grid, base) && CharAt(grid, base) == HorizontalConnection
    requires InBounds(grid, Loc(base.row, base.col - 1)) && InBounds(grid, Loc(base.row, base.col + 1))
    ensures Neighbourhood(grid, base)
         == (upper + [Loc(base.row, base.col - 1), base]) + ([Loc(base.row, base.col + 1)] + lower)
    ensures forall i :: 0 <= i < |upper| ==> Passes(grid, d, base, upper[i])
    ensures forall i :: 0 <= i < |lower| ==> Passes(grid, d, base, lower[i])
    ensures Passes(grid, d, base, base)
  {
    upper := UpperCell(grid, base);
    lower := LowerCell(grid, base);
    assert BaseRow(grid, base) == [Loc(base.row, base.col - 1), base, Loc(base.row, base.col + 1)];
  }

  /** The visit of the cell on the left in that mirror: it is no `|`, so
      the row walk stops on it at once and it becomes a candidate. */
  lemma RowFallbackVisitsLeft(grid: Grid, path: seq<Loc>, d: Direction, base: Loc)
    requires d != Left && d != Right
    requires InBounds(grid, base) && CharAt(grid, base) == HorizontalConnection
    requires var left := Loc(base.row, base.col - 1);
      InBounds(grid, left) && CharAt(grid, left) != SpaceCharacter && CharAt(grid, left) != VerticalConnection
    ensures var left := Loc(base.row, base.col - 1);
      VisitCell(grid, d, base, left, Scan(path, Ahead(base, d), [])) == Ok(Scan(path, Ahead(base, d), [left]))
  {
    var left := Loc(base.row, base.col - 1);
    WalkRowAcross(grid, false, base.row, left.col, path, 0);
    assert path + RowRun(base.row, left.col, false, 0) == path;
    assert [] + [left] == [left];
  }

  /** The choice in that mirror: the cell straight ahead is neither
      candidate (or is the base itself), so the cell on the left wins. */
  lemma RowFallbackChoosesLeft(base: Loc, d: Direction, p: seq<Loc>)
    requires d != Left && d != Right
    ensures var left := Loc(base.row, base.col - 1);
      Choose(base, Scan(p, Ahead(base, d), [left, base])) == Ok(p + [left])
  {
  }

  /** The first index of a cell already in `a` is unchanged by appending. */
  lemma {:induction false} FirstPathIndexAppend(a: seq<Loc>, b: seq<Loc>, loc: Loc)
    requires loc in a
    ensures FirstPathIndex(a + b, loc) == FirstPathIndex(a, loc)
  {
    if a[0] != loc {
      assert (a + b)[1..] == a[1..] + b;
      FirstPathIndexAppend(a[1..], b, loc);
    }
  }

  /** The first index is the least index holding the cell. */
  lemma FirstPathIndexAt(path: seq<Loc>, loc: Loc, i: nat)
    requires i < |path| && path[i] == loc
    requires forall j :: 0 <= j < i ==> path[j] != loc
    ensures FirstPathIndex(path, loc) == Some(i)
  {
    assert Contains(path, loc);
  }

  /** Re-reaching the current cell is never an oscillation: either it was
      already on the path before it became current, and keeps that first
      index, or it was not, and there is no earlier index to compare. */
  lemma RevisitNotAdjacent(path: seq<Loc>, x: Loc)
    requires |path| > 0
    ensures var base := path[|path| - 1];
      !Adjacent(FirstPathIndex(path[..|path| - 1], base), FirstPathIndex(path + [x], base))
  {
    var base := path[|path| - 1];
    var before := path[..|path| - 1];
    var first := FirstPathIndex(before, base);
    if first.Some? {
      var ext := path + [x];
      forall j | 0 <= j <= first.value
        ensures ext[j] == before[j]
      {
        assert ext[j] == path[j];
      }
      FirstPathIndexAt(ext, base, first.value);
      AdjacentSymmetric(first, first);
    }
  }

  /** A step that ends back on the current cell stops the loop with
      "invalid path direction". */
  lemma BackOnBaseInvalid(step: Stepper, t: State, x: Loc)
    requires Extending(step) && Consistent(t)
    requires Recorded(t)
    requires step(t.path, t.direction, t.current) == Ok(t.path + [x, t.current])
    ensures Advance(step, t) == Err(InvalidPathDirection)
  {
    var p := t.path + [x, t.current];
    assert p[..|p| - 1] == t.path + [x];
    assert p[|p| - 1] == t.current;
    RevisitNotAdjacent(t.path, x);
  }

  /** The chosen base is not a move, so the loop stops with "invalid path
      direction" (the oscillation check cannot fire first: the base keeps
      its first path index). */
  lemma FallbackInvalidDirection(grid: Grid, t: State)
    requires t.direction != Up && t.direction != Down
    requires InBounds(grid, t.current) && CharAt(grid, t.current) == VerticalConnection
    requires var above := Loc(t.current.row - 1, t.current.col);
      !InBounds(grid, above) || CharAt(grid, above) == SpaceCharacter
    requires var below := Loc(t.current.row + 1, t.current.col);
      InBounds(grid, below) && CharAt(grid, below) == HorizontalConnection
    requires Consistent(t)
    requires Recorded(t)
    ensures Iteration(grid)(t) == Err(InvalidPathDirection)
  {
    FallbackChoosesBase(grid, t.path, t.direction, t.current);
    OneStepExtending(grid);
    BackOnBaseInvalid(OneStep(grid), t, Loc(t.current.row + 1, t.current.col));
  }

  /** The same stop for the mirror on a `-`. */
  lemma RowFallbackInvalidDirection(grid: Grid, t: State)
    requires t.direction != Left && t.direction != Right
    requires InBounds(grid, t.current) && CharAt(grid, t.current) == HorizontalConnection
    requires var left := Loc(t.current.row, t.current.col - 1);
      !InBounds(grid, left) || CharAt(grid, left) == SpaceCharacter
    requires var right := Loc(t.current.row, t.current.col + 1);
      InBounds(grid, right) && CharAt(grid, right) == VerticalConnection
    requires Consistent(t)
    requires Recorded(t)
    ensures Iteration(grid)(t) == Err(InvalidPathDirection)
  {
    RowFallbackChoosesBase(grid, t.path, t.direction, t.current);
    OneStepExtending(grid);
    BackOnBaseInvalid(OneStep(grid), t, Loc(t.current.row, t.current.col + 1));
  }
}
