/** One step of the tracer: enumerate the neighbours of the current cell,
    filter them by the character under it (skipping crossing chains), and
    choose where to go next. */
module Step {
  import opened Types
  import opened Directions

  /** The first and last column examined on row `lineIndex`: up to three
      around the base on the base row, only the base column on the rows
      above and below, clipped to the row. */
  function ColumnRange(grid: Grid, base: Loc, lineIndex: int): (range: (int, int))
    requires 0 <= lineIndex < |grid|
    ensures 0 <= range.0 && range.1 < |grid[lineIndex]|
    ensures lineIndex == base.row ==> base.col - 1 <= range.0 && range.1 <= base.col + 1
    ensures lineIndex != base.row ==> base.col <= range.0 && range.1 <= base.col
  {
    var line := grid[lineIndex];
    if lineIndex == base.row then (Max(0, base.col - 1), Min(base.col + 1, |line| - 1))
    else (Max(0, base.col), Min(base.col, |line| - 1))
  }

  /** The cell one step against `d`: the one the tracer came from. */
  function Behind(base: Loc, d: Direction): Loc {
    Loc(base.row - Diffs(d).v, base.col - Diffs(d).h)
  }

  /** The cell one step along `d`: where momentum would take the tracer. */
  function Ahead(base: Loc, d: Direction): Loc {
    Loc(base.row + Diffs(d).v, base.col + Diffs(d).h)
  }

  /** Where a crossing-chain walk stopped, and the path it extended. */
  datatype Walk = Walk(stop: int, path: seq<Loc>)

  /** `ext` extends `path` with in-grid crossing cells only: `-` cells of
      column `line` when `vertical`, `|` cells of row `line` otherwise. */
  predicate Chain(grid: Grid, path: seq<Loc>, ext: seq<Loc>, vertical: bool, line: int) {
    && |path| <= |ext|
    && ext[..|path|] == path
    && forall i :: |path| <= i < |ext| ==>
         && InBounds(grid, ext[i])
         && (if vertical then ext[i].col == line && CharAt(grid, ext[i]) == HorizontalConnection
             else ext[i].row == line && CharAt(grid, ext[i]) == VerticalConnection)
  }

  /** Walks down (or up) column `col` from `row` while the cells hold `-`,
      appending each one to the path. Leaving the grid ends the walk with
      the first row outside it; reading past the end of a short row is an
      index panic. */
  function WalkColumn(grid: Grid, down: bool, row: int, col: int, path: seq<Loc>): (w: Result<Walk>)
    requires 0 <= row < |grid| && 0 <= col < |grid[row]|
    ensures w.Ok? ==> |w.value.path| >= |path|
    ensures w.Err? ==> w.error.IndexOutOfRange?
    decreases if down then |grid| - row else row + 1
  {
    if grid[row][col] != HorizontalConnection then Ok(Walk(row, path))
    else
      var path' := path + [Loc(row, col)];
      var next := if down then row + 1 else row - 1;
      if next < 0 || next >= |grid| then Ok(Walk(next, path'))
      else if col >= |grid[next]| then Err(IndexOutOfRange(Loc(next, col)))
      else WalkColumn(grid, down, next, col, path')
  }

  /** Walks right (or left) along row `row` from `col` while the cells hold
      `|`, appending each one to the path. Leaving the row ends the walk
      with the first column outside it. */
  function WalkRow(grid: Grid, right: bool, row: int, col: int, path: seq<Loc>): (w: Walk)
    requires 0 <= row < |grid| && 0 <= col < |grid[row]|
    ensures |w.path| >= |path|
    decreases if right then |grid[row]| - col else col + 1
  {
    if grid[row][col] != VerticalConnection then Walk(col, path)
    else
      var path' := path + [Loc(row, col)];
      var next := if right then col + 1 else col - 1;
      if next < 0 || next >= |grid[row]| then Walk(next, path')
      else WalkRow(grid, right, row, next, path')
  }

  /** The state the neighbour scan carries: the growing path, the
      (possibly moved) preferred cell, and the candidates found so far. */
  datatype Scan = Scan(path: seq<Loc>, preferred: Loc, valid: seq<Loc>)

  /** Processes one examined cell of the scan. Reading a cell outside the
      grid is an index panic, as in the program. */
  function VisitCell(grid: Grid, d: Direction, base: Loc, cell: Loc, acc: Scan): (r: Result<Scan>)
    requires InBounds(grid, base)
    ensures r.Err? ==> r.error.IndexOutOfRange?
  {
    if cell == Behind(base, d) || cell == base then Ok(acc)
    else if !InBounds(grid, cell) then Err(IndexOutOfRange(cell))
    else
      var ch := CharAt(grid, cell);
      var baseChar := CharAt(grid, base);
      if ch == SpaceCharacter then Ok(acc)
      else if baseChar == VerticalConnection then
        if cell.col != base.col then Ok(acc)
        else match WalkColumn(grid, d == Down, cell.row, cell.col, acc.path)
          case Err(e) => Err(e)
          case Ok(w) =>
            if w.stop != cell.row && w.stop < |grid| then
              var moved := Loc(w.stop, cell.col);
              Ok(Scan(w.path, if acc.preferred == cell then moved else acc.preferred, acc.valid + [moved]))
            else Ok(Scan(w.path, acc.preferred, acc.valid + [cell]))
      else if baseChar == HorizontalConnection then
        if cell.row != base.row then Ok(acc)
        else
          var w := WalkRow(grid, d == Right, cell.row, cell.col, acc.path);
          if w.stop != cell.col && w.stop < |grid[cell.row]| then
            var moved := Loc(cell.row, w.stop);
            Ok(Scan(w.path, if acc.preferred == cell then moved else acc.preferred, acc.valid + [moved]))
          else Ok(Scan(w.path, acc.preferred, acc.valid + [cell]))
      else
        Ok(acc.(valid := acc.valid
                + (if cell.row == base.row && ch != VerticalConnection then [cell] else [])
                + (if cell.col == base.col && ch != HorizontalConnection then [cell] else [])))
  }

  /** The inner loop: visits columns `columnIndex`..`columnEnd` of row
      `lineIndex`, stopping at the first panic. */
  function ScanColumns(grid: Grid, d: Direction, base: Loc, lineIndex: int, columnIndex: int, columnEnd: int, acc: Scan): (r: Result<Scan>)
    requires InBounds(grid, base)
    ensures r.Err? ==> r.error.IndexOutOfRange?
    decreases columnEnd - columnIndex
  {
    if columnIndex > columnEnd then Ok(acc)
    else match VisitCell(grid, d, base, Loc(lineIndex, columnIndex), acc)
      case Err(e) => Err(e)
      case Ok(acc') => ScanColumns(grid, d, base, lineIndex, columnIndex + 1, columnEnd, acc')
  }

  /** The outer loop: visits rows `lineIndex`..`last`. */
  function ScanLines(grid: Grid, d: Direction, base: Loc, lineIndex: int, last: int, acc: Scan): (r: Result<Scan>)
    requires InBounds(grid, base) && 0 <= lineIndex && last < |grid|
    ensures r.Err? ==> r.error.IndexOutOfRange?
    decreases last - lineIndex
  {
    if lineIndex > last then Ok(acc)
    else
      var (columnStart, columnEnd) := ColumnRange(grid, base, lineIndex);
      match ScanColumns(grid, d, base, lineIndex, columnStart, columnEnd, acc)
      case Err(e) => Err(e)
      case Ok(acc') => ScanLines(grid, d, base, lineIndex + 1, last, acc')
  }

  /** Both loops over the rows around the base, clipped to the grid. */
  function ScanNeighbours(grid: Grid, d: Direction, base: Loc, acc: Scan): (r: Result<Scan>)
    requires InBounds(grid, base)
    ensures r.Err? ==> r.error.IndexOutOfRange?
  {
    ScanLines(grid, d, base, Max(0, base.row - 1), Min(base.row + 1, |grid| - 1), acc)
  }

  /** The result of a successful neighbour scan. */
  function Choose(base: Loc, s: Scan): (r: Result<seq<Loc>>)
    ensures r.Err? <==> |s.valid| == 0
    ensures r.Err? ==> r.error == NoDirectionToFollow
    ensures r.Ok? ==> |r.value| == |s.path| + 1 && r.value[..|s.path|] == s.path && r.value[|s.path|] in s.valid
    ensures s.preferred != base && s.preferred in s.valid ==> r == Ok(s.path + [s.preferred])
    ensures !(s.preferred != base && s.preferred in s.valid) && |s.valid| > 0 ==> r == Ok(s.path + [s.valid[0]])
  {
    if s.preferred != base && s.preferred in s.valid then Ok(s.path + [s.preferred])
    else if |s.valid| == 0 then Err(NoDirectionToFollow)
    else Ok(s.path + [s.valid[0]])
  }

  /** One step of the tracer from `base`, travelling in `d`: the path
      extended with any crossing-chain cells and, last, the chosen cell. */
  function OnePathStep(path: seq<Loc>, grid: Grid, d: Direction, base: Loc): (r: Result<seq<Loc>>)
    ensures r.Err? ==> r.error.IndexOutOfRange? || r.error == NoDirectionToFollow
  {
    if !InBounds(grid, base) then Err(IndexOutOfRange(base))
    else
      match ScanNeighbours(grid, d, base, Scan(path, Ahead(base, d), []))
      case Err(e) => Err(e)
      case Ok(s) => Choose(base, s)
  }

  /** A column walk stops at the first row off the grid, or on a cell of
      its column that is not `-`; it fails only on a row too short to hold
      the column. */
  lemma {:induction false} WalkColumnEnds(grid: Grid, down: bool, row: int, col: int, path: seq<Loc>)
    requires 0 <= row < |grid| && 0 <= col < |grid[row]|
    ensures var w := WalkColumn(grid, down, row, col, path);
      && (w.Ok? ==> w.value.stop == if down then row + (|w.value.path| - |path|) else row - (|w.value.path| - |path|))
      && (w.Ok? ==> w.value.stop == -1 || w.value.stop == |grid| ||
                    (0 <= w.value.stop < |grid| && col < |grid[w.value.stop]| &&
                     grid[w.value.stop][col] != HorizontalConnection))
      && (w.Err? ==> w.error.IndexOutOfRange? && w.error.at.col == col
                     && 0 <= w.error.at.row < |grid| && col >= |grid[w.error.at.row]|)
    decreases if down then |grid| - row else row + 1
  {
    var next := if down then row + 1 else row - 1;
    if grid[row][col] == HorizontalConnection && 0 <= next < |grid| && col < |grid[next]| {
      WalkColumnEnds(grid, down, next, col, path + [Loc(row, col)]);
    }
  }

  /** A row walk stops at the first column off the row, or on a cell of
      its row that is not `|`. */
  lemma {:induction false} WalkRowEnds(grid: Grid, right: bool, row: int, col: int, path: seq<Loc>)
    requires 0 <= row < |grid| && 0 <= col < |grid[row]|
    ensures var w := WalkRow(grid, right, row, col, path);
      && w.stop == (if right then col + (|w.path| - |path|) else col - (|w.path| - |path|))
      && (|| w.stop == -1
          || w.stop == |grid[row]|
          || (0 <= w.stop < |grid[row]| && grid[row][w.stop] != VerticalConnection))
    decreases if right then |grid[row]| - col else col + 1
  {
    var next := if right then col + 1 else col - 1;
    if grid[row][col] == VerticalConnection && 0 <= next < |grid[row]| {
      WalkRowEnds(grid, right, row, next, path + [Loc(row, col)]);
    }
  }

  /** A column walk extends the path with `-` cells of its column only. */
  lemma {:induction false} WalkColumnChain(grid: Grid, down: bool, row: int, col: int, path: seq<Loc>)
    requires 0 <= row < |grid| && 0 <= col < |grid[row]|
    ensures var w := WalkColumn(grid, down, row, col, path);
      w.Ok? ==> Chain(grid, path, w.value.path, true, col)
    decreases if down then |grid| - row else row + 1
  {
    if grid[row][col] == HorizontalConnection {
      var path' := path + [Loc(row, col)];
      var next := if down then row + 1 else row - 1;
      assert Chain(grid, path, path', true, col);
      if 0 <= next < |grid| && col < |grid[next]| {
        WalkColumnChain(grid, down, next, col, path');
        var w := WalkColumn(grid, down, next, col, path');
        if w.Ok? {
          ChainTrans(grid, path, path', w.value.path, true, col);
        }
      }
    } else {
      assert path[..|path|] == path;
    }
  }

  /** A row walk extends the path with `|` cells of its row only. */
  lemma {:induction false} WalkRowChain(grid: Grid, right: bool, row: int, col: int, path: seq<Loc>)
    requires 0 <= row < |grid| && 0 <= col < |grid[row]|
    ensures Chain(grid, path, WalkRow(grid, right, row, col, path).path, false, row)
    decreases if right then |grid[row]| - col else col + 1
  {
    if grid[row][col] == VerticalConnection {
      var path' := path + [Loc(row, col)];
      var next := if right then col + 1 else col - 1;
      assert Chain(grid, path, path', false, row);
      if 0 <= next < |grid[row]| {
        WalkRowChain(grid, right, row, next, path');
        ChainTrans(grid, path, path', WalkRow(grid, right, row, next, path').path, false, row);
      }
    } else {
      assert path[..|path|] == path;
    }
  }

  lemma ChainTrans(grid: Grid, a: seq<Loc>, b: seq<Loc>, c: seq<Loc>, vertical: bool, line: int)
    requires Chain(grid, a, b, vertical, line) && Chain(grid, b, c, vertical, line)
    ensures Chain(grid, a, c, vertical, line)
  {
    assert c[..|a|] == c[..|b|][..|a|];
  }

  /** The `n` cells of column `col` from row `row` on, going down (or up). */
  function ColumnRun(row: int, col: int, down: bool, n: nat): (cells: seq<Loc>)
    ensures |cells| == n
    decreases n
  {
    if n == 0 then [] else [Loc(row, col)] + ColumnRun(if down then row + 1 else row - 1, col, down, n - 1)
  }

  /** The `n` cells of row `row` from column `col` on, going right (or left). */
  function RowRun(row: int, col: int, right: bool, n: nat): (cells: seq<Loc>)
    ensures |cells| == n
    decreases n
  {
    if n == 0 then [] else [Loc(row, col)] + RowRun(row, if right then col + 1 else col - 1, right, n - 1)
  }

  /** A column walk over a run of `n` in-grid `-` cells appends exactly
      the run and stops on the row after it, when that row is the first
      row off the grid or holds another character in the column. */
  lemma {:induction false} WalkColumnAcross(grid: Grid, down: bool, row: int, col: int, path: seq<Loc>, n: nat)
    requires forall i :: 0 <= i < n ==>
               InBounds(grid, ColumnRun(row, col, down, n)[i]) && CharAt(grid, ColumnRun(row, col, down, n)[i]) == HorizontalConnection
    requires var stop := if down then row + n else row - n;
      || (InBounds(grid, Loc(stop, col)) && CharAt(grid, Loc(stop, col)) != HorizontalConnection)
      || (n > 0 && (stop == -1 || stop == |grid|))
    ensures 0 <= row < |grid| && 0 <= col < |grid[row]|
    ensures WalkColumn(grid, down, row, col, path)
         == Ok(Walk(if down then row + n else row - n, path + ColumnRun(row, col, down, n)))
    decreases n
  {
    var run := ColumnRun(row, col, down, n);
    if n == 0 {
      assert path + run == path;
    } else {
      var next := if down then row + 1 else row - 1;
      var rest := ColumnRun(next, col, down, n - 1);
      assert run == [Loc(row, col)] + rest;
      assert run[0] == Loc(row, col);
      if n == 1 && (next == -1 || next == |grid|) {
        assert rest == [];
        assert path + run == path + [Loc(row, col)];
      } else {
        forall i | 0 <= i < n - 1
          ensures InBounds(grid, rest[i]) && CharAt(grid, rest[i]) == HorizontalConnection
        {
          assert rest[i] == run[i + 1];
        }
        WalkColumnAcross(grid, down, next, col, path + [Loc(row, col)], n - 1);
        assert path + [Loc(row, col)] + rest == path + run;
      }
    }
  }

  /** A column walk over a run of `n` in-grid `-` cells whose next row is
      in the grid but too short to hold the column reads past the end of
      that row: an index panic on the cell after the run. */
  lemma {:induction false} WalkColumnShort(grid: Grid, down: bool, row: int, col: int, path: seq<Loc>, n: nat)
    requires n > 0
    requires forall i :: 0 <= i < n ==>
               InBounds(grid, ColumnRun(row, col, down, n)[i]) && CharAt(grid, ColumnRun(row, col, down, n)[i]) == HorizontalConnection
    requires var stop := if down then row + n else row - n;
      0 <= stop < |grid| && col >= |grid[stop]|
    ensures 0 <= row < |grid| && 0 <= col < |grid[row]|
    ensures WalkColumn(grid, down, row, col, path)
         == Err(IndexOutOfRange(Loc(if down then row + n else row - n, col)))
    decreases n
  {
    var run := ColumnRun(row, col, down, n);
    var next := if down then row + 1 else row - 1;
    var rest := ColumnRun(next, col, down, n - 1);
    assert run == [Loc(row, col)] + rest;
    assert run[0] == Loc(row, col);
    if n > 1 {
      forall i | 0 <= i < n - 1
        ensures InBounds(grid, rest[i]) && CharAt(grid, rest[i]) == HorizontalConnection
      {
        assert rest[i] == run[i + 1];
      }
      WalkColumnShort(grid, down, next, col, path + [Loc(row, col)], n - 1);
    }
  }

  /** The mirror for a row walk over a run of `|` cells, stopping on the
      first column off the row or on another character. */
  lemma {:induction false} WalkRowAcross(grid: Grid, right: bool, row: int, col: int, path: seq<Loc>, n: nat)
    requires forall i :: 0 <= i < n ==>
               InBounds(grid, RowRun(row, col, right, n)[i]) && CharAt(grid, RowRun(row, col, right, n)[i]) == VerticalConnection
    requires var stop := if right then col + n else col - n;
      || (InBounds(grid, Loc(row, stop)) && CharAt(grid, Loc(row, stop)) != VerticalConnection)
      || (n > 0 && 0 <= row < |grid| && (stop == -1 || stop == |grid[row]|))
    ensures 0 <= row < |grid| && 0 <= col < |grid[row]|
    ensures WalkRow(grid, right, row, col, path)
         == Walk(if right then col + n else col - n, path + RowRun(row, col, right, n))
    decreases n
  {
    var run := RowRun(row, col, right, n);
    if n == 0 {
      assert path + run == path;
    } else {
      var next := if right then col + 1 else col - 1;
      var rest := RowRun(row, next, right, n - 1);
      assert run == [Loc(row, col)] + rest;
      assert run[0] == Loc(row, col);
      if n == 1 && (next == -1 || next == |grid[row]|) {
        assert rest == [];
        assert path + run == path + [Loc(row, col)];
      } else {
        forall i | 0 <= i < n - 1
          ensures InBounds(grid, rest[i]) && CharAt(grid, rest[i]) == VerticalConnection
        {
          assert rest[i] == run[i + 1];
        }
        WalkRowAcross(grid, right, row, next, path + [Loc(row, col)], n - 1);
        assert path + [Loc(row, col)] + rest == path + run;
      }
    }
  }
}
