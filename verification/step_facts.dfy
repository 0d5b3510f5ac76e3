/** What one step of the tracer does, stated against definitions that do
    not follow the step's loops: the clipped orthogonal neighbourhood, an
    admissibility predicate for cells beside a letter, marker or junction,
    and the crossing-chain shape of the path a connector cell produces. */
module StepFacts {
  import opened Types
  import opened Directions
  import opened Step

  /** `cell` is one row or one column away from `base`, not diagonal. */
  predicate Orthogonal(base: Loc, cell: Loc) {
    (cell.row == base.row && (cell.col == base.col - 1 || cell.col == base.col + 1)) ||
    (cell.col == base.col && (cell.row == base.row - 1 || cell.row == base.row + 1))
  }

  /** The cell above the base, when that row reaches the base column. */
  function UpperCell(grid: Grid, base: Loc): seq<Loc>
    requires InBounds(grid, base)
  {
    if base.row > 0 && base.col < |grid[base.row - 1]| then [Loc(base.row - 1, base.col)] else []
  }

  /** The cell below the base, when that row reaches the base column. */
  function LowerCell(grid: Grid, base: Loc): seq<Loc>
    requires InBounds(grid, base)
  {
    if base.row + 1 < |grid| && base.col < |grid[base.row + 1]| then [Loc(base.row + 1, base.col)] else []
  }

  /** The base and its in-row neighbours: left, base, right, as present. */
  function BaseRow(grid: Grid, base: Loc): seq<Loc>
    requires InBounds(grid, base)
  {
    (if base.col > 0 then [Loc(base.row, base.col - 1)] else [])
    + [base]
    + (if base.col + 1 < |grid[base.row]| then [Loc(base.row, base.col + 1)] else [])
  }

  /** The base and its in-grid orthogonal neighbours in the order up, left,
      base, right, down. */
  function Neighbourhood(grid: Grid, base: Loc): seq<Loc>
    requires InBounds(grid, base)
  {
    UpperCell(grid, base) + BaseRow(grid, base) + LowerCell(grid, base)
  }

  /** The cells of one grid row from column `lo` to column `hi`. */
  function Columns(row: int, lo: int, hi: int): seq<Loc>
    decreases hi - lo
  {
    if lo > hi then [] else [Loc(row, lo)] + Columns(row, lo + 1, hi)
  }

  /** The cells the inner loop visits on row `lineIndex`. */
  function RowCells(grid: Grid, base: Loc, lineIndex: int): seq<Loc>
    requires 0 <= lineIndex < |grid|
  {
    Columns(lineIndex, ColumnRange(grid, base, lineIndex).0, ColumnRange(grid, base, lineIndex).1)
  }

  /** The cells both loops visit on rows `lineIndex`..`last`. */
  function ScanRows(grid: Grid, base: Loc, lineIndex: int, last: int): seq<Loc>
    requires 0 <= lineIndex && last < |grid|
    decreases last - lineIndex
  {
    if lineIndex > last then []
    else RowCells(grid, base, lineIndex) + ScanRows(grid, base, lineIndex + 1, last)
  }

  /** The cells a step examines, in the order of its two nested loops. */
  function ScanOrder(grid: Grid, base: Loc): seq<Loc>
    requires InBounds(grid, base)
  {
    ScanRows(grid, base, Max(0, base.row - 1), Min(base.row + 1, |grid| - 1))
  }

  /** VisitCell folded over a list of cells, stopping at the first panic. */
  function ScanCells(grid: Grid, d: Direction, base: Loc, cells: seq<Loc>, acc: Scan): Result<Scan>
    requires InBounds(grid, base)
    decreases |cells|
  {
    if |cells| == 0 then Ok(acc)
    else match VisitCell(grid, d, base, cells[0], acc)
      case Err(e) => Err(e)
      case Ok(acc') => ScanCells(grid, d, base, cells[1..], acc')
  }

  /** Scanning `a + b` is scanning `a`, then `b` from where `a` left off. */
  lemma {:induction false} ScanCellsAppend(grid: Grid, d: Direction, base: Loc, a: seq<Loc>, b: seq<Loc>, acc: Scan)
    requires InBounds(grid, base)
    ensures ScanCells(grid, d, base, a + b, acc)
         == match ScanCells(grid, d, base, a, acc)
            case Err(e) => Err(e)
            case Ok(mid) => ScanCells(grid, d, base, b, mid)
    decreases |a|
  {
    if |a| == 0 {
      assert a + b == b;
    } else {
      assert (a + b)[0] == a[0];
      assert (a + b)[1..] == a[1..] + b;
      match VisitCell(grid, d, base, a[0], acc)
      case Err(e) =>
      case Ok(acc') => ScanCellsAppend(grid, d, base, a[1..], b, acc');
    }
  }

  /** The inner loop is the fold over the cells of its row. */
  lemma {:induction false} ScanColumnsAsList(grid: Grid, d: Direction, base: Loc, lineIndex: int, lo: int, hi: int, acc: Scan)
    requires InBounds(grid, base)
    ensures ScanColumns(grid, d, base, lineIndex, lo, hi, acc) == ScanCells(grid, d, base, Columns(lineIndex, lo, hi), acc)
    decreases hi - lo
  {
    if lo <= hi {
      var cells := Columns(lineIndex, lo, hi);
      assert cells[0] == Loc(lineIndex, lo);
      assert cells[1..] == Columns(lineIndex, lo + 1, hi);
      match VisitCell(grid, d, base, Loc(lineIndex, lo), acc)
      case Err(e) =>
      case Ok(acc') => ScanColumnsAsList(grid, d, base, lineIndex, lo + 1, hi, acc');
    }
  }

  /** The two loops are the fold over the scan order. */
  lemma {:induction false} ScanLinesAsList(grid: Grid, d: Direction, base: Loc, lineIndex: int, last: int, acc: Scan)
    requires InBounds(grid, base) && 0 <= lineIndex && last < |grid|
    ensures ScanLines(grid, d, base, lineIndex, last, acc) == ScanCells(grid, d, base, ScanRows(grid, base, lineIndex, last), acc)
    decreases last - lineIndex
  {
    if lineIndex <= last {
      var (lo, hi) := ColumnRange(grid, base, lineIndex);
      ScanColumnsAsList(grid, d, base, lineIndex, lo, hi, acc);
      ScanCellsAppend(grid, d, base, RowCells(grid, base, lineIndex), ScanRows(grid, base, lineIndex + 1, last), acc);
      match ScanColumns(grid, d, base, lineIndex, lo, hi, acc)
      case Err(e) =>
      case Ok(acc') => ScanLinesAsList(grid, d, base, lineIndex + 1, last, acc');
    }
  }

  lemma {:induction false} ColumnsSingle(row: int, col: int)
    ensures Columns(row, col, col) == [Loc(row, col)]
  {
    assert Columns(row, col + 1, col) == [];
  }

  lemma {:induction false} ColumnsTriple(row: int, col: int)
    ensures Columns(row, col - 1, col + 1) == [Loc(row, col - 1), Loc(row, col), Loc(row, col + 1)]
  {
    ColumnsSingle(row, col + 1);
    assert Columns(row, col, col + 1) == [Loc(row, col)] + Columns(row, col + 1, col + 1);
  }

  lemma {:induction false} ColumnsPair(row: int, col: int)
    ensures Columns(row, col, col + 1) == [Loc(row, col), Loc(row, col + 1)]
  {
    ColumnsSingle(row, col + 1);
  }

  /** The cells examined on the base row: left, base, right, as present. */
  lemma {:induction false} BaseRowCells(grid: Grid, base: Loc)
    requires InBounds(grid, base)
    ensures RowCells(grid, base, base.row) == BaseRow(grid, base)
  {
    var r := base.row;
    var c := base.col;
    if c > 0 && c + 1 < |grid[r]| {
      ColumnsTriple(r, c);
    } else if c > 0 {
      ColumnsPair(r, c - 1);
    } else if c + 1 < |grid[r]| {
      ColumnsPair(r, c);
    } else {
      ColumnsSingle(r, c);
    }
  }

  /** The cell examined on a row above or below the base, if any. */
  lemma {:induction false} OtherRowCells(grid: Grid, base: Loc, lineIndex: int)
    requires InBounds(grid, base) && 0 <= lineIndex < |grid| && lineIndex != base.row
    ensures RowCells(grid, base, lineIndex)
         == (if base.col < |grid[lineIndex]| then [Loc(lineIndex, base.col)] else [])
  {
    if base.col < |grid[lineIndex]| {
      ColumnsSingle(lineIndex, base.col);
    } else {
      assert Columns(lineIndex, base.col, |grid[lineIndex]| - 1) == [];
    }
  }

  /** The rows from the base row down to the last examined one. */
  lemma {:induction false} ScanFromBaseRow(grid: Grid, base: Loc)
    requires InBounds(grid, base)
    ensures ScanRows(grid, base, base.row, Min(base.row + 1, |grid| - 1))
         == BaseRow(grid, base) + LowerCell(grid, base)
  {
    var r := base.row;
    var last := Min(r + 1, |grid| - 1);
    BaseRowCells(grid, base);
    if r + 1 < |grid| {
      OtherRowCells(grid, base, r + 1);
      assert ScanRows(grid, base, r + 2, last) == [];
      assert ScanRows(grid, base, r + 1, last) == LowerCell(grid, base) + [];
    } else {
      assert ScanRows(grid, base, r + 1, last) == [];
    }
  }

  /** The two nested loops of the step examine exactly the clipped
      orthogonal neighbourhood, in the order up, left, base, right, down. */
  lemma {:induction false} ScanOrderIsNeighbourhood(grid: Grid, base: Loc)
    requires InBounds(grid, base)
    ensures ScanOrder(grid, base) == Neighbourhood(grid, base)
  {
    var r := base.row;
    var last := Min(r + 1, |grid| - 1);
    ScanFromBaseRow(grid, base);
    var rest := ScanRows(grid, base, r, last);
    if r > 0 {
      OtherRowCells(grid, base, r - 1);
      assert ScanRows(grid, base, r - 1, last) == UpperCell(grid, base) + rest;
    } else {
      assert UpperCell(grid, base) == [];
    }
  }

  /** Every cell of the neighbourhood is in the grid and is the base or an
      orthogonal neighbour of it; every in-grid orthogonal neighbour is in
      the neighbourhood. */
  lemma {:induction false} NeighbourhoodExact(grid: Grid, base: Loc)
    requires InBounds(grid, base)
    ensures AllInBounds(grid, Neighbourhood(grid, base))
    ensures forall cell :: cell in Neighbourhood(grid, base) ==> cell == base || Orthogonal(base, cell)
    ensures forall cell :: InBounds(grid, cell) && Orthogonal(base, cell) ==> cell in Neighbourhood(grid, base)
  {
    var n := Neighbourhood(grid, base);
    forall cell | InBounds(grid, cell) && Orthogonal(base, cell)
      ensures cell in n
    {
      if cell.row == base.row - 1 {
        assert cell == n[0];
      } else if cell.row == base.row + 1 {
        assert cell == n[|n| - 1];
      } else {
        assert cell in BaseRow(grid, base);
      }
    }
  }

  /** The step's neighbour scan is the fold over the neighbourhood. */
  lemma {:induction false} ScanNeighboursAsList(grid: Grid, d: Direction, base: Loc, acc: Scan)
    requires InBounds(grid, base)
    ensures ScanNeighbours(grid, d, base, acc) == ScanCells(grid, d, base, Neighbourhood(grid, base), acc)
  {
    ScanLinesAsList(grid, d, base, Max(0, base.row - 1), Min(base.row + 1, |grid| - 1), acc);
    ScanOrderIsNeighbourhood(grid, base);
  }

  /** A cell the step accepts beside a base that is not a connector: not
      the base, not the cell behind, not blank, in the base row or column,
      and never a `|` in the base row nor a `-` in the base column. */
  predicate Admissible(grid: Grid, d: Direction, base: Loc, cell: Loc)
    requires InBounds(grid, cell)
  {
    && cell != base
    && cell != Behind(base, d)
    && CharAt(grid, cell) != SpaceCharacter
    && ((cell.row == base.row && CharAt(grid, cell) != VerticalConnection) ||
        (cell.col == base.col && CharAt(grid, cell) != HorizontalConnection))
  }

  /** The admissible cells of `cells`, in order. */
  function Admitted(grid: Grid, d: Direction, base: Loc, cells: seq<Loc>): seq<Loc>
    requires AllInBounds(grid, cells)
  {
    if |cells| == 0 then []
    else (if Admissible(grid, d, base, cells[0]) then [cells[0]] else []) + Admitted(grid, d, base, cells[1..])
  }

  predicate IsConnector(c: char) {
    c == VerticalConnection || c == HorizontalConnection
  }

  lemma {:induction false} AdmittedMembers(grid: Grid, d: Direction, base: Loc, cells: seq<Loc>)
    requires AllInBounds(grid, cells)
    ensures forall cell :: cell in Admitted(grid, d, base, cells) <==> cell in cells && Admissible(grid, d, base, cell)
    decreases |cells|
  {
    if |cells| > 0 {
      AdmittedMembers(grid, d, base, cells[1..]);
      assert cells == [cells[0]] + cells[1..];
    }
  }

  lemma {:induction false} VisitPlain(grid: Grid, d: Direction, base: Loc, cell: Loc, acc: Scan)
    requires InBounds(grid, base) && InBounds(grid, cell)
    requires !IsConnector(CharAt(grid, base))
    ensures VisitCell(grid, d, base, cell, acc)
         == Ok(acc.(valid := acc.valid + if Admissible(grid, d, base, cell) then [cell] else []))
  {
    if cell == Behind(base, d) || cell == base || CharAt(grid, cell) == SpaceCharacter {
      assert acc.valid + [] == acc.valid;
    } else {
      var ch := CharAt(grid, cell);
      var a := if cell.row == base.row && ch != VerticalConnection then [cell] else [];
      var b := if cell.col == base.col && ch != HorizontalConnection then [cell] else [];
      assert a == [] || b == [];
      assert a + b == (if Admissible(grid, d, base, cell) then [cell] else []);
      assert acc.valid + a + b == acc.valid + (a + b);
    }
  }

  /** Beside a non-connector base the scan neither walks nor moves the
      preferred cell: it appends exactly the admissible cells. */
  lemma {:induction false} ScanPlain(grid: Grid, d: Direction, base: Loc, cells: seq<Loc>, acc: Scan)
    requires InBounds(grid, base) && AllInBounds(grid, cells)
    requires !IsConnector(CharAt(grid, base))
    ensures ScanCells(grid, d, base, cells, acc) == Ok(acc.(valid := acc.valid + Admitted(grid, d, base, cells)))
    decreases |cells|
  {
    if |cells| > 0 {
      var cell := cells[0];
      var here := if Admissible(grid, d, base, cell) then [cell] else [];
      VisitPlain(grid, d, base, cell, acc);
      ScanPlain(grid, d, base, cells[1..], acc.(valid := acc.valid + here));
      assert acc.valid + here + Admitted(grid, d, base, cells[1..])
          == acc.valid + (here + Admitted(grid, d, base, cells[1..]));
    } else {
      assert acc.valid + [] == acc.valid;
    }
  }

  /** The candidates of a step from a non-connector base. */
  function PlainCandidates(grid: Grid, d: Direction, base: Loc): seq<Loc>
    requires InBounds(grid, base)
  {
    NeighbourhoodExact(grid, base);
    Admitted(grid, d, base, Neighbourhood(grid, base))
  }

  /** The choice rule from a letter, marker or junction: the cell straight
      ahead when there is a direction and it is a candidate, otherwise the
      first candidate in the order up, left, right, down, and "no direction
      to follow" when there is none. The path gains exactly that cell. */
  lemma {:induction false} PlainStep(path: seq<Loc>, grid: Grid, d: Direction, base: Loc)
    requires InBounds(grid, base) && !IsConnector(CharAt(grid, base))
    ensures var cands := PlainCandidates(grid, d, base);
      OnePathStep(path, grid, d, base)
      == if d != NoDirection && Ahead(base, d) in cands then Ok(path + [Ahead(base, d)])
         else if |cands| == 0 then Err(NoDirectionToFollow)
         else Ok(path + [cands[0]])
  {
    NeighbourhoodExact(grid, base);
    ScanNeighboursAsList(grid, d, base, Scan(path, Ahead(base, d), []));
    ScanPlain(grid, d, base, Neighbourhood(grid, base), Scan(path, Ahead(base, d), []));
    assert Ahead(base, d) != base <==> d != NoDirection;
  }

  /** From a non-connector base, a successful step moves to an in-grid
      orthogonal neighbour that is neither blank nor the cell behind, is
      never a `|` in the same row nor a `-` in the same column, and is
      the only cell the path gains. */
  lemma {:induction false} PlainStepTarget(path: seq<Loc>, grid: Grid, d: Direction, base: Loc)
    requires InBounds(grid, base) && !IsConnector(CharAt(grid, base))
    requires OnePathStep(path, grid, d, base).Ok?
    ensures var p' := OnePathStep(path, grid, d, base).value;
      var next := p'[|p'| - 1];
      && p' == path + [next]
      && InBounds(grid, next)
      && Orthogonal(base, next)
      && next != Behind(base, d)
      && CharAt(grid, next) != SpaceCharacter
      && (next.row == base.row ==> CharAt(grid, next) != VerticalConnection)
      && (next.col == base.col ==> CharAt(grid, next) != HorizontalConnection)
  {
    PlainStep(path, grid, d, base);
    NeighbourhoodExact(grid, base);
    var cands := PlainCandidates(grid, d, base);
    AdmittedMembers(grid, d, base, Neighbourhood(grid, base));
    var p' := OnePathStep(path, grid, d, base).value;
    var next := p'[|p'| - 1];
    assert next in cands;
  }

  /** What the scan keeps true from a connector base: the path only gains
      crossing cells of the base's column (for `|`) or row (for `-`), and
      every candidate lies in that column or row. */
  predicate ScanKeeps(grid: Grid, path: seq<Loc>, s: Scan, vertical: bool, line: int) {
    && Chain(grid, path, s.path, vertical, line)
    && forall i :: 0 <= i < |s.valid| ==> (if vertical then s.valid[i].col == line else s.valid[i].row == line)
  }

  lemma {:induction false} VisitConnector(grid: Grid, d: Direction, base: Loc, cell: Loc, path: seq<Loc>, acc: Scan)
    requires InBounds(grid, base) && IsConnector(CharAt(grid, base))
    requires var vertical := CharAt(grid, base) == VerticalConnection;
      ScanKeeps(grid, path, acc, vertical, if vertical then base.col else base.row)
    ensures var vertical := CharAt(grid, base) == VerticalConnection;
      var r := VisitCell(grid, d, base, cell, acc);
      (r.Ok? ==> ScanKeeps(grid, path, r.value, vertical, if vertical then base.col else base.row))
      && (r.Err? ==> r.error.IndexOutOfRange?)
  {
    var vertical := CharAt(grid, base) == VerticalConnection;
    var line := if vertical then base.col else base.row;
    var r := VisitCell(grid, d, base, cell, acc);
    if vertical && InBounds(grid, cell) {
      WalkColumnEnds(grid, d == Down, cell.row, cell.col, acc.path);
    }
    if r.Ok? && r.value != acc {
      if vertical {
        var w := WalkColumn(grid, d == Down, cell.row, cell.col, acc.path);
        WalkColumnChain(grid, d == Down, cell.row, cell.col, acc.path);
        ChainTrans(grid, path, acc.path, w.value.path, true, line);
      } else {
        var w := WalkRow(grid, d == Right, cell.row, cell.col, acc.path);
        WalkRowChain(grid, d == Right, cell.row, cell.col, acc.path);
        ChainTrans(grid, path, acc.path, w.path, false, line);
      }
    }
  }

  lemma {:induction false} ScanConnector(grid: Grid, d: Direction, base: Loc, cells: seq<Loc>, path: seq<Loc>, acc: Scan)
    requires InBounds(grid, base) && IsConnector(CharAt(grid, base))
    requires var vertical := CharAt(grid, base) == VerticalConnection;
      ScanKeeps(grid, path, acc, vertical, if vertical then base.col else base.row)
    ensures var vertical := CharAt(grid, base) == VerticalConnection;
      var r := ScanCells(grid, d, base, cells, acc);
      (r.Ok? ==> ScanKeeps(grid, path, r.value, vertical, if vertical then base.col else base.row))
      && (r.Err? ==> r.error.IndexOutOfRange?)
    decreases |cells|
  {
    if |cells| > 0 {
      VisitConnector(grid, d, base, cells[0], path, acc);
      var v := VisitCell(grid, d, base, cells[0], acc);
      if v.Ok? {
        ScanConnector(grid, d, base, cells[1..], path, v.value);
      }
    }
  }

  /** From a `|` base the path gains only `-` cells of the base column
      before the chosen cell, which is itself in the base column; from a
      `-` base, only `|` cells of the base row, and the chosen cell is in
      the base row. */
  lemma {:induction false} ConnectorStep(path: seq<Loc>, grid: Grid, d: Direction, base: Loc)
    requires InBounds(grid, base) && IsConnector(CharAt(grid, base))
    requires OnePathStep(path, grid, d, base).Ok?
    ensures var p' := OnePathStep(path, grid, d, base).value;
      var next := p'[|p'| - 1];
      && |p'| > |path|
      && (CharAt(grid, base) == VerticalConnection ==>
            Chain(grid, path, p'[..|p'| - 1], true, base.col) && next.col == base.col)
      && (CharAt(grid, base) == HorizontalConnection ==>
            Chain(grid, path, p'[..|p'| - 1], false, base.row) && next.row == base.row)
  {
    var vertical := CharAt(grid, base) == VerticalConnection;
    var line := if vertical then base.col else base.row;
    var acc := Scan(path, Ahead(base, d), []);
    assert path[..|path|] == path;
    ScanNeighboursAsList(grid, d, base, acc);
    ScanConnector(grid, d, base, Neighbourhood(grid, base), path, acc);
    var s := ScanCells(grid, d, base, Neighbourhood(grid, base), acc).value;
    var p' := OnePathStep(path, grid, d, base).value;
    assert p'[..|p'| - 1] == s.path;
    var next := p'[|p'| - 1];
    assert next in s.valid;
  }

  /** Whatever the base, a successful step keeps the old path as a prefix,
      adds at least the chosen cell, and every cell it adds before the
      chosen one is in the grid. A step fails only by an index panic or
      with "no direction to follow". */
  lemma {:induction false} StepExtends(path: seq<Loc>, grid: Grid, d: Direction, base: Loc)
    ensures var r := OnePathStep(path, grid, d, base);
      && (r.Ok? ==>
            && InBounds(grid, base)
            && |r.value| > |path|
            && r.value[..|path|] == path
            && forall i :: |path| <= i < |r.value| - 1 ==> InBounds(grid, r.value[i]))
      && (r.Err? ==> r.error.IndexOutOfRange? || r.error == NoDirectionToFollow)
  {
    var r := OnePathStep(path, grid, d, base);
    if InBounds(grid, base) {
      if IsConnector(CharAt(grid, base)) {
        var acc := Scan(path, Ahead(base, d), []);
        assert path[..|path|] == path;
        ScanNeighboursAsList(grid, d, base, acc);
        ScanConnector(grid, d, base, Neighbourhood(grid, base), path, acc);
        if r.Ok? {
          ConnectorStep(path, grid, d, base);
          var p' := r.value;
          assert p'[..|path|] == p'[..|p'| - 1][..|path|];
          forall i | |path| <= i < |p'| - 1
            ensures InBounds(grid, p'[i])
          {
            assert p'[i] == p'[..|p'| - 1][i];
          }
        }
      } else {
        PlainStep(path, grid, d, base);
      }
    }
  }

  /** Cells the scan passes over without effect: the base, the cell
      behind, blanks, and cells off the line of a connector base. */
  predicate Passes(grid: Grid, d: Direction, base: Loc, cell: Loc)
    requires InBounds(grid, base)
  {
    && InBounds(grid, cell)
    && (|| cell == base
        || cell == Behind(base, d)
        || CharAt(grid, cell) == SpaceCharacter
        || (CharAt(grid, base) == VerticalConnection && cell.col != base.col)
        || (CharAt(grid, base) == HorizontalConnection && cell.row != base.row))
  }

  lemma {:induction false} ScanPasses(grid: Grid, d: Direction, base: Loc, cells: seq<Loc>, acc: Scan)
    requires InBounds(grid, base)
    requires forall i :: 0 <= i < |cells| ==> Passes(grid, d, base, cells[i])
    ensures ScanCells(grid, d, base, cells, acc) == Ok(acc)
    decreases |cells|
  {
    if |cells| > 0 {
      assert VisitCell(grid, d, base, cells[0], acc) == Ok(acc);
      ScanPasses(grid, d, base, cells[1..], acc);
    }
  }

  /** When every cell but one is passed over, the scan is the visit of
      that one cell. */
  lemma {:induction false} ScanSingle(grid: Grid, d: Direction, base: Loc, pre: seq<Loc>, cell: Loc, post: seq<Loc>, acc: Scan)
    requires InBounds(grid, base)
    requires forall i :: 0 <= i < |pre| ==> Passes(grid, d, base, pre[i])
    requires forall i :: 0 <= i < |post| ==> Passes(grid, d, base, post[i])
    ensures ScanCells(grid, d, base, pre + [cell] + post, acc) == VisitCell(grid, d, base, cell, acc)
  {
    ScanCellsAppend(grid, d, base, pre, [cell] + post, acc);
    assert pre + [cell] + post == pre + ([cell] + post);
    ScanPasses(grid, d, base, pre, acc);
    var rest := [cell] + post;
    assert rest[0] == cell && rest[1..] == post;
    match VisitCell(grid, d, base, cell, acc)
    case Err(e) =>
    case Ok(acc') => ScanPasses(grid, d, base, post, acc');
  }

  /** Travelling up or down on a `|`, the scan looks only straight ahead:
      every other examined cell is the base, behind, or off the column. */
  lemma {:induction false} ColumnScanLooksAhead(grid: Grid, d: Direction, base: Loc, acc: Scan)
    requires InBounds(grid, base) && CharAt(grid, base) == VerticalConnection
    requires (d == Up || d == Down) && InBounds(grid, Ahead(base, d))
    ensures ScanNeighbours(grid, d, base, acc) == VisitCell(grid, d, base, Ahead(base, d), acc)
  {
    var ahead := Ahead(base, d);
    var upper := UpperCell(grid, base);
    var row := BaseRow(grid, base);
    var lower := LowerCell(grid, base);
    assert forall i :: 0 <= i < |row| ==> Passes(grid, d, base, row[i]);
    if d == Down {
      assert lower == [ahead];
      assert forall i :: 0 <= i < |upper| ==> Passes(grid, d, base, upper[i]);
      ScanSingle(grid, d, base, upper + row, ahead, [], acc);
      assert Neighbourhood(grid, base) == upper + row + [ahead] + [];
    } else {
      assert upper == [ahead];
      assert forall i :: 0 <= i < |lower| ==> Passes(grid, d, base, lower[i]);
      ScanSingle(grid, d, base, [], ahead, row + lower, acc);
      assert Neighbourhood(grid, base) == [] + [ahead] + (row + lower);
    }
    ScanNeighboursAsList(grid, d, base, acc);
  }

  /** The examined cells around a `-` base, split around the cell ahead
      when travelling left or right: every other cell is passed over. */
  lemma {:induction false} RowNeighbourhoodAround(grid: Grid, d: Direction, base: Loc)
    returns (pre: seq<Loc>, post: seq<Loc>)
    requires InBounds(grid, base) && CharAt(grid, base) == HorizontalConnection
    requires (d == Left || d == Right) && InBounds(grid, Ahead(base, d))
    ensures Neighbourhood(grid, base) == pre + [Ahead(base, d)] + post
    ensures forall i :: 0 <= i < |pre| ==> Passes(grid, d, base, pre[i])
    ensures forall i :: 0 <= i < |post| ==> Passes(grid, d, base, post[i])
  {
    var upper := UpperCell(grid, base);
    var lower := LowerCell(grid, base);
    assert forall i :: 0 <= i < |upper| ==> Passes(grid, d, base, upper[i]);
    assert forall i :: 0 <= i < |lower| ==> Passes(grid, d, base, lower[i]);
    var mid, rest := BaseRowAround(grid, d, base);
    pre, post := upper + mid, rest + lower;
    assert Neighbourhood(grid, base) == upper + (mid + [Ahead(base, d)] + rest) + lower;
  }

  /** The same split of the base row alone. */
  lemma {:induction false} BaseRowAround(grid: Grid, d: Direction, base: Loc)
    returns (pre: seq<Loc>, post: seq<Loc>)
    requires InBounds(grid, base) && CharAt(grid, base) == HorizontalConnection
    requires (d == Left || d == Right) && InBounds(grid, Ahead(base, d))
    ensures BaseRow(grid, base) == pre + [Ahead(base, d)] + post
    ensures forall i :: 0 <= i < |pre| ==> Passes(grid, d, base, pre[i])
    ensures forall i :: 0 <= i < |post| ==> Passes(grid, d, base, post[i])
  {
    if d == Right {
      pre := (if base.col > 0 then [Loc(base.row, base.col - 1)] else []) + [base];
      post := [];
    } else {
      pre := [];
      post := [base] + (if base.col + 1 < |grid[base.row]| then [Loc(base.row, base.col + 1)] else []);
    }
  }

  /** Travelling left or right on a `-`, the scan looks only straight ahead. */
  lemma {:induction false} RowScanLooksAhead(grid: Grid, d: Direction, base: Loc, acc: Scan)
    requires InBounds(grid, base) && CharAt(grid, base) == HorizontalConnection
    requires (d == Left || d == Right) && InBounds(grid, Ahead(base, d))
    ensures ScanNeighbours(grid, d, base, acc) == VisitCell(grid, d, base, Ahead(base, d), acc)
  {
    var pre, post := RowNeighbourhoodAround(grid, d, base);
    ScanSingle(grid, d, base, pre, Ahead(base, d), post, acc);
    ScanNeighboursAsList(grid, d, base, acc);
  }

  /** A dead end at a `|`: travelling up or down with no cell straight
      ahead (off the grid, or on a row too short to hold the column) or a
      blank there, no examined cell is a candidate and the step fails
      with "no direction to follow". */
  lemma {:induction false} ColumnDeadEnd(path: seq<Loc>, grid: Grid, d: Direction, base: Loc)
    requires InBounds(grid, base) && CharAt(grid, base) == VerticalConnection
    requires d == Up || d == Down
    requires !InBounds(grid, Ahead(base, d)) || CharAt(grid, Ahead(base, d)) == SpaceCharacter
    ensures OnePathStep(path, grid, d, base) == Err(NoDirectionToFollow)
  {
    var acc0 := Scan(path, Ahead(base, d), []);
    var cells := Neighbourhood(grid, base);
    assert forall i :: 0 <= i < |UpperCell(grid, base)| ==> Passes(grid, d, base, UpperCell(grid, base)[i]);
    assert forall i :: 0 <= i < |BaseRow(grid, base)| ==> Passes(grid, d, base, BaseRow(grid, base)[i]);
    assert forall i :: 0 <= i < |LowerCell(grid, base)| ==> Passes(grid, d, base, LowerCell(grid, base)[i]);
    assert forall i :: 0 <= i < |cells| ==> Passes(grid, d, base, cells[i]);
    ScanPasses(grid, d, base, cells, acc0);
    ScanNeighboursAsList(grid, d, base, acc0);
  }

  /** A dead end at a `-`: travelling left or right with no cell straight
      ahead in the row, or a blank there, the step fails with "no
      direction to follow". */
  lemma {:induction false} RowDeadEnd(path: seq<Loc>, grid: Grid, d: Direction, base: Loc)
    requires InBounds(grid, base) && CharAt(grid, base) == HorizontalConnection
    requires d == Left || d == Right
    requires !InBounds(grid, Ahead(base, d)) || CharAt(grid, Ahead(base, d)) == SpaceCharacter
    ensures OnePathStep(path, grid, d, base) == Err(NoDirectionToFollow)
  {
    var acc0 := Scan(path, Ahead(base, d), []);
    var cells := Neighbourhood(grid, base);
    assert forall i :: 0 <= i < |UpperCell(grid, base)| ==> Passes(grid, d, base, UpperCell(grid, base)[i]);
    assert forall i :: 0 <= i < |BaseRow(grid, base)| ==> Passes(grid, d, base, BaseRow(grid, base)[i]);
    assert forall i :: 0 <= i < |LowerCell(grid, base)| ==> Passes(grid, d, base, LowerCell(grid, base)[i]);
    assert forall i :: 0 <= i < |cells| ==> Passes(grid, d, base, cells[i]);
    ScanPasses(grid, d, base, cells, acc0);
    ScanNeighboursAsList(grid, d, base, acc0);
  }

  /** Crossing at a `|`: travelling up or down, the step walks the run of
      `-` cells straight ahead and appends every crossed cell. When the
      first cell after the run is in the grid (and, when there is no run,
      not blank) the step lands on it. When the run reaches the edge of
      the grid the walk leaves it: off the top the step lands on row -1,
      off the bottom the first crossed cell is chosen again. */
  lemma ColumnCrossing(path: seq<Loc>, grid: Grid, d: Direction, base: Loc, n: nat)
    requires InBounds(grid, base) && CharAt(grid, base) == VerticalConnection
    requires d == Up || d == Down
    requires var run := ColumnRun(Ahead(base, d).row, base.col, d == Down, n);
      forall i :: 0 <= i < n ==> InBounds(grid, run[i]) && CharAt(grid, run[i]) == HorizontalConnection
    requires var land := Loc(if d == Down then base.row + 1 + n else base.row - 1 - n, base.col);
      || (&& InBounds(grid, land)
          && CharAt(grid, land) != HorizontalConnection
          && (n == 0 ==> CharAt(grid, land) != SpaceCharacter))
      || (n > 0 && (land.row == -1 || land.row == |grid|))
    ensures var land := Loc(if d == Down then base.row + 1 + n else base.row - 1 - n, base.col);
      OnePathStep(path, grid, d, base)
      == Ok(path + ColumnRun(Ahead(base, d).row, base.col, d == Down, n)
                 + [if land.row == |grid| then Ahead(base, d) else land])
  {
    var down := d == Down;
    var ahead := Ahead(base, d);
    var run := ColumnRun(ahead.row, base.col, down, n);
    var land := Loc(if down then base.row + 1 + n else base.row - 1 - n, base.col);
    WalkColumnAcross(grid, down, ahead.row, base.col, path, n);
    if n > 0 {
      assert ColumnRun(ahead.row, base.col, down, n)[0] == ahead;
    }
    var acc0 := Scan(path, ahead, []);
    var chosen := if land.row == |grid| then ahead else land;
    assert [] + [chosen] == [chosen];
    assert VisitCell(grid, d, base, ahead, acc0) == Ok(Scan(path + run, chosen, [chosen]));
    ColumnScanLooksAhead(grid, d, base, acc0);
  }

  /** Crossing at a `-`: the mirror of ColumnCrossing for travel left or
      right over a run of `|` cells; off the left edge the step lands on
      column -1, off the right edge the first crossed cell is chosen
      again. */
  lemma RowCrossing(path: seq<Loc>, grid: Grid, d: Direction, base: Loc, n: nat)
    requires InBounds(grid, base) && CharAt(grid, base) == HorizontalConnection
    requires d == Left || d == Right
    requires var run := RowRun(base.row, Ahead(base, d).col, d == Right, n);
      forall i :: 0 <= i < n ==> InBounds(grid, run[i]) && CharAt(grid, run[i]) == VerticalConnection
    requires var land := Loc(base.row, if d == Right then base.col + 1 + n else base.col - 1 - n);
      || (&& InBounds(grid, land)
          && CharAt(grid, land) != VerticalConnection
          && (n == 0 ==> CharAt(grid, land) != SpaceCharacter))
      || (n > 0 && (land.col == -1 || land.col == |grid[base.row]|))
    ensures var land := Loc(base.row, if d == Right then base.col + 1 + n else base.col - 1 - n);
      OnePathStep(path, grid, d, base)
      == Ok(path + RowRun(base.row, Ahead(base, d).col, d == Right, n)
                 + [if land.col == |grid[base.row]| then Ahead(base, d) else land])
  {
    var right := d == Right;
    var ahead := Ahead(base, d);
    var run := RowRun(base.row, ahead.col, right, n);
    var land := Loc(base.row, if right then base.col + 1 + n else base.col - 1 - n);
    WalkRowAcross(grid, right, base.row, ahead.col, path, n);
    if n > 0 {
      assert RowRun(base.row, ahead.col, right, n)[0] == ahead;
    }
    var acc0 := Scan(path, ahead, []);
    var chosen := if land.col == |grid[base.row]| then ahead else land;
    assert [] + [chosen] == [chosen];
    assert VisitCell(grid, d, base, ahead, acc0) == Ok(Scan(path + run, chosen, [chosen]));
    RowScanLooksAhead(grid, d, base, acc0);
  }
}
