/** The program's flow without its input and output: load the map, find
    the start and end markers, follow the path, render it both ways. */
module App {
  import opened Types
  import Loader
  import Tracer
  import Render

  /** What the program prints: the collected letters and the path as
      characters. */
  datatype Report = Report(letters: string, characters: string)

  /** The map the program reads from `input`: every line normalised. */
  function Loaded(input: seq<string>): Grid {
    seq(|input|, i requires 0 <= i < |input| => Loader.Normalized(input[i]))
  }

  /** `loc` is the first cell of `grid` holding `c` in row-major order. */
  predicate FirstOccurrence(grid: Grid, c: char, loc: Loc) {
    && InBounds(grid, loc) && CharAt(grid, loc) == c
    && (forall row :: 0 <= row < loc.row ==> c !in grid[row])
    && (forall col :: 0 <= col < loc.col ==> grid[loc.row][col] != c)
  }

  /** There is at most one first occurrence, so the markers the program
      finds are determined by the map. */
  lemma FirstOccurrenceUnique(grid: Grid, c: char, a: Loc, b: Loc)
    requires FirstOccurrence(grid, c, a) && FirstOccurrence(grid, c, b)
    ensures a == b
  {
    assert c in grid[a.row] && c in grid[b.row];
  }

  /** `report` renders `path`: the characters under every path cell, and
      the letters under its letter cells in first-visit order. */
  predicate Reports(grid: Grid, path: seq<Loc>, report: Report) {
    && AllInBounds(grid, path)
    && report.characters == Render.Characters(grid, path)
    && report.letters == Render.Characters(grid, Render.LetterCells(grid, path))
  }

  /** The report of a path from `@` to `x` has characters running from
      `@` to `x`, and its letters are letters only. */
  lemma ReportShape(grid: Grid, path: seq<Loc>, report: Report)
    requires |path| > 0 && Reports(grid, path, report)
    requires CharAt(grid, path[0]) == BeginningCharacter
    requires CharAt(grid, path[|path| - 1]) == EndingCharacter
    ensures |report.characters| > 0
    ensures report.characters[0] == BeginningCharacter
    ensures report.characters[|report.characters| - 1] == EndingCharacter
    ensures |report.letters| <= |report.characters|
    ensures forall i :: 0 <= i < |report.letters| ==> IsLetter(report.letters[i])
  {
    var cells := Render.LetterCells(grid, path);
    forall i | 0 <= i < |report.letters|
      ensures IsLetter(report.letters[i])
    {
      assert report.letters[i] == CharAt(grid, cells[i]);
    }
  }

  /** Renders a path inside the grid both ways; neither rendering fails. */
  method RenderPath(grid: Grid, path: seq<Loc>) returns (report: Report)
    requires AllInBounds(grid, path)
    ensures Reports(grid, path, report)
  {
    var letters := Render.PathAsLetters(grid, path);
    var characters := Render.PathAsCharacters(grid, path);
    assert characters.value == Render.Characters(grid, path);
    report := Report(letters.value, characters.value);
  }

  /** Loads the map from the raw input lines and finds the start and the
      end marker, the start first, each at its first occurrence. */
  method LocateMarkers(input: seq<string>) returns (grid: Grid, r: Result<(Loc, Loc)>)
    ensures grid == Loaded(input)
    ensures |grid| == |input|
    ensures forall i :: 0 <= i < |input| ==> grid[i] == Loader.Normalized(input[i])
    ensures r == Err(CharacterNotFound(BeginningCharacter)) <==>
              forall i :: 0 <= i < |input| ==> BeginningCharacter !in input[i]
    ensures r == Err(CharacterNotFound(EndingCharacter)) <==>
              && (exists i :: 0 <= i < |input| && BeginningCharacter in input[i])
              && forall i :: 0 <= i < |input| ==> EndingCharacter !in input[i]
    ensures r.Err? ==> r.error in {CharacterNotFound(BeginningCharacter), CharacterNotFound(EndingCharacter)}
    ensures r.Ok? ==> InBounds(grid, r.value.0) && CharAt(grid, r.value.0) == BeginningCharacter
    ensures r.Ok? ==> InBounds(grid, r.value.1) && CharAt(grid, r.value.1) == EndingCharacter
    ensures r.Ok? ==> FirstOccurrence(grid, BeginningCharacter, r.value.0)
    ensures r.Ok? ==> FirstOccurrence(grid, EndingCharacter, r.value.1)
  {
    grid := Loader.LoadMap(input);
    assert grid == Loaded(input);
    forall i | 0 <= i < |input|
      ensures BeginningCharacter in grid[i] <==> BeginningCharacter in input[i]
      ensures EndingCharacter in grid[i] <==> EndingCharacter in input[i]
    {
      Loader.NormalizedKeeps(input[i], BeginningCharacter);
      Loader.NormalizedKeeps(input[i], EndingCharacter);
    }
    var start := Loader.GetLocation(grid, BeginningCharacter);
    if start.Err? {
      return grid, Err(start.error);
    }
    var end := Loader.GetLocation(grid, EndingCharacter);
    if end.Err? {
      assert BeginningCharacter in grid[start.value.row];
      return grid, Err(end.error);
    }
    return grid, Ok((start.value, end.value));
  }

  /** Runs the whole tracer on the raw input lines, within `fuel` loop
      iterations. A missing marker fails before any tracing; once both are
      found, only tracing can fail, and the renderers never do. */
  method TraceMap(input: seq<string>, fuel: nat) returns (r: Result<Report>)
    ensures r.Err? && r.error.CharacterNotFound? ==>
              forall i :: 0 <= i < |input| ==> r.error.character !in input[i]
    ensures r.Err? && !r.error.CharacterNotFound? ==> TraceError(r.error)
    ensures r.Ok? ==> |r.value.characters| > 0
    ensures r.Ok? ==> r.value.characters[0] == BeginningCharacter
    ensures r.Ok? ==> r.value.characters[|r.value.characters| - 1] == EndingCharacter
    ensures r.Ok? ==> |r.value.letters| <= |r.value.characters|
    ensures r.Ok? ==> forall i :: 0 <= i < |r.value.letters| ==> IsLetter(r.value.letters[i])
    ensures r.Ok? ==> exists start: Loc, end: Loc ::
              && FirstOccurrence(Loaded(input), BeginningCharacter, start)
              && FirstOccurrence(Loaded(input), EndingCharacter, end)
              && Tracer.FollowPath(Loaded(input), start, end, fuel).Ok?
              && Reports(Loaded(input), Tracer.FollowPath(Loaded(input), start, end, fuel).value, r.value)
    ensures r.Err? && !r.error.CharacterNotFound? ==> exists start: Loc, end: Loc ::
              && FirstOccurrence(Loaded(input), BeginningCharacter, start)
              && FirstOccurrence(Loaded(input), EndingCharacter, end)
              && Tracer.FollowPath(Loaded(input), start, end, fuel) == Err(r.error)
  {
    var grid, markers := LocateMarkers(input);
    if markers.Err? {
      return Err(markers.error);
    }
    var start, end := markers.value.0, markers.value.1;
    r := TraceBetween(grid, start, end, fuel);
    if r.Ok? {
      assert Reports(Loaded(input), Tracer.FollowPath(Loaded(input), start, end, fuel).value, r.value);
    } else {
      assert Tracer.FollowPath(Loaded(input), start, end, fuel) == Err(r.error);
    }
  }

  /** Follows the path between two marker cells and renders it; a traced
      path lies inside the grid, so rendering it cannot fail. */
  method TraceBetween(grid: Grid, start: Loc, end: Loc, fuel: nat) returns (r: Result<Report>)
    requires InBounds(grid, start) && CharAt(grid, start) == BeginningCharacter
    requires InBounds(grid, end) && CharAt(grid, end) == EndingCharacter
    ensures r.Ok? <==> Tracer.FollowPath(grid, start, end, fuel).Ok?
    ensures r.Err? ==> r.error == Tracer.FollowPath(grid, start, end, fuel).error && TraceError(r.error)
    ensures r.Ok? ==> |r.value.characters| > 0
    ensures r.Ok? ==> r.value.characters[0] == BeginningCharacter
    ensures r.Ok? ==> r.value.characters[|r.value.characters| - 1] == EndingCharacter
    ensures r.Ok? ==> |r.value.letters| <= |r.value.characters|
    ensures r.Ok? ==> forall i :: 0 <= i < |r.value.letters| ==> IsLetter(r.value.letters[i])
    ensures r.Ok? ==> Reports(grid, Tracer.FollowPath(grid, start, end, fuel).value, r.value)
  {
    var path := Tracer.FollowPath(grid, start, end, fuel);
    if path.Err? {
      return Err(path.error);
    }
    Tracer.FollowPathInBounds(grid, start, end, fuel);
    var report := RenderPath(grid, path.value);
    ReportShape(grid, path.value, report);
    r := Ok(report);
  }
}
