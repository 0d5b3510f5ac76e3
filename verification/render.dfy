/** The two renderings of a traced path: every character along it, and
    the letters it collects. */
module Render {
  import opened Types

  /** The grid characters under `cells`, in order. */
  function Characters(grid: Grid, cells: seq<Loc>): (s: string)
    requires AllInBounds(grid, cells)
    ensures |s| == |cells|
  {
    seq(|cells|, i requires 0 <= i < |cells| => CharAt(grid, cells[i]))
  }

  /** The letter cells of `path` in path order, each at its first
      occurrence only. */
  function LetterCells(grid: Grid, path: seq<Loc>): (cells: seq<Loc>)
    requires AllInBounds(grid, path)
    ensures |cells| <= |path|
    ensures AllInBounds(grid, cells)
    ensures forall i :: 0 <= i < |cells| ==> IsLetter(CharAt(grid, cells[i]))
  {
    if |path| == 0 then []
    else
      var prefix := path[..|path| - 1];
      var last := path[|path| - 1];
      var earlier := LetterCells(grid, prefix);
      if IsLetter(CharAt(grid, last)) && last !in prefix then earlier + [last] else earlier
  }

  /** A cell is among the letter cells exactly when the path visits it
      and it holds a letter. */
  lemma {:induction false} LetterCellsMembers(grid: Grid, path: seq<Loc>, loc: Loc)
    requires AllInBounds(grid, path)
    ensures loc in LetterCells(grid, path) <==> loc in path && IsLetter(CharAt(grid, loc))
  {
    if |path| > 0 {
      var prefix := path[..|path| - 1];
      LetterCellsMembers(grid, prefix, loc);
      assert path == prefix + [path[|path| - 1]];
    }
  }

  /** No cell is listed twice. */
  lemma {:induction false} LetterCellsDistinct(grid: Grid, path: seq<Loc>)
    requires AllInBounds(grid, path)
    ensures var cells := LetterCells(grid, path);
      forall i, j :: 0 <= i < j < |cells| ==> cells[i] != cells[j]
  {
    if |path| > 0 {
      var prefix := path[..|path| - 1];
      var last := path[|path| - 1];
      LetterCellsDistinct(grid, prefix);
      LetterCellsMembers(grid, prefix, last);
    }
  }

  /** The letter cells of a prefix of the path are a prefix of its letter
      cells: cells are listed in the order the path first reaches them. */
  lemma {:induction false} LetterCellsPrefix(grid: Grid, path: seq<Loc>, k: nat)
    requires AllInBounds(grid, path) && k <= |path|
    ensures var cells := LetterCells(grid, path);
      var early := LetterCells(grid, path[..k]);
      |early| <= |cells| && cells[..|early|] == early
    decreases |path| - k
  {
    if k < |path| {
      LetterCellsPrefix(grid, path, k + 1);
      var early := LetterCells(grid, path[..k]);
      var next := LetterCells(grid, path[..k + 1]);
      assert path[..k + 1][..k] == path[..k];
      assert |early| <= |next| && next[..|early|] == early;
      var cells := LetterCells(grid, path);
      assert cells[..|early|] == cells[..|next|][..|early|];
    } else {
      assert path[..k] == path;
    }
  }

  /** One character per path entry: the character under that cell. Reading
      a cell outside the grid is an index panic. */
  method PathAsCharacters(grid: Grid, path: seq<Loc>) returns (r: Result<string>)
    ensures r.Ok? <==> AllInBounds(grid, path)
    ensures r.Ok? ==> |r.value| == |path|
    ensures r.Ok? ==> forall i :: 0 <= i < |path| ==> r.value[i] == CharAt(grid, path[i])
    ensures r.Err? ==> r.error.IndexOutOfRange? && r.error.at in path && !InBounds(grid, r.error.at)
  {
    var characters := "";
    var index := 0;
    while index < |path|
      invariant 0 <= index <= |path|
      invariant forall i :: 0 <= i < index ==> InBounds(grid, path[i])
      invariant |characters| == index
      invariant forall i :: 0 <= i < index ==> characters[i] == CharAt(grid, path[i])
    {
      var location := path[index];
      if !InBounds(grid, location) {
        return Err(IndexOutOfRange(location));
      }
      characters := characters + [grid[location.row][location.col]];
      index := index + 1;
    }
    return Ok(characters);
  }

  /** The letters along the path, each letter cell only the first time
      the path reaches it. Reading a cell outside the grid is an index
      panic. */
  method PathAsLetters(grid: Grid, path: seq<Loc>) returns (r: Result<string>)
    ensures r.Ok? <==> AllInBounds(grid, path)
    ensures r.Ok? ==> r.value == Characters(grid, LetterCells(grid, path))
    ensures r.Ok? ==> |r.value| <= |path| && forall i :: 0 <= i < |r.value| ==> IsLetter(r.value[i])
    ensures r.Err? ==> r.error.IndexOutOfRange? && r.error.at in path && !InBounds(grid, r.error.at)
  {
    var letters := "";
    var letterPath: seq<Loc> := [];
    var index := 0;
    while index < |path|
      invariant 0 <= index <= |path|
      invariant forall i :: 0 <= i < index ==> InBounds(grid, path[i])
      invariant AllInBounds(grid, path[..index])
      invariant letterPath == LetterCells(grid, path[..index])
      invariant letters == Characters(grid, letterPath)
    {
      var location := path[index];
      if !InBounds(grid, location) {
        return Err(IndexOutOfRange(location));
      }
      var character := grid[location.row][location.col];
      LetterCellsMembers(grid, path[..index], location);
      assert path[..index + 1][..index] == path[..index];
      if IsLetter(character) && !Contains(letterPath, location) {
        letters := letters + [character];
        letterPath := letterPath + [location];
      }
      index := index + 1;
    }
    assert path[..index] == path;
    return Ok(letters);
  }
}
