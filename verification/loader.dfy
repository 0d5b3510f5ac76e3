/** Grid loading (per-line normalisation) and marker location. */
module Loader {
  import opened Types

  /** Characters a map may hold besides the letters A-Z. */
  predicate IsValidCharacter(c: char) {
    c in {BeginningCharacter, EndingCharacter, SpaceCharacter,
          VerticalConnection, HorizontalConnection, EdgeConnection}
  }

  predicate IsMapCharacter(c: char) {
    IsLetter(c) || IsValidCharacter(c)
  }

  /** A line with every character that is neither a letter nor a valid
      map character replaced by a blank. */
  function Normalized(line: string): (r: string)
    ensures |r| == |line|
  {
    seq(|line|, i requires 0 <= i < |line| => if IsMapCharacter(line[i]) then line[i] else SpaceCharacter)
  }

  /** Normalising a line twice is normalising it once: every character of
      a normalised line is a map character. */
  lemma NormalizedIdempotent(line: string)
    ensures forall i :: 0 <= i < |line| ==> IsMapCharacter(Normalized(line)[i])
    ensures Normalized(Normalized(line)) == Normalized(line)
  {
  }

  /** A line is left unchanged exactly when it holds map characters only;
      otherwise each changed position held a foreign character and now
      holds a blank. */
  lemma NormalizedFixedPoints(line: string)
    ensures Normalized(line) == line <==> forall i :: 0 <= i < |line| ==> IsMapCharacter(line[i])
    ensures forall i :: 0 <= i < |line| && Normalized(line)[i] != line[i] ==>
              Normalized(line)[i] == SpaceCharacter && !IsMapCharacter(line[i])
  {
    if Normalized(line) == line {
      forall i | 0 <= i < |line|
        ensures IsMapCharacter(line[i])
      {
        assert Normalized(line)[i] == line[i];
      }
    }
  }

  /** A marker (any map character but the blank) occurs in a line
      exactly when it occurs in the normalised line. */
  lemma NormalizedKeeps(line: string, c: char)
    requires IsMapCharacter(c) && c != SpaceCharacter
    ensures c in Normalized(line) <==> c in line
  {
    if c in line {
      var j :| 0 <= j < |line| && line[j] == c;
      assert Normalized(line)[j] == c;
    }
    if c in Normalized(line) {
      var j :| 0 <= j < |line| && Normalized(line)[j] == c;
      assert line[j] == c;
    }
  }

  /** Replaces every character that is neither a letter nor a valid map
      character by a blank, in place, one index at a time. */
  method NormalizeLine(line: string) returns (r: string)
    ensures r == Normalized(line)
  {
    r := line;
    var index := 0;
    while index < |r|
      invariant 0 <= index <= |r| == |line|
      invariant forall i :: 0 <= i < index ==> r[i] == Normalized(line)[i]
      invariant r[index..] == line[index..]
    {
      var character := r[index];
      if !IsLetter(character) && !IsValidCharacter(character) {
        r := r[index := SpaceCharacter];
      }
      index := index + 1;
    }
  }

  /** Reads the map: every input line, normalised, in order. */
  method LoadMap(input: seq<string>) returns (grid: Grid)
    ensures |grid| == |input|
    ensures forall i :: 0 <= i < |input| ==> grid[i] == Normalized(input[i])
  {
    grid := [];
    var lineIndex := 0;
    while lineIndex < |input|
      invariant 0 <= lineIndex <= |input| && |grid| == lineIndex
      invariant forall i :: 0 <= i < lineIndex ==> grid[i] == Normalized(input[i])
    {
      var line := NormalizeLine(input[lineIndex]);
      grid := grid + [line];
      lineIndex := lineIndex + 1;
    }
  }

  /** First column of `line` holding `c`, if any. */
  function IndexOf(line: string, c: char): (r: Option<nat>)
    ensures r.Some? ==> r.value < |line| && line[r.value] == c
    ensures r.Some? ==> forall j :: 0 <= j < r.value ==> line[j] != c
    ensures r.None? <==> c !in line
  {
    if |line| == 0 then None
    else if line[0] == c then Some(0)
    else match IndexOf(line[1..], c)
      case None => None
      case Some(k) => Some(k + 1)
  }

  /** The first location of `c` in row-major order; fails with "character
      not found" exactly when no row holds it. */
  method GetLocation(grid: Grid, c: char) returns (r: Result<Loc>)
    ensures r.Ok? ==> InBounds(grid, r.value) && CharAt(grid, r.value) == c
    ensures r.Ok? ==> forall row :: 0 <= row < r.value.row ==> c !in grid[row]
    ensures r.Ok? ==> forall col :: 0 <= col < r.value.col ==> grid[r.value.row][col] != c
    ensures r.Err? <==> forall row :: 0 <= row < |grid| ==> c !in grid[row]
    ensures r.Err? ==> r.error == CharacterNotFound(c)
  {
    var lineIndex := 0;
    while lineIndex < |grid|
      invariant 0 <= lineIndex <= |grid|
      invariant forall row :: 0 <= row < lineIndex ==> c !in grid[row]
    {
      var columnIndex := IndexOf(grid[lineIndex], c);
      if columnIndex.Some? {
        return Ok(Loc(lineIndex, columnIndex.value));
      }
      lineIndex := lineIndex + 1;
    }
    return Err(CharacterNotFound(c));
  }
}
