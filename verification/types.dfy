/** Shared vocabulary of the path follower: the grid, cell locations, the
    characters a map may hold, and the fatal conditions of a trace. */
module Types {

  /** Conventional Some/None, standing in for the program's `*int` results. */
  datatype Option<+T> = None | Some(value: T)

  /** Every fatal condition the tracer can raise. The first four are the
      source's explicit panics; IndexOutOfRange is the runtime panic of an
      out-of-range string index; OutOfFuel bounds the otherwise unbounded
      driver loop of the model. */
  datatype Error =
    | CharacterNotFound(character: char)
    | NoDirectionToFollow
    | InvalidPathDirection
    | InfinitePath
    | IndexOutOfRange(at: Loc)
    | OutOfFuel

  datatype Result<+T> = Ok(value: T) | Err(error: Error)

  /** A map: rows of independent length, indexed (row, column) from zero. */
  type Grid = seq<seq<char>>

  /** A cell location. Components are integers because the crossing-chain
      walk can produce a row or column of -1. */
  datatype Loc = Loc(row: int, col: int)

  const BeginningCharacter: char := '@'
  const EndingCharacter: char := 'x'
  const SpaceCharacter: char := ' '
  const VerticalConnection: char := '|'
  const HorizontalConnection: char := '-'
  const EdgeConnection: char := '+'

  /** The letters a path collects; no marker, connector or blank is one
      (the end marker is a lower-case `x`). */
  predicate IsLetter(c: char)
    ensures IsLetter(c) ==> c !in {BeginningCharacter, EndingCharacter, SpaceCharacter,
                                    VerticalConnection, HorizontalConnection, EdgeConnection}
  {
    'A' <= c <= 'Z'
  }

  predicate InBounds(grid: Grid, loc: Loc) {
    0 <= loc.row < |grid| && 0 <= loc.col < |grid[loc.row]|
  }

  function CharAt(grid: Grid, loc: Loc): char
    requires InBounds(grid, loc)
  {
    grid[loc.row][loc.col]
  }

  predicate AllInBounds(grid: Grid, path: seq<Loc>) {
    forall i :: 0 <= i < |path| ==> InBounds(grid, path[i])
  }

  /** The errors tracing can end with, once both markers are found. */
  predicate TraceError(e: Error) {
    e.IndexOutOfRange? || e in {NoDirectionToFollow, InvalidPathDirection, InfinitePath, OutOfFuel}
  }

  /** Whether `loc` occurs anywhere in `path`, by a front-to-back scan. */
  function Contains(path: seq<Loc>, loc: Loc): (b: bool)
    ensures b <==> loc in path
  {
    if |path| == 0 then false
    else path[0] == loc || Contains(path[1..], loc)
  }

  /** The smaller of two integers. */
  function Min(x: int, y: int): (r: int)
    ensures r <= x && r <= y
    ensures r == x || r == y
  {
    if x > y then y else x
  }

  /** The larger of two integers. */
  function Max(x: int, y: int): (r: int)
    ensures r >= x && r >= y
    ensures r == x || r == y
  {
    if x < y then y else x
  }
}
