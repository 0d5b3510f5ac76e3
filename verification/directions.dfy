/** Travel directions and their (row, column) unit vectors. */
module Directions {
  import opened Types

  /** NoDirection is the state before the first step. */
  datatype Direction = NoDirection | Up | Right | Down | Left

  /** A signed (row, column) displacement. */
  datatype Delta = Delta(v: int, h: int)

  function Sign(x: int): int {
    if x > 0 then 1 else if x < 0 then -1 else 0
  }

  /** The displacement one step in `d` makes; NoDirection does not move. */
  function Diffs(d: Direction): (delta: Delta)
    ensures d == NoDirection <==> delta == Delta(0, 0)
    ensures d != NoDirection ==> (delta.v == 0) != (delta.h == 0)
    ensures -1 <= delta.v <= 1 && -1 <= delta.h <= 1
    ensures d in {Up, Down} <==> delta.v != 0
    ensures d in {Left, Right} <==> delta.h != 0
  {
    match d
    case Right => Delta(0, 1)
    case Down => Delta(1, 0)
    case Left => Delta(0, -1)
    case Up => Delta(-1, 0)
    case NoDirection => Delta(0, 0)
  }

  /** The direction of a move from its row and column differences. A column
      change takes precedence over a row change; no change at all is the
      fatal "invalid path direction". */
  function NextDirection(vDiff: int, hDiff: int): (r: Result<Direction>)
    ensures r.Err? <==> vDiff == 0 && hDiff == 0
    ensures r.Err? ==> r.error == InvalidPathDirection
    ensures r.Ok? ==> r.value != NoDirection
    ensures hDiff != 0 ==> r.Ok? && Diffs(r.value) == Delta(0, Sign(hDiff))
    ensures hDiff == 0 && vDiff != 0 ==> r.Ok? && Diffs(r.value) == Delta(Sign(vDiff), 0)
  {
    if hDiff > 0 then Ok(Right)
    else if hDiff < 0 then Ok(Left)
    else if vDiff > 0 then Ok(Down)
    else if vDiff < 0 then Ok(Up)
    else Err(InvalidPathDirection)
  }

  /** Every real direction survives the trip to its vector and back. */
  lemma DirectionRoundTrip(d: Direction)
    requires d != NoDirection
    ensures NextDirection(Diffs(d).v, Diffs(d).h) == Ok(d)
  {
    match d
    case Up =>
    case Down =>
    case Left =>
    case Right =>
  }

  /** Every unit orthogonal vector survives the trip to a direction and back. */
  lemma DeltaRoundTrip(vDiff: int, hDiff: int)
    requires (vDiff == 0 && (hDiff == 1 || hDiff == -1)) || (hDiff == 0 && (vDiff == 1 || vDiff == -1))
    ensures NextDirection(vDiff, hDiff).Ok?
    ensures Diffs(NextDirection(vDiff, hDiff).value) == Delta(vDiff, hDiff)
  {
  }
}
