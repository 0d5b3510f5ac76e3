# followpath in Dafny

A model of the ASCII path follower in `followpath.go`. A map is a list of
text lines made of the start marker `@`, the end marker `x`, the
connectors `|`, `-` and `+`, blanks, and the letters `A`–`Z`. The follower
starts on `@` and takes one orthogonal step at a time until it stands on
`x`. It prints two things: the letters it collected, and the path as
characters.

The model follows the source's structure:

- `Types` holds the shared vocabulary. This covers the grid (`seq<seq<char>>`),
  cell locations, the marker and connector characters, and `isLetter`,
  `contains`, `min` and `max`. It also holds one `Error` value per fatal
  condition. The source's four `panic`s each get a value: character not
  found, no direction to follow, invalid path direction, infinite path.
  A Go runtime index panic becomes `IndexOutOfRange`. The bounded driver
  loop adds `OutOfFuel`.
- `Directions` models `diffs` and `nextDirection`.
- `Loader` models the per-line normalisation of `MapFromFileAsLines` and
  the marker search `GetLocation`.
- `Step` models `onePathStep`. Its two nested loops become two folds, and
  the crossing-chain loops become `WalkColumn` and `WalkRow`. The final
  choice is `Choose`.
- `StepFacts` states what one step does in terms of definitions that do
  not follow its loops. These are the clipped orthogonal neighbourhood,
  an admissibility predicate for cells beside a non-connector, and the
  chain shape of the path a connector cell produces.
- `Tracer` models `FollowPath`, `firstPathIndex` and `adjacent`. One loop
  iteration is `Advance`. The loop is `Run`, bounded by a fuel argument.
  Both are written over an abstract step function and proved once. The
  concrete step instantiates them in `OneStep` and `Iteration`.
- `Render` models `PathAsCharacters` and `PathAsLetters`.
- `App` models the flow of `main.go` without its input and output: load
  the map, find both markers, follow the path, render it both ways.
- `Hazards` contains lemmas about behaviours of the step as written.
  Each holds on every grid that has the few cells it needs:
  - Travelling up over a `-` in the first row chooses a cell at row -1.
    The next iteration is then an index panic. More generally, a crossing
    run that reaches the top or left edge lands on row or column -1. One
    that reaches the bottom or right edge chooses the first crossed cell
    again, so that cell is on the path twice (`StepFacts.ColumnCrossing`,
    `StepFacts.RowCrossing`).
  - Travelling up or down on a `|` across a run of `-` cells onto a row
    too short for the column is an index panic on that row.
  - A `|` may be reached sideways, or FollowPath may be called on it, so
    the travel direction is neither up nor down. A `-` below it is then
    walked upwards, back onto the base, and the `-` is appended to the
    path. When no non-blank cell lies above the base (in the first row,
    or with a blank above), the base itself is chosen and the loop stops
    with "invalid path direction". When the cell above is neither blank
    nor `-`, the step chooses it instead, and the crossed `-` stays on
    the path.
  - The mirror holds for a `-` reached vertically, or called on, with a
    `|` on its right: the `|` is walked leftwards onto the base. With no
    non-blank cell on the left, the base is chosen and the loop stops
    with "invalid path direction". With a cell on the left that is
    neither blank nor `|`, that cell is chosen and the `|` stays on the
    path.

The model keeps these behaviours as they are written, as error results.
It does not add preconditions that would hide them.

## Model

| member | source | states |
|---|---|---|
| Types.IsLetter | followpath.go:141-143 | no marker, connector or blank counts as a letter; in particular the lower-case end marker does not |
| Types.Contains | followpath.go:318-325 | the front-to-back scan is true exactly when the location occurs in the path |
| Types.Min | followpath.go:153-159 | the result is one of the arguments and no larger than either |
| Types.Max | followpath.go:145-151 | the result is one of the arguments and no smaller than either |
| Directions.Diffs | followpath.go:177-198 | `none` is the zero vector; every other direction is a unit vector along exactly one axis; up/down move rows only, left/right move columns only |
| Directions.NextDirection | followpath.go:162-174 | fails with "invalid path direction" exactly on (0, 0); a non-zero column difference decides left/right whatever the row difference; otherwise the sign of the row difference decides up/down |
| Directions.DirectionRoundTrip | followpath.go:162-198 | every direction other than `none` survives the trip to its vector and back |
| Directions.DeltaRoundTrip | followpath.go:162-198 | every unit orthogonal vector survives the trip to a direction and back |
| Loader.Normalized | followpath.go:48-55 | normalisation keeps the line's length |
| Loader.NormalizedIdempotent | followpath.go:41-55 | every character of a normalised line is a letter or a valid map character, so normalising twice equals normalising once |
| Loader.NormalizedFixedPoints | followpath.go:49-54 | a line is unchanged exactly when it holds map characters only; any changed position held a foreign character and now holds a blank |
| Loader.NormalizedKeeps | followpath.go:49-54 | a non-blank map character occurs in the normalised line exactly when it occurs in the raw line |
| Loader.NormalizeLine | followpath.go:48-55 | the in-place loop replaces every foreign character by a blank and leaves the rest alone |
| Loader.LoadMap | followpath.go:37-58 | the map has one normalised row per input line, in order |
| Loader.IndexOf | followpath.go:63 | the first column holding the character, and none exactly when the line lacks it |
| Loader.GetLocation | followpath.go:61-69 | the found cell holds the character; no earlier row and no earlier column of its row holds it; fails with "character not found" exactly when no row holds it |
| Step.ColumnRange | followpath.go:213-222 | every examined column lies inside its row; on the base row it is at most one column from the base, and on any other row it is the base column |
| Step.WalkColumn | followpath.go:242-254 | the column walk never shortens the path and fails only with an index panic; where it stops is stated by Step.WalkColumnEnds |
| Step.WalkRow | followpath.go:266-278 | the row walk never shortens the path; where it stops is stated by Step.WalkRowEnds |
| Step.VisitCell | followpath.go:225-300 | examining one cell fails only with an index panic; what it adds is stated by StepFacts.VisitPlain and StepFacts.VisitConnector |
| Step.ScanColumns | followpath.go:224-301 | the inner loop fails only with an index panic |
| Step.ScanLines | followpath.go:210-302 | the outer loop fails only with an index panic |
| Step.ScanNeighbours | followpath.go:208-302 | the whole neighbour scan fails only with an index panic; the cells it examines are stated by StepFacts.ScanOrderIsNeighbourhood |
| Step.Choose | followpath.go:303-314 | the step fails with "no direction to follow" exactly when there is no candidate; otherwise it appends one candidate: the preferred cell when it is a candidate other than the base, else the first candidate |
| Step.OnePathStep | followpath.go:201-315 | a step fails only with an index panic or "no direction to follow"; its result is stated by the StepFacts lemmas |
| Step.WalkColumnShort | followpath.go:243-253 | a column walk over a run of in-grid `-` cells whose next row is in the grid but too short for the column is an index panic on that row's cell |
| Step.WalkColumnAcross | followpath.go:243-254 | a column walk over a run of in-grid `-` cells appends exactly that run and stops on the row after it, when that row holds another character in the column or is the first row off the grid |
| Step.WalkRowAcross | followpath.go:267-278 | the mirror for a row walk over a run of vertical-bar cells, stopping on another character or on the first column off the row |
| Step.WalkColumnEnds | followpath.go:242-259 | a column walk moves one row per `-` cell it appends; it stops on the row just off the grid or on the first non-`-` cell; it fails only reading a row too short for the column |
| Step.WalkRowEnds | followpath.go:266-283 | a row walk moves one column per vertical-bar cell it appends and stops just off the row or on the first non-vertical-bar cell |
| Step.WalkColumnChain | followpath.go:243-254 | a column walk appends in-grid `-` cells of its own column only |
| Step.WalkRowChain | followpath.go:267-278 | a row walk appends in-grid vertical-bar cells of its own row only |
| StepFacts.ScanOrderIsNeighbourhood | followpath.go:210-224 | the nested loops examine exactly the base and its clipped orthogonal neighbours, in the order up, left, base, right, down |
| StepFacts.NeighbourhoodExact | followpath.go:210-224 | those cells are inside the grid and are the base or orthogonal to it; every in-grid orthogonal neighbour is among them |
| StepFacts.ScanNeighboursAsList | followpath.go:210-302 | the scan is a left-to-right fold over that neighbourhood |
| StepFacts.ScanCellsAppend | followpath.go:224-301 | folding over two lists in turn is folding over their concatenation, and a panic stops the fold |
| StepFacts.AdmittedMembers | followpath.go:225-238 | a cell is admitted exactly when it is examined and admissible |
| StepFacts.VisitPlain | followpath.go:288-299 | beside a non-connector, a cell is added as a candidate exactly when it is admissible: not the base, not behind, not blank, no vertical bar in the base row, no `-` in the base column; the path is untouched |
| StepFacts.ScanPlain | followpath.go:224-301 | beside a non-connector, the scan never fails and yields the admissible cells in scan order |
| StepFacts.PlainStep | followpath.go:303-314 | from a non-connector the step takes the cell straight ahead when there is a direction and that cell is a candidate, else the first candidate, and fails with "no direction to follow" when there is none |
| StepFacts.PlainStepTarget | followpath.go:288-299 | from a non-connector the chosen cell is an in-grid orthogonal neighbour: not behind, not blank, not a vertical bar beside nor a `-` above or below; nothing else is appended |
| StepFacts.VisitConnector | followpath.go:239-286 | on a connector, visiting one cell keeps the path a chain of crossed cells on the base's column (for a vertical bar) or row (for `-`), and keeps every candidate on that line; its only failure is an index panic |
| StepFacts.ScanConnector | followpath.go:224-301 | the same holds over any list of examined cells |
| StepFacts.ConnectorStep | followpath.go:239-314 | from a vertical bar every appended cell before the chosen one is an in-grid `-` of the base column, and the chosen cell is in that column; the mirror holds for `-` |
| StepFacts.ScanPasses | followpath.go:224-265 | cells that are the base, the cell behind, blank, or off a connector's line leave the scan unchanged |
| StepFacts.ScanSingle | followpath.go:224-301 | when every examined cell but one is passed over, the scan is the visit of that one cell |
| StepFacts.ColumnScanLooksAhead | followpath.go:225-241 | travelling up or down on a vertical bar, the scan looks only at the cell straight ahead |
| StepFacts.RowScanLooksAhead | followpath.go:225-265 | travelling left or right on a `-`, the scan looks only at the cell straight ahead |
| StepFacts.RowNeighbourhoodAround | followpath.go:210-224 | around a `-` travelled along, the examined cells are the cell ahead plus cells that are passed over |
| StepFacts.ColumnCrossing | followpath.go:239-314 | travelling up or down on a vertical bar across a run of `n` in-grid `-` cells, the step appends the run in travel order. It then lands on the first cell after the run when that cell is in the grid (with no run, it must not be blank). When the run reaches the top edge it lands on row -1; when it reaches the bottom edge it chooses the first crossed cell again |
| StepFacts.RowCrossing | followpath.go:263-314 | the mirror for travelling left or right on a `-` across a run of vertical-bar cells: off the left edge it lands on column -1, off the right edge it chooses the first crossed cell again |
| StepFacts.ColumnDeadEnd | followpath.go:208-312 | travelling up or down on a vertical bar, when the cell straight ahead is blank, off the grid, or on a row too short for the column, no cell is a candidate and the step fails with "no direction to follow" |
| StepFacts.RowDeadEnd | followpath.go:208-312 | travelling left or right on a `-`, when the cell straight ahead is blank or off the row, the step fails with "no direction to follow" |
| StepFacts.StepExtends | followpath.go:201-315 | a successful step starts from an in-grid base and strictly extends the path, and every appended cell before the chosen one is in the grid; a step fails only with an index panic or "no direction to follow" |
| Tracer.FirstPathIndex | followpath.go:100-107 | the least index holding the location, and none exactly when the path does not contain it |
| Tracer.Adjacent | followpath.go:110-116 | true only when both indices are present, and then exactly when they differ by one |
| Tracer.AdjacentSymmetric | followpath.go:110-116 | adjacency is symmetric and never holds between an index and itself |
| Tracer.Initial | followpath.go:73-76 | the initial state is consistent: its path is non-empty and ends with its current cell |
| Tracer.Advance | followpath.go:81-95 | an iteration strictly extends the path with what the step returned and moves to a different cell; the new direction is the one `nextDirection` gives for the move; it records the new cell's first index. It fails with "infinite path" exactly when the old and new first indices are adjacent. When they are not, it fails with "invalid path direction" exactly when the step ended on the current cell. A failing step's error is passed on unchanged |
| Tracer.Run | followpath.go:77-97 | the loop result extends the path so far and ends with the end cell; standing on the end cell returns the path at once |
| Tracer.Iterate | followpath.go:78-96 | `k` loop iterations from a consistent state, without the end test, give a consistent state whose path keeps the old one as a prefix and has at least `k` more cells |
| Tracer.RunArrives | followpath.go:77-97 | a returned path is the path of the first iterate that stands on the end cell, reached within the fuel; no earlier iterate stands on it |
| Tracer.ArrivalRuns | followpath.go:77-97 | conversely, when the `k`-th iterate is the first on the end cell and `k` is within the fuel, the loop returns its path |
| Tracer.RunStops | followpath.go:77-97 | a failing loop stopped at an iterate that is not on the end cell, with none before it on the end cell either; either the fuel ran out there, or that iterate's iteration failed and the loop returns its error |
| Tracer.OneStepExtending | followpath.go:201-315 | the concrete step extends the path and keeps it inside the grid before the chosen cell |
| Tracer.Iteration | followpath.go:81-95 | the concrete iteration keeps the state consistent, extends the path, and fails only with a tracing error |
| Tracer.IterationErrors | followpath.go:81-94 | a failing iteration fails with an index panic, "no direction to follow", "infinite path" or "invalid path direction" |
| Tracer.RunErrors | followpath.go:77-96 | the loop fails only with an iteration's error or by running out of fuel |
| Tracer.FollowPath | followpath.go:72-98 | a returned path starts with the start cell and ends with the end cell; start equal to end gives just the start; a failure is a tracing error |
| Tracer.Trace | followpath.go:72-96 | the follower's state after `k` iterations from the start cell is consistent; its path begins with the start cell and holds more than `k` cells; every path cell before the current one is in the grid, and the recorded index is the current cell's first index in the path before it |
| Tracer.IterationRecorded | followpath.go:84-95 | every successful iteration of the follower records the first index its new current cell had in the path before it |
| Tracer.IterateKeeps | followpath.go:78-96 | a property of states that every successful iteration keeps holds after any number of iterations |
| Tracer.FollowPathArrives | followpath.go:72-98 | a traced path is the path of the first state on the end cell, reached from the start cell by repeated iterations of the path follower within the fuel |
| Tracer.FollowPathFirstArrival | followpath.go:72-98 | conversely, that first arrival within the fuel is what the trace returns |
| Tracer.AdvanceSettled | followpath.go:81-95 | an iteration keeps every path cell before the current one inside the grid |
| Tracer.RunInBounds | followpath.go:77-97 | with the end cell inside the grid, a returned path lies wholly inside it |
| Tracer.FollowPathInBounds | followpath.go:72-98 | a traced path between in-grid markers lies wholly inside the grid |
| Tracer.RunFuelMonotone | followpath.go:77-96 | more fuel never changes an outcome other than running out of fuel |
| Tracer.FollowPathFuelMonotone | followpath.go:72-98 | the same for the whole trace |
| Render.Characters | followpath.go:133-139 | one character per listed cell |
| Render.LetterCells | followpath.go:119-130 | the letter cells of a path, no more of them than path entries, each inside the grid and holding a letter |
| Render.LetterCellsMembers | followpath.go:122-127 | a cell is listed exactly when the path visits it and it holds a letter |
| Render.LetterCellsDistinct | followpath.go:124-126 | no cell is listed twice |
| Render.LetterCellsPrefix | followpath.go:122-127 | the letter cells of a path prefix are a prefix of the path's letter cells, so cells are listed in first-visit order |
| Render.PathAsCharacters | followpath.go:133-139 | entry i is the character under path cell i; it fails, with an index panic on a path cell outside the grid, exactly when some cell is outside |
| Render.PathAsLetters | followpath.go:119-130 | the characters under the path's letter cells, in first-visit order with repeats dropped, so only letters; it fails with an index panic exactly when some cell is outside the grid |
| App.FirstOccurrenceUnique | followpath.go:61-69 | a character has at most one first row-major occurrence, so the markers found are determined by the map |
| App.ReportShape | main.go:8-13 | a report of the trace between the two markers has characters running from `@` to `x`, no more letters than characters, and letters only |
| App.RenderPath | main.go:12-13 | a path inside the grid renders without failing: the characters under every path cell, and the letters under its letter cells in first-visit order |
| App.LocateMarkers | main.go:6-9 | the grid is the input with every line normalised. It fails with "character not found" for `@` exactly when no input line holds it, and for `x` exactly when some line holds `@` and none holds `x`. Otherwise the two cells are the first row-major occurrences of `@` and of `x` |
| App.TraceBetween | main.go:11-13 | the report exists exactly when the trace succeeds, and a failure is the trace's error. The report's characters are the characters under the traced path, and its letters are the characters under the path's letter cells in first-visit order |
| App.TraceMap | main.go:5-14 | a missing marker is missing from every input line. Otherwise the report, or the tracing error, is that of the trace between the first `@` and the first `x` of the normalised input; the characters run from `@` to `x` and the letters are letters only |
| Hazards.SkipColumns | followpath.go:224-241 | on a vertical bar base, cells that are the base, behind, or off the base column leave the scan unchanged |
| Hazards.WalkOffTop | followpath.go:243-259 | travelling up from a vertical bar in row 1 under a `-` in row 0, the step appends the `-` and chooses the cell at row -1 |
| Hazards.WalkOffTopAdvance | followpath.go:81-95 | the loop then makes that off-grid cell its current cell |
| Hazards.WalkOffTopPanics | followpath.go:202 | and the iteration after that is an index panic on row -1 |
| Hazards.ShortRowPanics | followpath.go:239-253 | travelling up or down on a vertical bar in any row across a run of `n > 0` in-grid `-` cells onto a row shorter than the column is an index panic on that row's cell |
| Hazards.FallbackChoosesBase | followpath.go:239-314 | on a vertical bar with a `-` below and no non-blank cell above (the first row, or a blank above), a direction other than up or down walks the chain upwards back onto the base, which is chosen |
| Hazards.FallbackAround | followpath.go:210-241 | in that case every examined cell before the `-` below is passed over |
| Hazards.FallbackReturns | followpath.go:245-261 | the visit of the `-` below a vertical bar reached sideways appends it and makes the base a candidate |
| Hazards.OnlyBaseChosen | followpath.go:303-314 | with the base as the only candidate, the base is chosen |
| Hazards.RowFallbackChoosesBase | followpath.go:263-314 | on a `-` with a vertical bar on its right and no non-blank cell on its left, a direction other than left or right walks the chain leftwards back onto the base, which is chosen |
| Hazards.RowFallbackAround | followpath.go:210-265 | in that case every examined cell but the vertical bar on the right is passed over |
| Hazards.RowFallbackReturns | followpath.go:269-285 | the visit of the vertical bar right of a `-` reached vertically appends it and makes the base a candidate |
| Hazards.RowFallbackInvalidDirection | followpath.go:81-94 | so that mirror stops the loop with "invalid path direction" |
| Hazards.RowFallbackLeavesCrossing | followpath.go:263-314 | on a `-` reached vertically with a vertical bar on its right and a cell on its left that is neither blank nor a vertical bar, the step appends the vertical bar and then goes left |
| Hazards.RowFallbackScan | followpath.go:208-302 | the scan in that case yields the cell on the left and then the base as candidates, with the vertical bar on the path |
| Hazards.RowFallbackSplit | followpath.go:210-224 | around a `-` with both row neighbours, the cells above and below are passed over |
| Hazards.RowFallbackVisitsLeft | followpath.go:263-286 | the cell on the left, being no vertical bar, becomes a candidate at once |
| Hazards.RowFallbackChoosesLeft | followpath.go:303-314 | the cell ahead is neither that cell nor the base's replacement, so the cell on the left is chosen |
| Hazards.FirstPathIndexAppend | followpath.go:100-107 | appending to a path does not change the first index of a cell it already holds |
| Hazards.FirstPathIndexAt | followpath.go:100-107 | a cell's first index is the least index holding it |
| Hazards.RevisitNotAdjacent | followpath.go:86-87 | re-choosing the current cell is never flagged as an infinite path |
| Hazards.BackOnBaseInvalid | followpath.go:84-94 | a step that ends on the current cell stops the loop with "invalid path direction" |
| Hazards.FallbackInvalidDirection | followpath.go:81-94 | so with no non-blank cell above, that fallback stops the loop with "invalid path direction" |
| Hazards.FallbackVisits | followpath.go:239-261 | below the first row, the cell above becomes the first candidate, and the walk from the `-` below appends it and returns to the base |
| Hazards.FallbackScan | followpath.go:208-302 | the scan in that case yields the cell above and then the base as candidates, with the `-` below on the path |
| Hazards.FallbackChoosesAbove | followpath.go:303-314 | the cell ahead is neither the cell above nor the base's replacement, so the cell above is chosen |
| Hazards.FallbackLeavesCrossing | followpath.go:245-314 | below the first row, with a cell above that is neither blank nor `-`, the step appends the `-` below and then goes up to the cell above |

## Left out

- Reading the map from a stream (`bufio.Scanner` over a file) and printing
  the two results are input and output. `App` takes the input lines as a
  sequence and returns the report.
- The tests read map fixture files that are not part of this model, so
  none of their scenarios is restated.
- Termination of the driver loop is not guaranteed by the source. `Run` and
  `FollowPath` take a fuel bound and fail with `OutOfFuel` when it runs out.
  Nothing is claimed about a trace that needs more iterations than the fuel
  allows. `FollowPathFuelMonotone` shows the bound changes no other outcome.
- Bytes versus runes. The source indexes lines as bytes and normalises
  them as runes. The grid holds characters, so a multi-byte rune is one
  cell here. The two agree on normalised maps, which hold only ASCII
  characters.
- Panic messages and `recover` are out of scope. A panic is an `Error`
  value, and the message text is not modelled.
- Step.WalkColumn: its own contract states only that the path does not
  shrink and that a failure is an index panic. Its stopping rule and
  chain shape are stated by `Step.WalkColumnEnds`, `Step.WalkColumnChain`
  and `Step.WalkColumnAcross`.
- Step.WalkRow: the same holds, with `Step.WalkRowEnds`, `Step.WalkRowChain`
  and `Step.WalkRowAcross`.
- Step.OnePathStep: its own contract states only the error classes. Its
  result is stated by `StepFacts.PlainStep` for bases that are not
  connectors. For travel along a connector it is stated by
  `StepFacts.ColumnCrossing` and `StepFacts.RowCrossing` when the walk
  lands (runs that reach the grid edge included), by
  `StepFacts.ColumnDeadEnd` and `StepFacts.RowDeadEnd` when there is no
  run and the cell ahead is blank or missing, and by
  `Hazards.ShortRowPanics` when a run ends on a row too short for the
  column. For a connector met sideways or at the start it is stated only
  by the `Hazards` fallback lemmas for the cases listed there.
- Step.VisitCell: on a connector base, its contract and
  `StepFacts.VisitConnector` state only that the path grows by crossed
  cells on the connector's line and that candidates stay on that line.
  They do not say which cell becomes the candidate. That is stated
  exactly for the cell straight ahead, through the crossing lemmas, and
  for the cells of the `Hazards` fallback cases.
- StepFacts.ConnectorStep: it describes the cells any connector step
  appends, but not which candidate it chooses. The crossing lemmas give
  the exact result for travel along the connector. For a connector met
  sideways or at the start, the exact result is stated only for the
  `Hazards` cases. These are a `-` below a `|`, or a `|` right of a `-`,
  with the opposite neighbour blank, missing, or a non-connector. Other
  layouts are not stated, for example a `-` above a `|` or connectors on
  both sides.
- Tracer.Run and Tracer.FollowPath: their own contracts state only the
  end points. That the result is the first arrival of repeated
  iterations is stated by `Tracer.RunArrives`, `Tracer.ArrivalRuns`,
  `Tracer.FollowPathArrives` and `Tracer.FollowPathFirstArrival`.
