# Pipe maze, part 1: a verified model

The program solves part 1 of the 2023 "pipe maze" puzzle. The input is a
grid of characters. `|`, `-`, `L`, `J`, `7` and `F` are pipe tiles, each
joining two of the four neighbouring cells. `S` is the entrance, and any
other character is ground. The program:

- decodes every character into a `Pipe` record;
- surrounds the grid with a one-cell border of empty tiles;
- finds the first entrance in row-major order;
- follows the pipes from the entrance until it steps onto an entrance again,
  writing into each cell it leaves the step count at which it left;
- prints half the number of steps, the distance to the farthest tile of the loop.

The model has six modules, one file each:

- `Pipes` (`pipes.dfy`): tiles, directions and the character table.
- `Panics` (`panics.dfy`): the program's panics, as values of a `Failure`
  type, and a `Result` wrapper.
- `Grid` (`grid.dfy`):
  - the decoded and padded grid (`Pad`);
  - the entrance search (`FindEntrance`);
  - facts about padded grids.
- `Walk` (`walk.dfy`): one iteration of the tracer (`Step`), specified as a
  function on a `Walker` state (position, last direction, step counter, grid),
  and the whole walk as a fuel-bounded iteration (`Run`).
- `Termination` (`termination.dfy`): the proof that the walk ends within as
  many moves as the grid has cells, and what the walk leaves in the grid.
- `Solver` (`solver.dfy`): the tracer as the program runs it. One pass of the
  loop body (`TraceStep`) is written branch by branch as in the program and is
  proved equal to `Step`. The loop (`Trace`) is a `while` loop over mutable
  variables, proved equal to `Run`. The driver is `Solve`.

The program's `Vec<Vec<Pipe>>` is a `seq<seq<Pipe>>` that the loop reassigns.
Rows may have different lengths, because the program does not check that the
input is rectangular. An index outside the grid is a panic in the program. In
the model it is the failure `OutOfRange`, and a tile with no continuation is
the failure `NoConnection(row, col, steps)`, carrying the values the panic
message prints.

Three points about what the program does:

- On the first move it tries Left, Down and Right, in that order, and never Up.
- It takes the first candidate that connects. It does not check that the
  entrance has exactly two connected neighbours.
- It has no part 2: no resolution of the entrance's true shape and no count
  of enclosed tiles.

## Model

| member | source | states |
|---|---|---|
| Pipes.FromChar | src/main.rs:19-102 | the decoded tile keeps the input character and a zero step count; its up/down/left/right connectors are exactly those of the pipe symbol (`|LJS`, `|7FS`, `-J7S`, `-LFS`); it is an entrance exactly for `S`, which connects in all four directions, and every other tile has zero or two connectors |
| Pipes.Empty | src/main.rs:104-115 | the padding tile is the tile decoded from `.`: no connector, not an entrance |
| Pipes.Opposite | src/main.rs:118-125 | every real direction has a different real opposite; only `None` maps to `None` |
| Pipes.Shift | src/main.rs:213-287 | a move in a real direction changes the position |
| Pipes.ShiftBack | src/main.rs:213-287 | proof helper: moving in a direction and then in its opposite returns to the start |
| Pipes.ShiftInjective | src/main.rs:213-287 | proof helper: moves in two different directions from the same cell reach different cells |
| Pipes.OnlyTwoConnectors | src/main.rs:19-102 | a tile with at most two connectors, two of which are known, has no third |
| Grid.Pad | src/main.rs:170-187 | no input line is the no-rows panic (`map[0]` on an empty vector); otherwise an H-line input becomes an (H+2)-row grid whose first and last rows have the width of the first line plus two and are empty, every row is framed by empty tiles, and cell (y+1, x+1) is the decoded input character (y, x) |
| Grid.FindEntrance | src/main.rs:190-201 | the result satisfies `FirstEntrance`: when the grid has an entrance, the result is an entrance and no entrance comes before it in row-major order; when it has none, the result is (0, 0) |
| Grid.FirstEntranceUnique | src/main.rs:190-201 | only one position satisfies `FirstEntrance`, so the search result is determined by the grid |
| Grid.PaddedUnique | src/main.rs:170-187 | the padded grid is determined by the input lines |
| Grid.PaddedWellFormed | src/main.rs:19-115 | in a padded grid every tile is an entrance or has at most two connectors |
| Grid.ConnectedIsInterior | src/main.rs:170-187 | a tile with a connector lies inside the border, on a cell that came from the input |
| Grid.CornerIsEmpty | src/main.rs:179-187 | the corner (0, 0), where the walk starts when no entrance exists, is the empty tile |
| Grid.PaddedFenced | src/main.rs:179-187 | a padded rectangular input has rows of one width and all connector tiles strictly inside the border |
| Grid.PaddedNoEntrance | src/main.rs:19-102 | an input without `S` pads to a grid without an entrance |
| Grid.Unmarked | src/main.rs:214 | proof helper: forgetting the step count keeps the character, the connectors and the entrance flag |
| Walk.Candidates | src/main.rs:211-290 | the priority table of the five branches: after Right try Up, Down, Right; after Left try Up, Down, Left; after Up try Up, Left, Right; after Down, and before the first move, try Left, Down, Right (its properties are stated by `Walk.CandidatesSound`) |
| Walk.CandidatesSound | src/main.rs:211-290 | the three directions tried after each last direction (a `Tries` value, in the program's order); none is `None`, they are distinct, none reverses the last move, and the first move never tries Up |
| Walk.Look | src/main.rs:211-290 | the short-circuit test `cur.conn_d && neighbour.conn_opposite` for one direction: false when the current tile lacks the connector, a panic when the neighbour's index is outside the grid, otherwise the neighbour's opposite connector (checked against the program's literal tests by `Solver.Test`) |
| Walk.FirstUnblocked | src/main.rs:211-290 | the chosen index is the first candidate whose connector test is not false; every earlier test is false |
| Walk.Mark | src/main.rs:214 | the write `map[y][x].steps = steps` (stated by `Walk.MarkChangesOneCell`) |
| Walk.MarkChangesOneCell | src/main.rs:214-286 | writing the step count changes only the `steps` field of the departed cell and keeps the grid's shape |
| Walk.Step | src/main.rs:211-300 | one pass of the loop body (stated by `Walk.StepMoves`, `Walk.StepChoice` and `Walk.StepCounts`, and computed branch by branch by `Solver.TraceStep`) |
| Walk.StepMoves | src/main.rs:211-300 | a move goes in a candidate direction along a connector of the current tile into a neighbour with the opposite connector; the departed cell records the count, which grows by one; the walk stops exactly on arriving at an entrance, never after the first move; a stop is a no-connection or out-of-range panic |
| Walk.StepChoice | src/main.rs:211-290 | the direction taken is the first candidate in priority order whose test holds; the no-connection panic happens exactly when all three tests are false and carries the row, column and step count; an out-of-range panic is a connector of the current tile pointing outside the grid, in the first candidate direction whose test is not false |
| Walk.StepCounts | src/main.rs:211-296 | a move keeps the walker on the grid, adds exactly one to the count and leaves in a real direction; an arrival follows a real move and lands on an entrance |
| Walk.Start | src/main.rs:203-206 | the walker before the first move: the found position, no last direction, count 0, the padded grid |
| Walk.Run | src/main.rs:207-301 | the loop run for at most `fuel` passes, ending on an arrival or a panic, or out of fuel (computed by `Solver.Trace`; its properties are stated by the lemmas that follow) |
| Walk.RunContinue | src/main.rs:207-301 | a move that does not end the walk hands the rest of the walk, with one unit less fuel, to the walker it produces |
| Walk.ContinuesUnfold | src/main.rs:207-301 | a walker that keeps going for k > 0 moves makes a continuing move onto a cell of the grid |
| Walk.EndsUnfold | src/main.rs:207-301 | a walker that arrives after k > 0 further moves first makes a continuing move onto a cell of the grid |
| Walk.OutOfFuelContinues | src/main.rs:207-301 | a walk that runs out of fuel made only continuing moves, as many as the fuel |
| Walk.DoneAfter | src/main.rs:207-301 | a completed walk arrives after fewer continuing moves than the fuel, at the walker it returns |
| Walk.StepParity | src/main.rs:213-295 | one move keeps row + column + steps modulo 2 |
| Walk.DeadStart | src/main.rs:275-290 | a start cell with no connector panics at once with no connection at that cell after 0 steps |
| Walk.RunArrival | src/main.rs:289-299 | a completed walk ends on an entrance, after a real move, with at least one more step, and at least two from the start |
| Walk.RunParity | src/main.rs:213-295 | each move changes row + column by one while the count grows by one, so row + column + steps keeps its parity |
| Walk.ClosedWalkIsEven | src/main.rs:295-299 | a walk that closes on its start took an even number of steps, so the printed half is exact |
| Walk.MarkedShape | src/main.rs:214-286 | recording a step count keeps the grid's shape and its tiles apart from the count |
| Walk.StepStaysInside | src/main.rs:179-187 | in a padded grid every move lands on a cell that came from the input; an out-of-range panic needs a vertical move between rows of different lengths in non-rectangular input |
| Grid.OutsideNeedsRagged | src/main.rs:179-187 | a connector of a padded tile that points outside the grid is vertical and needs input lines of different lengths |
| Walk.StepNeverOutside | src/main.rs:179-187 | on a grid whose connector tiles are strictly inside and whose rows have one width, no connector test indexes outside the grid |
| Walk.RunNeverOutOfRange | src/main.rs:207-301 | on such a grid the whole walk can panic only for lack of a connection |
| Termination.CellsMember | src/main.rs:190-201 | proof helper: every in-bounds position is one of the grid's cells |
| Termination.DistinctApart | src/main.rs:207-301 | in a path of distinct cells, two different positions hold different cells |
| Termination.ChainExtends | src/main.rs:211-290 | a move from the last cell of a chain of neighbouring cells keeps it a chain |
| Termination.DistinctFits | src/main.rs:207-301 | a sequence of distinct cells of a grid is no longer than the number of cells |
| Termination.PathFits | src/main.rs:207-301 | the cells a walker has visited fit in the grid, so its step count is below the number of cells |
| Termination.MoveIsFresh | src/main.rs:211-290 | a move that does not reach an entrance goes to a cell not visited before, because tiles have at most two connectors and no move reverses the last |
| Termination.LinkedAway | src/main.rs:211-290 | a non-entrance tile with a connector pointing at the current cell is none of the path's inner cells that are not next to the current one, because their connectors lead only to their own two neighbours on the path |
| Termination.DistinctAppend | src/main.rs:211-290 | appending a new cell to a path of distinct cells keeps it distinct |
| Termination.LinksExtend | src/main.rs:211-290 | after a move the departed tile connects only to its two neighbours on the path |
| Termination.LeavingLinked | src/main.rs:211-290 | leaving a tile along its connector other than the one it was entered by links it to its two neighbours on the path |
| Termination.LinkedKept | src/main.rs:211-290 | appending a cell keeps every earlier link on the path |
| Termination.StepExtendsPath | src/main.rs:211-295 | a move that does not reach an entrance extends the path of visited cells and keeps its invariant |
| Termination.RecordedExtends | src/main.rs:214-286 | after a move the grid records the departure step of every visited cell and is otherwise unchanged |
| Termination.ContinueExtendsPath | src/main.rs:211-295 | a continuing move keeps the path invariant with the entered cell appended |
| Termination.ContinuesBound | src/main.rs:207-301 | a walker that has followed a path continues for at most as many moves as there are cells off the path |
| Termination.RunFromPath | src/main.rs:207-301 | from a walker with a valid visited path, a walk with more fuel than unvisited cells ends |
| Termination.ArrivalExtends | src/main.rs:289-299 | a move that ends the walk leaves the path itself as the recorded trail |
| Termination.ExtendsPrefix | src/main.rs:207-301 | a trail that extends a path with one more cell extends the path too |
| Termination.TrailAfter | src/main.rs:207-301 | a walk that arrives after k continuing moves leaves a recorded trail of distinct cells that extends the visited path, each cell one move from the one before and the last one move from the arrival cell |
| Termination.RecordFromPath | src/main.rs:207-301 | a completed walk's grid records the departure steps of a trail of distinct cells that extends the visited path, each cell one move from the one before and the last one move from the arrival cell |
| Termination.StartPath | src/main.rs:203-206 | the walker at the start, with count 0 and no last direction, has followed the one-cell path of its start cell |
| Termination.WalkTerminates | src/main.rs:203-301 | from the found entrance, or from the empty corner when there is none, the walk ends (on an entrance or in a panic) within as many moves as the grid has cells |
| Termination.WalkEnds | src/main.rs:203-301 | when the walk completes, the step counts in the grid are 0, 1, … along a path of distinct cells from the start, each cell one move from the one before and the last one move from the entrance arrived at; every other cell is unchanged |
| Solver.Test | src/main.rs:211-290 | each of the program's four connector tests, written with its own fields and index offsets (`conn_up` with the `conn_down` of row y - 1, and so on), gives exactly `Look` |
| Solver.TraceStep | src/main.rs:211-300 | the loop body as the program writes it, an `if` chain on the last direction with three tests in each branch, the step-count write, the move, the counter and the entrance test skipped on the first move, computes exactly `Step` |
| Solver.Trace | src/main.rs:203-301 | the tracer loop, over mutable position, direction, counter and grid, computes exactly the walk `Run` from the start; it always ends, and a panic is a no-connection or out-of-range one |
| Solver.Answer | src/main.rs:225-299 | an arrival reports steps / 2 (the printed value); a panic is the error result |
| Solver.Solve | src/main.rs:170-301 | empty input exactly gives the no-rows panic; any other input gives exactly the outcome of `Run` from the first entrance (or (0, 0)) of its padded grid: half the steps on arrival, or the panic that stopped the walk; input without `S` panics with no connection at (0, 0) after 0 steps; rectangular input never indexes outside the grid; a success starts on the first entrance of the padded input, ends on an entrance after at least two steps, and reports half the steps, exactly half when the loop closes on the start |

## Left out

- Command-line parsing (src/main.rs:130-155) is left out. The model takes the
  input lines as a parameter, and the `part1` flag is taken as set.
- Reading the input file and the embedded five-line sample (src/main.rs:157-168)
  are left out. File I/O is outside the model, and the sample's walk is not
  evaluated in a lemma.
- Splitting the text into lines with `str::lines` is left out. The model's
  input is already the sequence of lines.
- The verbose trace printing (src/main.rs:208-210) and the final `println!`
  (src/main.rs:298) are left out. The printed value is `Solve`'s result.
- The `enter_direction` field of `Pipe` (src/main.rs:15) is left out, because
  nothing reads or writes it after construction.
- Part 2 is not implemented by the program and is not modelled.
- Walk.Run: the step counter is a `usize` in the program and a `nat` here.
  Overflow cannot happen, because the walk makes fewer moves than the grid has
  cells.
- Walk.Step: the program computes `y - 1` on a `usize`. At row 0 that is an
  overflow panic in a debug build, and an out-of-bounds index in a release
  build. Both are the same `OutOfRange` failure here.
- Solver.Trace: the in-place writes `map[y][x].steps = steps` are modelled as
  reassigning a `seq<seq<Pipe>>`. In the program nothing else aliases the grid.
