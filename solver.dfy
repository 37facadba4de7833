/** The part-1 solver: the trace loop as the source runs it, mutating the
    position, the last direction, the step counter and the grid, and the
    driver that pads the input, finds the entrance and reports half the
    number of steps. */
module Solver {
  import opened Pipes
  import opened Panics
  import opened Grid
  import opened Walk
  import opened Termination

  /** The test `map[y][x].conn_d && neighbour.conn_opposite` for one direction,
      written out per direction: Outside when the current tile has the
      connector but the neighbour's index lies outside the grid, where the
      source panics. */
  method Test(maze: Maze, y: nat, x: nat, d: Direction) returns (t: Probe)
    requires InBounds(maze, y, x)
    ensures t == Look(maze, y, x, d)
  {
    var cur := maze[y][x];
    match d
    case Up =>
      t := if !cur.connUp then Blocked
        else if y == 0 || x >= |maze[y - 1]| then Outside
        else if maze[y - 1][x].connDown then Open else Blocked;
    case Down =>
      t := if !cur.connDown then Blocked
        else if y + 1 >= |maze| || x >= |maze[y + 1]| then Outside
        else if maze[y + 1][x].connUp then Open else Blocked;
    case Left =>
      t := if !cur.connLeft then Blocked
        else if x == 0 then Outside
        else if maze[y][x - 1].connRight then Open else Blocked;
    case Right =>
      t := if !cur.connRight then Blocked
        else if x + 1 >= |maze[y]| then Outside
        else if maze[y][x + 1].connLeft then Open else Blocked;
    case None =>
      t := Blocked;
  }

  /** One iteration of the trace loop, branch by branch as the source has it:
      after each last direction three tests in a fixed order, the first that
      holds giving the move; the step count is written into the cell left,
      the position moves and the counter grows; after any move but the first
      the walk stops on an entrance. */
  method TraceStep(maze: Maze, y: nat, x: nat, prev: Direction, steps: nat) returns (r: StepResult)
    requires InBounds(maze, y, x)
    ensures r == Step(Walker(y, x, prev, steps, maze))
  {
    var d := None;
    var t := Blocked;
    if prev == Right {
      t := Test(maze, y, x, Up);
      if t != Blocked { d := Up; } else {
        t := Test(maze, y, x, Down);
        if t != Blocked { d := Down; } else {
          t := Test(maze, y, x, Right);
          if t != Blocked { d := Right; }
        }
      }
    } else if prev == Left {
      t := Test(maze, y, x, Up);
      if t != Blocked { d := Up; } else {
        t := Test(maze, y, x, Down);
        if t != Blocked { d := Down; } else {
          t := Test(maze, y, x, Left);
          if t != Blocked { d := Left; }
        }
      }
    } else if prev == Up {
      t := Test(maze, y, x, Up);
      if t != Blocked { d := Up; } else {
        t := Test(maze, y, x, Left);
        if t != Blocked { d := Left; } else {
          t := Test(maze, y, x, Right);
          if t != Blocked { d := Right; }
        }
      }
    } else if prev == Down {
      t := Test(maze, y, x, Left);
      if t != Blocked { d := Left; } else {
        t := Test(maze, y, x, Down);
        if t != Blocked { d := Down; } else {
          t := Test(maze, y, x, Right);
          if t != Blocked { d := Right; }
        }
      }
    } else {
      // prev is None: the first move
      t := Test(maze, y, x, Left);
      if t != Blocked { d := Left; } else {
        t := Test(maze, y, x, Down);
        if t != Blocked { d := Down; } else {
          t := Test(maze, y, x, Right);
          if t != Blocked { d := Right; }
        }
      }
    }
    if d == None {
      return Stopped(NoConnection(y, x, steps));
    }
    if t == Outside {
      return Stopped(OutOfRange(y, x, d));
    }
    var maze' := maze[y := maze[y][x := maze[y][x].(steps := steps)]];
    var y', x' := y, x;
    match d {
      case Up => y' := y - 1;
      case Down => y' := y + 1;
      case Left => x' := x - 1;
      case Right => x' := x + 1;
    }
    var n := Walker(y', x', d, steps + 1, maze');
    if prev == None {
      // the first move continues without the entrance test
      return Continue(n);
    }
    if maze'[y'][x'].entrance {
      return Arrived(n);
    }
    return Continue(n);
  }

  /** The trace loop, over the position, the last direction, the step counter
      and the grid, until a move arrives on an entrance or a panic. */
  method Trace(grid: Maze, sy: nat, sx: nat) returns (out: Outcome)
    requires WellFormed(grid) && InBounds(grid, sy, sx) && StartOk(grid[sy][sx])
    ensures out == Run(Start(grid, sy, sx), |Cells(grid)|)
    ensures !out.OutOfFuel?
    ensures out.Panic? ==> out.failure.NoConnection? || out.failure.OutOfRange?
  {
    WalkTerminates(grid, sy, sx);
    ghost var fuel: nat := |Cells(grid)|;
    var maze := grid;
    var steps: nat := 0;
    var prev := None;
    var y, x := sy, sx;
    while true
      invariant InBounds(maze, y, x)
      invariant Run(Walker(y, x, prev, steps, maze), fuel) == Run(Start(grid, sy, sx), |Cells(grid)|)
      decreases fuel
    {
      assert fuel > 0;
      ghost var w := Walker(y, x, prev, steps, maze);
      var r := TraceStep(maze, y, x, prev, steps);
      match r
      case Stopped(f) =>
        return Panic(f);
      case Arrived(n) =>
        return Done(n);
      case Continue(n) =>
        RunContinue(w, fuel);
        y, x, prev, steps, maze := n.y, n.x, n.prev, n.steps, n.grid;
        fuel := fuel - 1;
    }
  }

  /** What the source reports for a finished walk: half the number of steps,
      or the panic that ended it. */
  function Answer(o: Outcome): Result<nat>
    requires !o.OutOfFuel?
  {
    match o
    case Done(n) => Ok(n.steps / 2)
    case Panic(f) => Err(f)
  }

  /** Pads the input, finds the entrance, traces the loop and reports the
      distance to the farthest point, half the number of steps. */
  method Solve(lines: seq<string>) returns (r: Result<nat>)
    ensures |lines| == 0 <==> r == Err(NoRows)
    ensures |lines| > 0 ==>
      exists g: Maze, sy: nat, sx: nat ::
        PaddedFrom(lines, g) && FirstEntrance(g, sy, sx) && InBounds(g, sy, sx) &&
        !Run(Start(g, sy, sx), |Cells(g)|).OutOfFuel? &&
        r == Answer(Run(Start(g, sy, sx), |Cells(g)|))
    ensures |lines| > 0 && NoEntranceSymbol(lines) ==> r == Err(NoConnection(0, 0, 0))
    ensures Rectangular(lines) && r.Err? ==> r.error.NoRows? || r.error.NoConnection?
    ensures r.Ok? ==> r.value >= 1
    ensures r.Ok? ==>
      exists g: Maze, sy: nat, sx: nat, n: Walker ::
        PaddedFrom(lines, g) && FirstEntrance(g, sy, sx) && InBounds(g, sy, sx) && g[sy][sx].entrance &&
        Run(Start(g, sy, sx), |Cells(g)|) == Done(n) && r.value == n.steps / 2 &&
        InBounds(n.grid, n.y, n.x) && n.grid[n.y][n.x].entrance && n.steps >= 2 &&
        (n.y == sy && n.x == sx ==> 2 * r.value == n.steps)
  {
    var padded := Pad(lines);
    if padded.Err? {
      return Err(padded.error);
    }
    var g := padded.value;
    var sy, sx := FindEntrance(g);
    PaddedWellFormed(lines, g);
    CornerIsEmpty(lines, g);
    if |lines| > 0 && NoEntranceSymbol(lines) {
      PaddedNoEntrance(lines, g);
    }
    var out := Trace(g, sy, sx);
    var w := Start(g, sy, sx);
    CellsMember(g, sy, sx);
    if !g[sy][sx].entrance {
      DeadStart(g, sy, sx, |Cells(g)|);
    }
    if Rectangular(lines) {
      PaddedFenced(lines, g);
      RunNeverOutOfRange(g, w, |Cells(g)|);
    }
    if out.Done? {
      RunArrival(w, |Cells(g)|);
      ClosedWalkIsEven(g, sy, sx, |Cells(g)|);
      var n := out.last;
      r := Ok(n.steps / 2);
      assert PaddedFrom(lines, g) && FirstEntrance(g, sy, sx) && InBounds(g, sy, sx) && g[sy][sx].entrance &&
        Run(Start(g, sy, sx), |Cells(g)|) == Done(n) && r.value == n.steps / 2 &&
        InBounds(n.grid, n.y, n.x) && n.grid[n.y][n.x].entrance && n.steps >= 2 &&
        (n.y == sy && n.x == sx ==> 2 * r.value == n.steps);
    } else {
      r := Err(out.failure);
    }
    assert PaddedFrom(lines, g) && FirstEntrance(g, sy, sx) && InBounds(g, sy, sx) &&
      !Run(Start(g, sy, sx), |Cells(g)|).OutOfFuel? &&
      r == Answer(Run(Start(g, sy, sx), |Cells(g)|));
  }
}
