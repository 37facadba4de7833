/** The rules of the loop tracer: which direction the walker takes from a
    cell, what one iteration of the trace loop does to the walker and the
    grid, and the whole walk as a fuel-bounded iteration of that step. */
module Walk {
  import opened Pipes
  import opened Panics
  import opened Grid

  /** The tracer's state: position, last direction, step counter and the grid. */
  datatype Walker = Walker(y: nat, x: nat, prev: Direction, steps: nat, grid: Maze)

  /** How a walk ends: on an entrance, in a panic, or (in the specification
      only) when the step budget is spent. */
  datatype Outcome = Done(last: Walker) | Panic(failure: Failure) | OutOfFuel

  /** The result of one iteration of the trace loop. */
  datatype StepResult = Continue(next: Walker) | Arrived(next: Walker) | Stopped(failure: Failure)

  /** How the test `cur.conn_d && neighbour.conn_opposite` ends for direction `d`:
      Blocked when it is false, Outside when the current tile has `d` but the
      neighbour's index is outside the grid (a panic), Open when it is true. */
  datatype Probe = Blocked | Open | Outside

  /** The three directions the trace loop tries, in this order. */
  datatype Tries = Tries(first: Direction, second: Direction, third: Direction)
  {
    /** The direction tried `k`-th, counting from 0. */
    function At(k: nat): Direction
      requires k < 3
    {
      if k == 0 then first else if k == 1 then second else third
    }

    /** `d` is one of the three directions tried. */
    predicate Offers(d: Direction)
    {
      d == first || d == second || d == third
    }
  }

  /** The directions tried, in order, after a move in direction `prev`. */
  function Candidates(prev: Direction): Tries
  {
    match prev
    case Right => Tries(Up, Down, Right)
    case Left => Tries(Up, Down, Left)
    case Up => Tries(Up, Left, Right)
    case Down => Tries(Left, Down, Right)
    case None => Tries(Left, Down, Right)
  }

  /** Three distinct real directions are tried; none of them reverses the last
      move, and the first move never tries Up. */
  lemma CandidatesSound(prev: Direction)
    ensures Candidates(prev).first != None && Candidates(prev).second != None &&
            Candidates(prev).third != None
    ensures Candidates(prev).first != Candidates(prev).second &&
            Candidates(prev).first != Candidates(prev).third &&
            Candidates(prev).second != Candidates(prev).third
    ensures prev != None ==> !Candidates(prev).Offers(Opposite(prev))
    ensures prev == None ==> !Candidates(prev).Offers(Up)
  {
  }

  function Look(g: Maze, y: nat, x: nat, d: Direction): Probe
    requires InBounds(g, y, x)
  {
    if !Has(g[y][x], d) then Blocked
    else
      var q := Shift((y, x), d);
      if !InBounds(g, q.0, q.1) then Outside
      else if Has(g[q.0][q.1], Opposite(d)) then Open
      else Blocked
  }

  /** The index of the first direction tried whose test is not Blocked, or 3
      if all three are. */
  function FirstUnblocked(g: Maze, y: nat, x: nat, c: Tries): (i: nat)
    requires InBounds(g, y, x)
    ensures i <= 3
    ensures forall j :: 0 <= j < i ==> Look(g, y, x, c.At(j)) == Blocked
    ensures i < 3 ==> Look(g, y, x, c.At(i)) != Blocked
  {
    if Look(g, y, x, c.first) != Blocked then 0
    else if Look(g, y, x, c.second) != Blocked then 1
    else if Look(g, y, x, c.third) != Blocked then 2
    else 3
  }

  /** `h` is `g` with the step count of cell (y, x) set to `s`, and nothing else changed. */
  ghost predicate Marked(g: Maze, h: Maze, y: nat, x: nat, s: nat)
  {
    |h| == |g| && (forall k :: 0 <= k < |g| ==> |h[k]| == |g[k]|) &&
    InBounds(g, y, x) &&
    forall yy, xx :: InBounds(g, yy, xx) ==>
      h[yy][xx] == if yy == y && xx == x then g[yy][xx].(steps := s) else g[yy][xx]
  }

  /** The grid after `map[y][x].steps = s`. */
  function Mark(g: Maze, y: nat, x: nat, s: nat): Maze
    requires InBounds(g, y, x)
  {
    g[y := g[y][x := g[y][x].(steps := s)]]
  }

  /** Writing a step count changes that one field of that one cell. */
  lemma MarkChangesOneCell(g: Maze, y: nat, x: nat, s: nat)
    requires InBounds(g, y, x)
    ensures Marked(g, Mark(g, y, x, s), y, x, s)
  {
  }

  /** `n` is `w` after one move: in a candidate direction, along a connector of
      the current tile to a neighbour with the opposite connector, with the
      departure step written into the cell left and the counter incremented. */
  ghost predicate Moves(w: Walker, n: Walker)
  {
    InBounds(w.grid, w.y, w.x) &&
    Candidates(w.prev).Offers(n.prev) &&
    (n.y, n.x) == Shift((w.y, w.x), n.prev) &&
    Has(w.grid[w.y][w.x], n.prev) &&
    InBounds(w.grid, n.y, n.x) && Has(w.grid[n.y][n.x], Opposite(n.prev)) &&
    n.steps == w.steps + 1 && n.grid == Mark(w.grid, w.y, w.x, w.steps) &&
    InBounds(n.grid, n.y, n.x) && n.grid[n.y][n.x].entrance == w.grid[n.y][n.x].entrance
  }

  /** One iteration of the trace loop. */
  function Step(w: Walker): StepResult
    requires InBounds(w.grid, w.y, w.x)
  {
    var c := Candidates(w.prev);
    var i := FirstUnblocked(w.grid, w.y, w.x, c);
    if i == 3 then Stopped(NoConnection(w.y, w.x, w.steps))
    else
      var d := c.At(i);
      var q := Shift((w.y, w.x), d);
      if !InBounds(w.grid, q.0, q.1) then Stopped(OutOfRange(w.y, w.x, d))
      else
        var g := Mark(w.grid, w.y, w.x, w.steps);
        var n := Walker(q.0, q.1, d, w.steps + 1, g);
        if w.prev != None && g[q.0][q.1].entrance then Arrived(n) else Continue(n)
  }

  /** A move goes in a candidate direction, along a connector of the current
      tile towards a neighbour that has the opposite connector; the departed
      cell records the step count, which then grows by one. The walk stops
      exactly on arriving at an entrance, never on the first move, and a stop
      is one of the two panics. */
  lemma StepMoves(w: Walker)
    requires InBounds(w.grid, w.y, w.x)
    ensures Step(w).Continue? || Step(w).Arrived? ==> Moves(w, Step(w).next)
    ensures Step(w).Arrived? ==> w.prev != None && w.grid[Step(w).next.y][Step(w).next.x].entrance
    ensures Step(w).Continue? ==> w.prev == None || !w.grid[Step(w).next.y][Step(w).next.x].entrance
    ensures Step(w).Stopped? ==> Step(w).failure.NoConnection? || Step(w).failure.OutOfRange?
  {
  }

  /** The direction taken is the first candidate whose connector test is not
      false; when every test is false the walker panics at its cell, and when
      a test would index outside the grid the walker panics there. */
  lemma StepChoice(w: Walker)
    requires InBounds(w.grid, w.y, w.x)
    ensures var r := Step(w);
      r.Continue? || r.Arrived? ==>
      forall k :: 0 <= k < 3 && Candidates(w.prev).At(k) == r.next.prev ==>
        forall j :: 0 <= j < k ==> Look(w.grid, w.y, w.x, Candidates(w.prev).At(j)) == Blocked
    ensures var r := Step(w);
      (r.Stopped? && r.failure.NoConnection?) <==>
      forall k :: 0 <= k < 3 ==> Look(w.grid, w.y, w.x, Candidates(w.prev).At(k)) == Blocked
    ensures var r := Step(w);
      r.Stopped? && r.failure.NoConnection? ==> r.failure == NoConnection(w.y, w.x, w.steps)
    ensures var r := Step(w);
      r.Stopped? && r.failure.OutOfRange? ==>
      var f := r.failure;
      var q := Shift((w.y, w.x), f.dir);
      f.row == w.y && f.col == w.x && Has(w.grid[w.y][w.x], f.dir) && !InBounds(w.grid, q.0, q.1) &&
      Candidates(w.prev).Offers(f.dir) &&
      forall k :: 0 <= k < 3 && Candidates(w.prev).At(k) == f.dir ==>
        forall j :: 0 <= j < k ==> Look(w.grid, w.y, w.x, Candidates(w.prev).At(j)) == Blocked
  {
  }

  /** The walker that the tracer starts with. */
  function Start(g: Maze, sy: nat, sx: nat): Walker
  {
    Walker(sy, sx, None, 0, g)
  }

  /** The trace loop run for at most `fuel` iterations. */
  function Run(w: Walker, fuel: nat): Outcome
    requires InBounds(w.grid, w.y, w.x)
    decreases fuel
  {
    if fuel == 0 then OutOfFuel
    else
      match Step(w)
      case Stopped(f) => Panic(f)
      case Arrived(n) => Done(n)
      case Continue(n) => Run(n, fuel - 1)
  }

  /** A continuing move leaves the rest of the walk to the next walker. */
  lemma RunContinue(w: Walker, fuel: nat)
    requires InBounds(w.grid, w.y, w.x) && fuel > 0 && Step(w).Continue?
    ensures Run(w, fuel) == Run(Step(w).next, fuel - 1)
  {
  }

  /** The walk from `w` makes `k` moves that neither stop nor arrive. */
  ghost predicate Continues(w: Walker, k: nat)
    requires InBounds(w.grid, w.y, w.x)
    decreases k
  {
    k == 0 || (Step(w).Continue? && Continues(Step(w).next, k - 1))
  }

  /** The walk from `w` makes `k` continuing moves and then one that arrives. */
  ghost predicate Ends(w: Walker, k: nat)
    requires InBounds(w.grid, w.y, w.x)
    decreases k
  {
    if k == 0 then Step(w).Arrived? else Step(w).Continue? && Ends(Step(w).next, k - 1)
  }

  /** The walker after the arriving move. */
  ghost function Final(w: Walker, k: nat): Walker
    requires InBounds(w.grid, w.y, w.x) && Ends(w, k)
    decreases k
  {
    if k == 0 then Step(w).next else Final(Step(w).next, k - 1)
  }

  /** A walk that arrives after `k` > 0 continuing moves starts with one of them. */
  lemma EndsUnfold(w: Walker, k: nat)
    requires InBounds(w.grid, w.y, w.x) && Ends(w, k) && k > 0
    ensures Step(w).Continue? && InBounds(Step(w).next.grid, Step(w).next.y, Step(w).next.x)
  {
  }

  /** A walk that continues for `k` > 0 moves starts with one of them. */
  lemma ContinuesUnfold(w: Walker, k: nat)
    requires InBounds(w.grid, w.y, w.x) && Continues(w, k) && k > 0
    ensures Step(w).Continue? && InBounds(Step(w).next.grid, Step(w).next.y, Step(w).next.x)
  {
  }

  /** A walk that spends its whole budget continued at every move. */
  lemma {:induction false} OutOfFuelContinues(w: Walker, fuel: nat)
    requires InBounds(w.grid, w.y, w.x)
    ensures Run(w, fuel).OutOfFuel? ==> Continues(w, fuel)
    decreases fuel
  {
    if fuel > 0 && Step(w).Continue? {
      OutOfFuelContinues(Step(w).next, fuel - 1);
    }
  }

  /** A completed walk is `k` continuing moves, within the budget, followed
      by one move that arrives. */
  lemma {:induction false} DoneAfter(w: Walker, fuel: nat) returns (k: nat)
    requires InBounds(w.grid, w.y, w.x) && Run(w, fuel).Done?
    ensures k < fuel && Ends(w, k) && Final(w, k) == Run(w, fuel).last
    decreases fuel
  {
    if Step(w).Arrived? {
      k := 0;
    } else {
      var j := DoneAfter(Step(w).next, fuel - 1);
      k := j + 1;
    }
  }

  /** One move keeps the walker on the grid, counts one step and leaves in a
      real direction; an arrival lands on an entrance after a real move. */
  lemma StepCounts(w: Walker)
    requires InBounds(w.grid, w.y, w.x)
    ensures Step(w).Continue? || Step(w).Arrived? ==>
      InBounds(Step(w).next.grid, Step(w).next.y, Step(w).next.x) &&
      Step(w).next.steps == w.steps + 1 && Step(w).next.prev != None
    ensures Step(w).Arrived? ==>
      w.prev != None && Step(w).next.grid[Step(w).next.y][Step(w).next.x].entrance
  {
  }

  /** A completed walk ends on an entrance after a real move, and after at
      least two moves from the start, whose first move never checks for the
      entrance. */
  lemma {:induction false} RunArrival(w: Walker, fuel: nat)
    requires InBounds(w.grid, w.y, w.x)
    ensures Run(w, fuel).Done? ==>
      var n := Run(w, fuel).last;
      InBounds(n.grid, n.y, n.x) && n.grid[n.y][n.x].entrance && n.prev != None &&
      n.steps >= w.steps + 1 && (w.prev == None ==> n.steps >= w.steps + 2)
    decreases fuel
  {
    if fuel > 0 {
      StepCounts(w);
      if Step(w).Continue? {
        RunArrival(Step(w).next, fuel - 1);
      }
    }
  }

  /** A start cell without connectors stops the walk at once with the
      no-connection panic, before any move is counted. */
  lemma DeadStart(g: Maze, sy: nat, sx: nat, fuel: nat)
    requires InBounds(g, sy, sx) && fuel > 0 && Degree(g[sy][sx]) == 0
    ensures Run(Start(g, sy, sx), fuel) == Panic(NoConnection(sy, sx, 0))
  {
    StepChoice(Start(g, sy, sx));
  }

  /** The parity of row + column + steps. */
  function Parity(w: Walker): int
  {
    (w.y + w.x + w.steps) % 2
  }

  /** Every move flips the parity of row + column while the step count grows by
      one, so one move keeps the parity of row + column + steps. */
  lemma StepParity(w: Walker)
    requires InBounds(w.grid, w.y, w.x)
    ensures Step(w).Continue? || Step(w).Arrived? ==> Parity(Step(w).next) == Parity(w)
  {
    if Step(w).Continue? || Step(w).Arrived? {
      var n := Step(w).next;
      assert n.y + n.x == w.y + w.x + 1 || n.y + n.x == w.y + w.x - 1;
      assert n.steps == w.steps + 1;
    }
  }

  /** The whole walk keeps the parity of row + column + steps. */
  lemma {:induction false} RunParity(w: Walker, fuel: nat)
    requires InBounds(w.grid, w.y, w.x)
    ensures Run(w, fuel).Done? ==> Parity(Run(w, fuel).last) == Parity(w)
    decreases fuel
  {
    if fuel > 0 {
      StepParity(w);
      StepCounts(w);
      if Step(w).Continue? {
        RunParity(Step(w).next, fuel - 1);
        assert Run(w, fuel) == Run(Step(w).next, fuel - 1);
      }
    }
  }

  /** A walk that closes on its starting cell has made an even number of moves,
      so the reported distance is exactly half of them. */
  lemma ClosedWalkIsEven(g: Maze, sy: nat, sx: nat, fuel: nat)
    requires InBounds(g, sy, sx)
    ensures Run(Start(g, sy, sx), fuel).Done? &&
            Run(Start(g, sy, sx), fuel).last.y == sy && Run(Start(g, sy, sx), fuel).last.x == sx ==>
      Run(Start(g, sy, sx), fuel).last.steps % 2 == 0 &&
      2 * (Run(Start(g, sy, sx), fuel).last.steps / 2) == Run(Start(g, sy, sx), fuel).last.steps
  {
    RunParity(Start(g, sy, sx), fuel);
  }

  /** Setting a step count keeps the shape of the grid. */
  lemma MarkedShape(g0: Maze, g: Maze, y: nat, x: nat, s: nat)
    requires SameShape(g, g0) && InBounds(g, y, x)
    ensures SameShape(Mark(g, y, x, s), g0)
  {
    var h := Mark(g, y, x, s);
    MarkChangesOneCell(g, y, x, s);
    forall yy, xx | InBounds(h, yy, xx)
      ensures Unmarked(h[yy][xx]) == Unmarked(g0[yy][xx])
    {
      assert InBounds(g, yy, xx);
    }
  }

  /** In a padded grid the walker only ever moves onto cells that come from the
      input, never onto the border; a neighbour index can be out of range only
      for a vertical move between rows of different lengths. */
  lemma StepStaysInside(lines: seq<string>, g0: Maze, w: Walker)
    requires PaddedFrom(lines, g0) && SameShape(w.grid, g0) && InBounds(w.grid, w.y, w.x)
    ensures Step(w).Continue? || Step(w).Arrived? ==>
      1 <= Step(w).next.y <= |lines| && 1 <= Step(w).next.x <= |lines[Step(w).next.y - 1]|
    ensures Step(w).Stopped? && Step(w).failure.OutOfRange? ==>
      (Step(w).failure.dir == Up || Step(w).failure.dir == Down) && !Rectangular(lines)
  {
    var r := Step(w);
    assert InBounds(g0, w.y, w.x);
    if r.Continue? || r.Arrived? {
      var n := r.next;
      assert Has(g0[n.y][n.x], Opposite(n.prev)) by {
        assert Unmarked(w.grid[n.y][n.x]) == Unmarked(g0[n.y][n.x]);
      }
      ConnectedIsInterior(lines, g0, n.y, n.x, Opposite(n.prev));
    } else if r.failure.OutOfRange? {
      StepChoice(w);
      var d := r.failure.dir;
      assert Has(g0[w.y][w.x], d) by {
        assert Unmarked(w.grid[w.y][w.x]) == Unmarked(g0[w.y][w.x]);
      }
      OutsideNeedsRagged(lines, g0, w.y, w.x, d);
    }
  }

  /** On a fenced grid no connector test indexes outside the grid. */
  lemma StepNeverOutside(g0: Maze, w: Walker)
    requires Fenced(g0) && SameShape(w.grid, g0) && InBounds(w.grid, w.y, w.x)
    ensures !(Step(w).Stopped? && Step(w).failure.OutOfRange?)
  {
    StepChoice(w);
    assert Unmarked(w.grid[w.y][w.x]) == Unmarked(g0[w.y][w.x]);
  }

  /** On a padded rectangular grid the walk never indexes outside the grid:
      it ends on an entrance, runs out of budget, or finds no continuation. */
  lemma {:induction false} RunNeverOutOfRange(g0: Maze, w: Walker, fuel: nat)
    requires Fenced(g0)
    requires SameShape(w.grid, g0) && InBounds(w.grid, w.y, w.x)
    ensures Run(w, fuel).Panic? ==> Run(w, fuel).failure.NoConnection?
    decreases fuel
  {
    if fuel > 0 {
      var r := Step(w);
      StepNeverOutside(g0, w);
      if r.Continue? {
        MarkedShape(g0, w.grid, w.y, w.x, w.steps);
        RunNeverOutOfRange(g0, r.next, fuel - 1);
      }
    }
  }
}
