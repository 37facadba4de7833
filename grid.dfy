/** The maze loader: decoding the text lines, padding the grid with a border
    of empty tiles, and the row-major search for the entrance. */
module Grid {
  import opened Pipes
  import opened Panics

  /** The maze as rows of tiles (a Vec<Vec<Pipe>> in the source; rows may differ in length). */
  type Maze = seq<seq<Pipe>>

  predicate InBounds(g: Maze, y: int, x: int)
  {
    0 <= y < |g| && 0 <= x < |g[y]|
  }

  /** The tile at position `p`. */
  function At(g: Maze, p: Pos): Pipe
    requires InBounds(g, p.0, p.1)
  {
    g[p.0][p.1]
  }

  /** Every position of the grid. */
  ghost function Cells(g: Maze): set<Pos>
  {
    set y, x | 0 <= y < |g| && 0 <= x < |g[y]| :: (y, x)
  }

  /** All lines have the length of the first one. */
  predicate Rectangular(lines: seq<string>)
  {
    forall y :: 0 <= y < |lines| ==> |lines[y]| == |lines[0]|
  }

  /** Every tile either is an entrance or has at most two connectors. */
  ghost predicate WellFormed(g: Maze)
  {
    forall y, x :: InBounds(g, y, x) ==> g[y][x].entrance || Degree(g[y][x]) <= 2
  }

  predicate AllEmpty(row: seq<Pipe>)
  {
    forall x :: 0 <= x < |row| ==> row[x] == Empty()
  }

  /** `g` is the decoded input `lines` with one empty row above and below --
      as wide as the first line -- and one empty tile at each end of every row. */
  predicate PaddedFrom(lines: seq<string>, g: Maze)
  {
    |lines| > 0 && |g| == |lines| + 2 &&
    |g[0]| == |lines[0]| + 2 && |g[|g| - 1]| == |lines[0]| + 2 &&
    AllEmpty(g[0]) && AllEmpty(g[|g| - 1]) &&
    forall y :: 1 <= y <= |lines| ==>
      |g[y]| == |lines[y - 1]| + 2 && g[y][0] == Empty() && g[y][|g[y]| - 1] == Empty() &&
      forall x :: 1 <= x <= |lines[y - 1]| ==> g[y][x] == FromChar(lines[y - 1][x - 1])
  }

  /** Decodes the lines and adds the border of empty tiles; an input without
      any line has no first row to take the border width from. */
  method Pad(lines: seq<string>) returns (r: Result<Maze>)
    ensures |lines| == 0 <==> r.Err?
    ensures r.Err? ==> r.error == NoRows
    ensures r.Ok? ==> PaddedFrom(lines, r.value)
  {
    if |lines| == 0 {
      return Err(NoRows);
    }
    var maze: Maze := seq(|lines|, i requires 0 <= i < |lines| =>
      seq(|lines[i]|, j requires 0 <= j < |lines[i]| => FromChar(lines[i][j])));
    var emptyRow := seq(|maze[0]|, _ => Empty());
    maze := [emptyRow] + maze;
    maze := maze + [emptyRow];
    ghost var before := maze;
    var i := 0;
    while i < |maze|
      invariant 0 <= i <= |maze| == |before|
      invariant forall k :: 0 <= k < i ==> maze[k] == [Empty()] + before[k] + [Empty()]
      invariant forall k :: i <= k < |maze| ==> maze[k] == before[k]
    {
      maze := maze[i := [Empty()] + maze[i] + [Empty()]];
      i := i + 1;
    }
    return Ok(maze);
  }

  /** A padded grid is determined by its input lines. */
  lemma PaddedUnique(lines: seq<string>, g: Maze, h: Maze)
    requires PaddedFrom(lines, g) && PaddedFrom(lines, h)
    ensures g == h
  {
    forall y | 0 <= y < |g|
      ensures g[y] == h[y]
    {
      forall x | 0 <= x < |g[y]|
        ensures g[y][x] == h[y][x]
      {
        if 1 <= y <= |lines| && 1 <= x <= |lines[y - 1]| {
          assert g[y][x] == FromChar(lines[y - 1][x - 1]);
        }
      }
    }
  }

  /** (sy, sx) is where the entrance search stops: an entrance with no entrance
      before it in row-major order, or (0, 0) when the grid has no entrance. */
  ghost predicate FirstEntrance(g: Maze, sy: nat, sx: nat)
  {
    ((exists y, x :: InBounds(g, y, x) && g[y][x].entrance) ==>
      InBounds(g, sy, sx) && g[sy][sx].entrance) &&
    (forall y, x :: InBounds(g, y, x) && (y < sy || (y == sy && x < sx)) ==> !g[y][x].entrance) &&
    ((forall y, x :: InBounds(g, y, x) ==> !g[y][x].entrance) ==> sy == 0 && sx == 0)
  }

  /** The entrance search has only one possible answer. */
  lemma FirstEntranceUnique(g: Maze, sy: nat, sx: nat, ty: nat, tx: nat)
    requires FirstEntrance(g, sy, sx) && FirstEntrance(g, ty, tx)
    ensures sy == ty && sx == tx
  {
    if exists y, x :: InBounds(g, y, x) && g[y][x].entrance {
      assert InBounds(g, sy, sx) && g[sy][sx].entrance;
      assert InBounds(g, ty, tx) && g[ty][tx].entrance;
    }
  }

  /** Row-major search for the first entrance tile; (0, 0) when there is none. */
  method FindEntrance(g: Maze) returns (sy: nat, sx: nat)
    ensures FirstEntrance(g, sy, sx)
  {
    sy, sx := 0, 0;
    label searchRow:
    for y := 0 to |g|
      invariant sy == 0 && sx == 0
      invariant forall yy, xx :: InBounds(g, yy, xx) && yy < y ==> !g[yy][xx].entrance
    {
      for x := 0 to |g[y]|
        invariant sy == 0 && sx == 0
        invariant forall xx :: 0 <= xx < x ==> !g[y][xx].entrance
      {
        if g[y][x].entrance {
          sy, sx := y, x;
          break searchRow;
        }
      }
    }
  }

  /** A padded grid: every non-entrance tile has at most two connectors. */
  lemma PaddedWellFormed(lines: seq<string>, g: Maze)
    requires PaddedFrom(lines, g)
    ensures WellFormed(g)
  {
    forall y, x | InBounds(g, y, x)
      ensures g[y][x].entrance || Degree(g[y][x]) <= 2
    {
      if 1 <= y <= |lines| && 1 <= x <= |lines[y - 1]| {
        var c := lines[y - 1][x - 1];
        assert g[y][x] == FromChar(c);
      }
    }
  }

  /** In a padded grid every tile that has a connector lies strictly inside the
      border, i.e. it is the image of an input character. */
  lemma ConnectedIsInterior(lines: seq<string>, g: Maze, y: int, x: int, d: Direction)
    requires PaddedFrom(lines, g) && InBounds(g, y, x) && Has(g[y][x], d)
    ensures 1 <= y <= |lines| && 1 <= x <= |lines[y - 1]|
  {
  }

  /** In a padded grid a connector points outside the grid only vertically,
      onto a row too short for the column, which needs input lines of
      different lengths. */
  lemma OutsideNeedsRagged(lines: seq<string>, g: Maze, y: int, x: int, d: Direction)
    requires PaddedFrom(lines, g) && InBounds(g, y, x) && Has(g[y][x], d)
    ensures !InBounds(g, Shift((y, x), d).0, Shift((y, x), d).1) ==>
      (d == Up || d == Down) && !Rectangular(lines)
  {
    ConnectedIsInterior(lines, g, y, x, d);
    assert |g[y - 1]| == |lines[0]| + 2 || y - 1 == 0 || |g[y - 1]| == |lines[y - 2]| + 2;
    assert |g[y + 1]| == |lines[0]| + 2 || |g[y + 1]| == |lines[y]| + 2;
  }

  /** The start position in a padded grid with no entrance is an empty tile. */
  lemma CornerIsEmpty(lines: seq<string>, g: Maze)
    requires PaddedFrom(lines, g)
    ensures InBounds(g, 0, 0) && g[0][0] == Empty()
  {
  }

  /** A tile with its step count cleared: what the walk never changes. */
  function Unmarked(p: Pipe): (u: Pipe)
    ensures u.steps == 0 && u.entrance == p.entrance && u.rawChar == p.rawChar
    ensures forall d :: Has(u, d) == Has(p, d)
  {
    p.(steps := 0)
  }

  /** `h` has the rows, the row lengths and the tiles of `g`, up to step counts. */
  ghost predicate SameShape(g: Maze, h: Maze)
  {
    |g| == |h| && (forall y :: 0 <= y < |g| ==> |g[y]| == |h[y]|) &&
    forall y, x :: InBounds(g, y, x) ==> Unmarked(g[y][x]) == Unmarked(h[y][x])
  }

  /** All rows have one width, and every tile with a connector lies strictly
      inside the outermost rows and columns. */
  ghost predicate Fenced(g: Maze)
  {
    |g| >= 1 && (forall y :: 0 <= y < |g| ==> |g[y]| == |g[0]|) &&
    forall y, x, d :: InBounds(g, y, x) && Has(g[y][x], d) ==> 1 <= y < |g| - 1 && 1 <= x < |g[y]| - 1
  }

  /** Padding a rectangular input fences it. */
  lemma PaddedFenced(lines: seq<string>, g: Maze)
    requires PaddedFrom(lines, g) && Rectangular(lines)
    ensures Fenced(g)
  {
    forall y, x, d | InBounds(g, y, x) && Has(g[y][x], d)
      ensures 1 <= y < |g| - 1 && 1 <= x < |g[y]| - 1
    {
      ConnectedIsInterior(lines, g, y, x, d);
    }
  }

  /** No input character is the entrance symbol. */
  predicate NoEntranceSymbol(lines: seq<string>)
  {
    forall y, x :: 0 <= y < |lines| && 0 <= x < |lines[y]| ==> lines[y][x] != 'S'
  }

  /** An input without 'S' gives a padded grid without an entrance. */
  lemma PaddedNoEntrance(lines: seq<string>, g: Maze)
    requires PaddedFrom(lines, g) && NoEntranceSymbol(lines)
    ensures forall y, x :: InBounds(g, y, x) ==> !g[y][x].entrance
  {
    forall y, x | InBounds(g, y, x)
      ensures !g[y][x].entrance
    {
      if 1 <= y <= |lines| && 1 <= x <= |lines[y - 1]| {
        assert g[y][x] == FromChar(lines[y - 1][x - 1]);
      }
    }
  }
}
