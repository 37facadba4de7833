/** Why the trace loop ends. Apart from entrances, no tile has more than two
    connectors, and the walker never turns back. So until it reaches an
    entrance it never enters a cell twice, and the number of moves is bounded
    by the number of cells. Along the way every departed cell records the
    step count at which it was left. */
module Termination {
  import opened Pipes
  import opened Grid
  import opened Walk

  /** The two start cells the source can produce: the entrance found, or the
      corner (0, 0) of the padded grid, which has no connector. */
  predicate StartOk(p: Pipe)
  {
    p.entrance || Degree(p) == 0
  }

  /** No position occurs twice in `path`. */
  ghost predicate Distinct(path: seq<Pos>)
  {
    forall p :: multiset(path)[p] <= 1
  }

  /** Two different places of a distinct path hold different positions. */
  lemma DistinctApart(path: seq<Pos>, i: int, j: int)
    requires 0 <= i < j < |path|
    ensures Distinct(path) ==> path[i] != path[j]
  {
    if path[i] == path[j] {
      assert path == path[..j] + path[j..];
      assert path[i] in multiset(path[..j]) && path[j] in multiset(path[j..]) by {
        assert path[..j][i] == path[i] && path[j..][0] == path[j];
      }
      assert multiset(path)[path[i]] == multiset(path[..j])[path[i]] + multiset(path[j..])[path[i]];
    }
  }

  /** `q` is one move away from `p`. */
  predicate Adjacent(p: Pos, q: Pos)
  {
    q == Shift(p, Up) || q == Shift(p, Down) || q == Shift(p, Left) || q == Shift(p, Right)
  }

  /** Positions `i` and `i + 1` of `path` are one move apart. */
  predicate Consecutive(path: seq<Pos>, i: int)
    requires 0 <= i < |path| - 1
  {
    Adjacent(path[i], path[i + 1])
  }

  /** Each position of `path` is one move away from the one before it. */
  ghost predicate Chain(path: seq<Pos>)
  {
    forall i :: 0 <= i < |path| - 1 ==> Consecutive(path, i)
  }

  /** A chain followed by a move from its last position is still a chain. */
  lemma ChainExtends(path: seq<Pos>, q: Pos)
    requires Chain(path) && |path| >= 1 && Adjacent(path[|path| - 1], q)
    ensures Chain(path + [q])
  {
    var path' := path + [q];
    forall i | 0 <= i < |path'| - 1
      ensures Consecutive(path', i)
    {
      if i < |path| - 1 {
        assert Consecutive(path, i);
        assert path'[i] == path[i] && path'[i + 1] == path[i + 1];
      } else {
        assert path'[i] == path[|path| - 1] && path'[i + 1] == q;
      }
    }
  }

  /** Every step count in `h` is that of the departure from a cell of
      `trail`: the i-th cell of the trail holds i, all other cells are as in `g0`. */
  ghost predicate Recorded(g0: Maze, h: Maze, trail: seq<Pos>)
  {
    |h| == |g0| && (forall y :: 0 <= y < |g0| ==> |h[y]| == |g0[y]|) &&
    (forall i :: 0 <= i < |trail| ==>
      InBounds(g0, trail[i].0, trail[i].1) &&
      h[trail[i].0][trail[i].1] == g0[trail[i].0][trail[i].1].(steps := i)) &&
    forall y, x :: InBounds(g0, y, x) && (y, x) !in trail ==> h[y][x] == g0[y][x]
  }

  /** Cell j of the path, when not an entrance, connects only to its
      neighbours on the path. */
  ghost predicate Linked(g0: Maze, path: seq<Pos>, j: int)
  {
    1 <= j < |path| - 1 && InBounds(g0, path[j].0, path[j].1) &&
    (At(g0, path[j]).entrance ||
     forall d :: Has(At(g0, path[j]), d) ==> Shift(path[j], d) == path[j - 1] || Shift(path[j], d) == path[j + 1])
  }

  /** The walker `w` has visited the cells of `path` in order, starting on `g0`. */
  ghost predicate PathInv(g0: Maze, w: Walker, path: seq<Pos>)
  {
    SameShape(w.grid, g0) &&
    |path| >= 1 && |path| == w.steps + 1 &&
    (forall i :: 0 <= i < |path| ==> InBounds(g0, path[i].0, path[i].1)) &&
    Distinct(path) && Chain(path) &&
    path[|path| - 1] == (w.y, w.x) &&
    (w.prev == None <==> |path| == 1) &&
    StartOk(At(g0, path[0])) &&
    (|path| >= 2 ==>
      Shift(path[|path| - 2], w.prev) == path[|path| - 1] &&
      Has(At(g0, path[|path| - 1]), Opposite(w.prev))) &&
    (forall j :: 2 <= j < |path| ==> !At(g0, path[j]).entrance) &&
    (forall j :: 1 <= j < |path| - 1 ==> Linked(g0, path, j)) &&
    Recorded(g0, w.grid, path[..|path| - 1])
  }

  lemma CellsMember(g: Maze, y: int, x: int)
    requires InBounds(g, y, x)
    ensures (y, x) in Cells(g)
  {
  }

  /** A path of distinct cells taken from a set is no longer than the set is large. */
  lemma {:induction false} DistinctFits(s: seq<Pos>, cells: set<Pos>)
    requires Distinct(s)
    requires forall i :: 0 <= i < |s| ==> s[i] in cells
    ensures |s| <= |cells|
  {
    if |s| > 0 {
      var t := s[|s| - 1];
      var rest := s[..|s| - 1];
      assert s == rest + [t];
      assert multiset(s) == multiset(rest) + multiset{t};
      forall p
        ensures multiset(rest)[p] <= 1
      {
        assert multiset(s)[p] == multiset(rest)[p] + multiset{t}[p];
      }
      forall i | 0 <= i < |rest|
        ensures rest[i] in cells - {t}
      {
        DistinctApart(s, i, |s| - 1);
      }
      DistinctFits(rest, cells - {t});
    }
  }

  /** The path never holds more positions than the grid has cells. */
  lemma PathFits(g0: Maze, w: Walker, path: seq<Pos>)
    requires PathInv(g0, w, path)
    ensures |path| <= |Cells(g0)|
  {
    forall i | 0 <= i < |path|
      ensures path[i] in Cells(g0)
    {
      CellsMember(g0, path[i].0, path[i].1);
    }
    DistinctFits(path, Cells(g0));
  }

  /** The target of a move is new to the path, unless the move arrives on an entrance. */
  lemma MoveIsFresh(g0: Maze, w: Walker, n: Walker, path: seq<Pos>)
    requires WellFormed(g0) && PathInv(g0, w, path)
    requires Moves(w, n) && (w.prev != None ==> !w.grid[n.y][n.x].entrance)
    ensures forall j :: 0 <= j < |path| ==> path[j] != (n.y, n.x)
  {
    var d := n.prev;
    var c := |path| - 1;
    var cur := path[c];
    var q := (n.y, n.x);
    assert Has(At(g0, q), Opposite(d)) && At(g0, q).entrance == w.grid[n.y][n.x].entrance by {
      assert Unmarked(w.grid[n.y][n.x]) == Unmarked(g0[n.y][n.x]);
    }
    ShiftBack(cur, d);
    if c >= 1 {
      CandidatesSound(w.prev);
      ShiftBack(path[c - 1], w.prev);
      ShiftInjective(cur, d, Opposite(w.prev));
    }
    forall j | 0 <= j < |path|
      ensures path[j] != q
    {
      if 1 <= j < c - 1 {
        LinkedAway(g0, path, j, q, Opposite(d));
      }
    }
  }

  /** A non-entrance tile with a connector pointing at the last cell of a
      distinct path is not among the cells strictly inside it that do not
      neighbour that last cell. */
  lemma LinkedAway(g0: Maze, path: seq<Pos>, j: int, q: Pos, e: Direction)
    requires Distinct(path) && 1 <= j && j + 1 < |path| - 1 && Linked(g0, path, j)
    requires InBounds(g0, q.0, q.1) && !At(g0, q).entrance && Has(At(g0, q), e)
    requires Shift(q, e) == path[|path| - 1]
    ensures path[j] != q
  {
    if path[j] == q {
      DistinctApart(path, j - 1, |path| - 1);
      DistinctApart(path, j + 1, |path| - 1);
    }
  }

  /** Appending a position that is new to a distinct path keeps it distinct. */
  lemma DistinctAppend(path: seq<Pos>, q: Pos)
    requires Distinct(path) && forall j :: 0 <= j < |path| ==> path[j] != q
    ensures Distinct(path + [q])
  {
    assert multiset(path + [q]) == multiset(path) + multiset{q};
    assert q !in multiset(path);
  }

  /** After a move, every non-entrance cell strictly inside the longer path
      still connects only to its path neighbours. */
  lemma LinksExtend(g0: Maze, w: Walker, n: Walker, path: seq<Pos>)
    requires WellFormed(g0) && PathInv(g0, w, path)
    requires Moves(w, n) && (w.prev != None ==> !w.grid[n.y][n.x].entrance)
    ensures forall j :: 1 <= j < |path| ==> Linked(g0, path + [(n.y, n.x)], j)
  {
    var c := |path| - 1;
    if c >= 1 {
      assert Has(At(g0, path[c]), n.prev) by {
        assert Unmarked(w.grid[w.y][w.x]) == Unmarked(g0[w.y][w.x]);
      }
      LeavingLinked(g0, path, w.prev, n.prev, (n.y, n.x));
    }
    forall j | 1 <= j < c
      ensures Linked(g0, path + [(n.y, n.x)], j)
    {
      LinkedKept(g0, path, (n.y, n.x), j);
    }
  }

  /** A tile entered by a move in direction `back` and left in another
      direction `d` connects only to the cell it was entered from and to
      the cell `q` it is left for. */
  lemma LeavingLinked(g0: Maze, path: seq<Pos>, back: Direction, d: Direction, q: Pos)
    requires WellFormed(g0) && |path| >= 2
    requires InBounds(g0, path[|path| - 1].0, path[|path| - 1].1)
    requires Shift(path[|path| - 2], back) == path[|path| - 1]
    requires Has(At(g0, path[|path| - 1]), Opposite(back)) && Has(At(g0, path[|path| - 1]), d)
    requires d != Opposite(back) && Shift(path[|path| - 1], d) == q
    ensures Linked(g0, path + [q], |path| - 1)
  {
    var c := |path| - 1;
    var cur := path[c];
    if !At(g0, cur).entrance {
      OnlyTwoConnectors(At(g0, cur), Opposite(back), d);
      ShiftBack(path[c - 1], back);
      var path' := path + [q];
      assert path'[c - 1] == path[c - 1] && path'[c] == cur && path'[c + 1] == q;
    }
  }

  /** Appending a cell keeps the links of the cells that already had both neighbours. */
  lemma LinkedKept(g0: Maze, path: seq<Pos>, q: Pos, j: int)
    ensures Linked(g0, path, j) ==> Linked(g0, path + [q], j)
  {
    if Linked(g0, path, j) {
      var path' := path + [q];
      assert path'[j - 1] == path[j - 1] && path'[j] == path[j] && path'[j + 1] == path[j + 1];
    }
  }

  /** One move that does not end the walk extends the path by the cell entered. */
  lemma StepExtendsPath(g0: Maze, w: Walker, n: Walker, path: seq<Pos>)
    requires WellFormed(g0) && PathInv(g0, w, path)
    requires Moves(w, n) && (w.prev != None ==> !w.grid[n.y][n.x].entrance)
    ensures PathInv(g0, n, path + [(n.y, n.x)])
  {
    var q := (n.y, n.x);
    var path' := path + [q];
    assert SameShape(n.grid, g0) by {
      MarkedShape(g0, w.grid, w.y, w.x, w.steps);
    }
    assert Chain(path') by {
      ChainExtends(path, q);
    }
    assert Distinct(path') by {
      MoveIsFresh(g0, w, n, path);
      DistinctAppend(path, q);
    }
    assert forall j :: 1 <= j < |path'| - 1 ==> Linked(g0, path', j) by {
      LinksExtend(g0, w, n, path);
    }
    assert Recorded(g0, n.grid, path'[..|path'| - 1]) by {
      RecordedExtends(g0, w, path);
      assert path'[..|path'| - 1] == path;
    }
    assert InBounds(g0, q.0, q.1) && Has(At(g0, q), Opposite(n.prev)) &&
           (|path| >= 2 ==> !At(g0, q).entrance) by {
      assert Unmarked(w.grid[n.y][n.x]) == Unmarked(g0[n.y][n.x]);
    }
    forall i | 0 <= i < |path'|
      ensures InBounds(g0, path'[i].0, path'[i].1)
      ensures i >= 2 ==> !At(g0, path'[i]).entrance
    {
      if i < |path| {
        assert path'[i] == path[i];
      }
    }
    assert path'[|path'| - 1] == (n.y, n.x);
    assert path'[0] == path[0];
    assert Shift(path'[|path'| - 2], n.prev) == path'[|path'| - 1];
  }

  /** Writing the departure step into the current cell extends the record by that cell. */
  lemma RecordedExtends(g0: Maze, w: Walker, path: seq<Pos>)
    requires PathInv(g0, w, path)
    ensures Recorded(g0, Mark(w.grid, w.y, w.x, w.steps), path)
  {
    var c := |path| - 1;
    var trail := path[..c];
    var h := Mark(w.grid, w.y, w.x, w.steps);
    assert InBounds(w.grid, w.y, w.x);
    MarkChangesOneCell(w.grid, w.y, w.x, w.steps);
    assert (w.y, w.x) !in trail by {
      forall i | 0 <= i < |trail|
        ensures trail[i] != (w.y, w.x)
      {
        assert trail[i] == path[i];
        DistinctApart(path, i, c);
      }
    }
    forall i | 0 <= i < |path|
      ensures h[path[i].0][path[i].1] == g0[path[i].0][path[i].1].(steps := i)
    {
      if i < c {
        assert path[i] == trail[i];
      }
    }
    forall y, x | InBounds(g0, y, x) && (y, x) !in path
      ensures h[y][x] == g0[y][x]
    {
      assert forall i :: 0 <= i < |trail| ==> trail[i] == path[i];
    }
  }

  /** A move that does not end the walk extends the path by the cell entered. */
  lemma ContinueExtendsPath(g0: Maze, w: Walker, path: seq<Pos>)
    ensures WellFormed(g0) && PathInv(g0, w, path) && Step(w).Continue? ==>
      PathInv(g0, Step(w).next, path + [(Step(w).next.y, Step(w).next.x)])
  {
    if WellFormed(g0) && PathInv(g0, w, path) && Step(w).Continue? {
      StepExtendsPath(g0, w, Step(w).next, path);
    }
  }

  /** A walker that has followed `path` can continue for at most as many
      moves as there are cells it has not visited. */
  lemma {:induction false} ContinuesBound(g0: Maze, w: Walker, path: seq<Pos>, k: nat)
    ensures WellFormed(g0) && PathInv(g0, w, path) ==>
      InBounds(w.grid, w.y, w.x) && (Continues(w, k) ==> |path| + k <= |Cells(g0)|)
    decreases k
  {
    if WellFormed(g0) && PathInv(g0, w, path) {
      if k == 0 {
        PathFits(g0, w, path);
      } else if Continues(w, k) {
        ContinuesUnfold(w, k);
        var q := (Step(w).next.y, Step(w).next.x);
        ContinueExtendsPath(g0, w, path);
        ContinuesBound(g0, Step(w).next, path + [q], k - 1);
      }
    }
  }

  /** A sequence that starts with `b + [q]` starts with `b`. */
  lemma PrefixOfExtension(b: seq<Pos>, q: Pos, a: seq<Pos>)
    requires |b| + 1 <= |a| && a[..|b| + 1] == b + [q]
    ensures a[..|b|] == b
  {
    assert a[..|b|] == a[..|b| + 1][..|b|];
  }

  /** From a walker that has followed `path`, the walk ends before the budget
      runs out, provided the budget covers every cell not yet visited. */
  lemma RunFromPath(g0: Maze, w: Walker, path: seq<Pos>, fuel: nat)
    requires WellFormed(g0) && PathInv(g0, w, path)
    requires fuel + |path| > |Cells(g0)|
    ensures InBounds(w.grid, w.y, w.x)
    ensures !Run(w, fuel).OutOfFuel?
  {
    ContinuesBound(g0, w, path, fuel);
    OutOfFuelContinues(w, fuel);
  }

  /** The positions a trail must have to extend `path` to the end of a walk. */
  ghost predicate Extends(g0: Maze, path: seq<Pos>, n: Walker, trail: seq<Pos>)
  {
    |trail| == n.steps && |path| <= |trail| && trail[..|path|] == path &&
    Distinct(trail) && Chain(trail + [(n.y, n.x)]) && Recorded(g0, n.grid, trail)
  }

  /** A move that ends the walk leaves the path itself as the trail. */
  lemma ArrivalExtends(g0: Maze, w: Walker, path: seq<Pos>)
    ensures PathInv(g0, w, path) && Ends(w, 0) ==> Extends(g0, path, Final(w, 0), path)
  {
    if PathInv(g0, w, path) && Ends(w, 0) {
      var n := Final(w, 0);
      StepMoves(w);
      ChainExtends(path, (n.y, n.x));
      RecordedExtends(g0, w, path);
      assert path[..|path|] == path;
    }
  }


  /** A trail that extends a longer path extends its prefix too. */
  lemma ExtendsPrefix(g0: Maze, path: seq<Pos>, q: Pos, n: Walker, trail: seq<Pos>)
    ensures Extends(g0, path + [q], n, trail) ==> Extends(g0, path, n, trail)
  {
    if Extends(g0, path + [q], n, trail) {
      PrefixOfExtension(path, q, trail);
    }
  }

  /** The trail of a walk that makes `k` continuing moves and then arrives. */
  lemma {:induction false} TrailAfter(g0: Maze, w: Walker, path: seq<Pos>, k: nat) returns (trail: seq<Pos>)
    ensures WellFormed(g0) && PathInv(g0, w, path) && Ends(w, k) ==>
      Extends(g0, path, Final(w, k), trail)
    decreases k
  {
    trail := path;
    if WellFormed(g0) && PathInv(g0, w, path) && Ends(w, k) {
      if k == 0 {
        ArrivalExtends(g0, w, path);
      } else {
        EndsUnfold(w, k);
        var q := (Step(w).next.y, Step(w).next.x);
        ContinueExtendsPath(g0, w, path);
        trail := TrailAfter(g0, Step(w).next, path + [q], k - 1);
        ExtendsPrefix(g0, path, q, Final(w, k), trail);
      }
    }
  }

  /** When the walk from a walker that has followed `path` ends on an
      entrance, the cells left along the whole walk are distinct and hold
      their step numbers. */
  lemma RecordFromPath(g0: Maze, w: Walker, path: seq<Pos>, fuel: nat)
    requires WellFormed(g0) && PathInv(g0, w, path)
    ensures InBounds(w.grid, w.y, w.x)
    ensures Run(w, fuel).Done? ==> exists trail :: Extends(g0, path, Run(w, fuel).last, trail)
  {
    assert InBounds(w.grid, w.y, w.x);
    if Run(w, fuel).Done? {
      var k := DoneAfter(w, fuel);
      var trail := TrailAfter(g0, w, path, k);
    }
  }

  /** The walker at the start has followed the one-cell path of its start cell. */
  lemma StartPath(g: Maze, sy: nat, sx: nat)
    requires InBounds(g, sy, sx) && StartOk(g[sy][sx])
    ensures PathInv(g, Start(g, sy, sx), [(sy, sx)])
  {
    var path: seq<Pos> := [(sy, sx)];
    assert Recorded(g, g, path[..0]);
  }

  /** From the found entrance, or from the empty corner when there is none,
      the walk ends, on an entrance or in a panic, within as many moves as
      the grid has cells. */
  lemma WalkTerminates(g: Maze, sy: nat, sx: nat)
    requires WellFormed(g) && InBounds(g, sy, sx) && StartOk(g[sy][sx])
    ensures !Run(Start(g, sy, sx), |Cells(g)|).OutOfFuel?
  {
    StartPath(g, sy, sx);
    RunFromPath(g, Start(g, sy, sx), [(sy, sx)], |Cells(g)|);
  }

  /** When the walk completes, the step counts in the grid are 0, 1, ... along
      a path of distinct cells from the start, each one move away from the one
      before, whose last cell is one move away from the cell arrived at; every
      other cell is unchanged. */
  lemma WalkEnds(g: Maze, sy: nat, sx: nat)
    requires WellFormed(g) && InBounds(g, sy, sx) && StartOk(g[sy][sx])
    ensures Run(Start(g, sy, sx), |Cells(g)|).Done? ==>
      var n := Run(Start(g, sy, sx), |Cells(g)|).last;
      exists trail :: |trail| == n.steps && |trail| >= 1 && trail[0] == (sy, sx) &&
        Distinct(trail) && Chain(trail + [(n.y, n.x)]) && Recorded(g, n.grid, trail)
  {
    var w := Start(g, sy, sx);
    var path: seq<Pos> := [(sy, sx)];
    StartPath(g, sy, sx);
    RecordFromPath(g, w, path, |Cells(g)|);
    if Run(w, |Cells(g)|).Done? {
      var n := Run(w, |Cells(g)|).last;
      var trail :| Extends(g, path, n, trail);
      assert trail[0] == trail[..1][0] == (sy, sx);
    }
  }
}
