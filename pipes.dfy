/** Tiles of the pipe maze: the four compass directions of travel, the
    connector record built from one maze symbol, and the empty border tile. */
module Pipes {

  /** The direction of the last move; None is the sentinel before the first move. */
  datatype Direction = Up | Down | Left | Right | None

  /** A grid position as (row, column). */
  type Pos = (int, int)

  /** One maze cell. `steps` is the step count written when the walker leaves
      the cell (a usize in the source, unbounded here). */
  datatype Pipe = Pipe(
    rawChar: char,
    connUp: bool,
    connDown: bool,
    connLeft: bool,
    connRight: bool,
    entrance: bool,
    steps: nat)

  function Opposite(d: Direction): (o: Direction)
    ensures d != None ==> o != None && o != d
    ensures d == None <==> o == None
  {
    match d
    case Up => Down
    case Down => Up
    case Left => Right
    case Right => Left
    case None => None
  }

  /** Whether tile `p` has a connector on side `d` (no tile connects towards None). */
  function Has(p: Pipe, d: Direction): bool
  {
    match d
    case Up => p.connUp
    case Down => p.connDown
    case Left => p.connLeft
    case Right => p.connRight
    case None => false
  }

  /** The number of connectors of a tile. */
  function Degree(p: Pipe): nat
  {
    (if p.connUp then 1 else 0) + (if p.connDown then 1 else 0) +
    (if p.connLeft then 1 else 0) + (if p.connRight then 1 else 0)
  }

  /** The position one move away in direction `d` (rows grow downwards). */
  function Shift(p: Pos, d: Direction): (q: Pos)
    ensures d != None ==> q != p
  {
    match d
    case Up => (p.0 - 1, p.1)
    case Down => (p.0 + 1, p.1)
    case Left => (p.0, p.1 - 1)
    case Right => (p.0, p.1 + 1)
    case None => p
  }

  /** Decodes one maze symbol into a tile (Pipe::from_char). */
  function FromChar(c: char): (p: Pipe)
    ensures p.rawChar == c && p.steps == 0
    ensures p.connUp <==> c == '|' || c == 'L' || c == 'J' || c == 'S'
    ensures p.connDown <==> c == '|' || c == '7' || c == 'F' || c == 'S'
    ensures p.connLeft <==> c == '-' || c == 'J' || c == '7' || c == 'S'
    ensures p.connRight <==> c == '-' || c == 'L' || c == 'F' || c == 'S'
    ensures p.entrance <==> c == 'S'
    ensures p.entrance ==> Degree(p) == 4
    ensures !p.entrance ==> Degree(p) == 0 || Degree(p) == 2
  {
    match c
    case '|' => Pipe(c, true, true, false, false, false, 0)
    case '-' => Pipe(c, false, false, true, true, false, 0)
    case 'L' => Pipe(c, true, false, false, true, false, 0)
    case 'J' => Pipe(c, true, false, true, false, false, 0)
    case '7' => Pipe(c, false, true, true, false, false, 0)
    case 'F' => Pipe(c, false, true, false, true, false, 0)
    case 'S' => Pipe(c, true, true, true, true, true, 0)
    case _ => Pipe(c, false, false, false, false, false, 0)
  }

  /** The empty tile used for the border (Pipe::new). */
  function Empty(): (p: Pipe)
    ensures p == FromChar('.')
    ensures Degree(p) == 0 && !p.entrance
    ensures forall d :: !Has(p, d)
  {
    Pipe('.', false, false, false, false, false, 0)
  }

  /** A tile with at most two connectors has no connector besides two it is known to have. */
  lemma OnlyTwoConnectors(p: Pipe, a: Direction, b: Direction)
    requires Degree(p) <= 2
    requires a != b && Has(p, a) && Has(p, b)
    ensures forall e :: Has(p, e) ==> e == a || e == b
  {
  }

  /** Moving one way and then the opposite way returns to the start. */
  lemma ShiftBack(p: Pos, d: Direction)
    ensures Shift(Shift(p, d), Opposite(d)) == p
  {
  }

  /** Distinct directions move to distinct positions. */
  lemma ShiftInjective(p: Pos, a: Direction, b: Direction)
    ensures Shift(p, a) == Shift(p, b) ==> a == b
  {
  }
}
