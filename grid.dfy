/** The playing field: a GRID_SIZE × GRID_SIZE torus of integer cells and the
    four directions the snake can move in. */
module Grid {

  /** Cells per side of the board. */
  const GRID_SIZE: int := 30

  datatype Position = Pos(x: int, y: int)

  predicate InGrid(p: Position) {
    0 <= p.x < GRID_SIZE && 0 <= p.y < GRID_SIZE
  }

  datatype Direction = Up | Down | Left | Right

  /** The direction that would turn the snake back onto itself. */
  function Opposite(d: Direction): (r: Direction)
    ensures r != d
  {
    match d
    case Up => Down
    case Down => Up
    case Left => Right
    case Right => Left
  }

  lemma OppositeInvolutive(d: Direction)
    ensures Opposite(Opposite(d)) == d
  {
  }

  /** JavaScript's `a % GRID_SIZE`: it truncates toward zero, so the remainder
      carries the sign of `a` (unlike Dafny's Euclidean `%`). */
  function Rem(a: int): (r: int)
    ensures a >= 0 ==> 0 <= r < GRID_SIZE
    ensures a <= 0 ==> -GRID_SIZE < r <= 0
    ensures (a - r) % GRID_SIZE == 0
  {
    if a >= 0 then a % GRID_SIZE else -((-a) % GRID_SIZE)
  }

  /** The cell the head moves into: one step in `d`, wrapping around both
      axes (UP is y - 1, DOWN y + 1, LEFT x - 1, RIGHT x + 1). */
  function NextHead(p: Position, d: Direction): (r: Position)
    ensures InGrid(p) ==> InGrid(r) && r != p
    ensures (d == Up || d == Down) ==> r.x == p.x
    ensures (d == Left || d == Right) ==> r.y == p.y
  {
    match d
    case Up => Pos(p.x, Rem(p.y - 1 + GRID_SIZE))
    case Down => Pos(p.x, Rem(p.y + 1))
    case Left => Pos(Rem(p.x - 1 + GRID_SIZE), p.y)
    case Right => Pos(Rem(p.x + 1), p.y)
  }

  /** One step in `d` on the plane, ignoring the edges. */
  function Shift(p: Position, d: Direction): Position {
    match d
    case Up => Pos(p.x, p.y - 1)
    case Down => Pos(p.x, p.y + 1)
    case Left => Pos(p.x - 1, p.y)
    case Right => Pos(p.x + 1, p.y)
  }

  /** Reference definition of a move on the torus, with the edge spelled out:
      a step off one edge re-enters at the opposite edge, any other step is
      the plain one. */
  function StepOnTorus(p: Position, d: Direction): Position {
    var q := Shift(p, d);
    if InGrid(q) then q
    else match d
      case Up => Pos(p.x, GRID_SIZE - 1)
      case Down => Pos(p.x, 0)
      case Left => Pos(GRID_SIZE - 1, p.y)
      case Right => Pos(0, p.y)
  }

  /** The modular arithmetic of the game agrees with the reference move on
      every cell of the board. */
  lemma NextHeadIsStepOnTorus(p: Position, d: Direction)
    requires InGrid(p)
    ensures NextHead(p, d) == StepOnTorus(p, d)
  {
  }

  /** A move can always be undone by a move in the opposite direction, also
      across an edge. */
  lemma NextHeadReversible(p: Position, d: Direction)
    requires InGrid(p)
    ensures NextHead(NextHead(p, d), Opposite(d)) == p
  {
  }
}
