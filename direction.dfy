/** The eight directions a scan can take (othello/Direction.java). */
module Directions {
  import opened Positions

  datatype Direction = Right | RightDown | Down | LeftDown | Left | LeftUp | Up | RightUp

  /** The column offset of a direction. */
  function Dx(d: Direction): int
  {
    match d
    case Right => 1
    case RightDown => 1
    case Down => 0
    case LeftDown => -1
    case Left => -1
    case LeftUp => -1
    case Up => 0
    case RightUp => 1
  }

  /** The row offset of a direction (rows grow downwards). */
  function Dy(d: Direction): int
  {
    match d
    case Right => 0
    case RightDown => 1
    case Down => 1
    case LeftDown => 1
    case Left => 0
    case LeftUp => -1
    case Up => -1
    case RightUp => -1
  }

  /** `apply`: the position one step from (x, y) in direction d. */
  function Apply(d: Direction, x: int, y: int): (p: Position)
    ensures p == Position(x + Dx(d), y + Dy(d))
    ensures -1 <= p.x - x <= 1 && -1 <= p.y - y <= 1
    ensures p != Position(x, y)
  {
    match d
    case Right => Position(x + 1, y)
    case RightDown => Position(x + 1, y + 1)
    case Down => Position(x, y + 1)
    case LeftDown => Position(x - 1, y + 1)
    case Left => Position(x - 1, y)
    case LeftUp => Position(x - 1, y - 1)
    case Up => Position(x, y - 1)
    case RightUp => Position(x + 1, y - 1)
  }

  /** `DIRECTIONS`, in the source's order. */
  const DIRECTIONS: seq<Direction> := [Right, RightDown, Down, LeftDown, Left, LeftUp, Up, RightUp]

  /** The direction pointing back. */
  function Opposite(d: Direction): Direction
  {
    match d
    case Right => Left
    case RightDown => LeftUp
    case Down => Up
    case LeftDown => RightUp
    case Left => Right
    case LeftUp => RightDown
    case Up => Down
    case RightUp => LeftDown
  }

  /** The list holds every direction once, and different directions have
      different offsets. */
  lemma DirectionsAreTheEightOffsets(d: Direction, e: Direction)
    ensures |DIRECTIONS| == 8 && d in DIRECTIONS
    ensures forall i, j :: 0 <= i < j < |DIRECTIONS| ==> DIRECTIONS[i] != DIRECTIONS[j]
    ensures d != e ==> (Dx(d), Dy(d)) != (Dx(e), Dy(e))
  {
  }

  /** The opposite direction is in the list and undoes a step. */
  lemma OppositeUndoesStep(d: Direction, x: int, y: int)
    ensures Opposite(d) in DIRECTIONS && Opposite(Opposite(d)) == d
    ensures var p := Apply(d, x, y); Apply(Opposite(d), p.x, p.y) == Position(x, y)
  {
  }

  /** The position n steps from p in direction d. */
  function Shift(p: Position, d: Direction, n: int): (q: Position)
  {
    match d
    case Right => Position(p.x + n, p.y)
    case RightDown => Position(p.x + n, p.y + n)
    case Down => Position(p.x, p.y + n)
    case LeftDown => Position(p.x - n, p.y + n)
    case Left => Position(p.x - n, p.y)
    case LeftUp => Position(p.x - n, p.y - n)
    case Up => Position(p.x, p.y - n)
    case RightUp => Position(p.x + n, p.y - n)
  }

  /** Steps add up, one step is `apply`, and steps in the opposite direction
      count backwards. */
  lemma ShiftLaws(p: Position, d: Direction, m: int, n: int)
    ensures Shift(p, d, 0) == p
    ensures Shift(Shift(p, d, m), d, n) == Shift(p, d, m + n)
    ensures Shift(p, d, 1) == Apply(d, p.x, p.y)
    ensures Shift(p, Opposite(d), n) == Shift(p, d, -n)
  {
    match d
    case Right =>
    case RightDown =>
    case Down =>
    case LeftDown =>
    case Left =>
    case LeftUp =>
    case Up =>
    case RightUp =>
  }

  /** Going k steps back from the m-th cell lands on the (m - k)-th. */
  lemma ShiftBack(p: Position, d: Direction, m: int, k: int)
    ensures Shift(Shift(p, d, m), Opposite(d), k) == Shift(p, d, m - k)
  {
    match d
    case Right =>
    case RightDown =>
    case Down =>
    case LeftDown =>
    case Left =>
    case LeftUp =>
    case Up =>
    case RightUp =>
  }
}
