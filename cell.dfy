/** The occupant of a board cell (othello/Cell.java). A cell that holds no
    occupant is not a Cell: the board simply has no entry for it. */
module Cells {
  import opened OthelloOption

  datatype Cell = White | Black | Hole

  /** The sign written for each occupant. */
  function Sign(c: Cell): char
  {
    match c
    case White => 'W'
    case Black => 'B'
    case Hole => '#'
  }

  /** The sign of a free cell in a board layout. */
  const FREE_SIGN: char := '-'

  /** `isCell`: the character is one of the three occupant signs. */
  predicate IsCell(ch: char)
  {
    ch in "WB#"
  }

  /** `isFree`: the character is the free-cell sign. */
  predicate IsFree(ch: char)
  {
    ch == FREE_SIGN
  }

  /** `asCell`: the occupant written with this sign; any other character is
      rejected (the source throws). */
  function AsCell(ch: char): (r: Option<Cell>)
    ensures r.Some? <==> IsCell(ch)
    ensures r.Some? ==> Sign(r.value) == ch
  {
    match ch
    case 'B' => Some(Black)
    case 'W' => Some(White)
    case '#' => Some(Hole)
    case _ => None
  }

  /** Reading a sign gives back the occupant it was written for. */
  lemma AsCellOfSign(c: Cell)
    ensures AsCell(Sign(c)) == Some(c)
  {
  }

  /** No character is both an occupant sign and the free sign. */
  lemma SignsDisjoint(ch: char)
    ensures !(IsCell(ch) && IsFree(ch))
  {
  }
}
