/** The game board (othello/Board.java): a width x height grid whose
    occupied cells are kept in a sparse map; a position missing from the map
    is free. Boards are values: every change produces a new board. */
module Boards {
  import opened Cells
  import opened Positions

  const MAX_WIDTH: int := 26
  const MAX_HEIGHT: int := 98
  const MIN_WIDTH: int := 2
  const MIN_HEIGHT: int := 2

  datatype Board = Board(width: int, height: int, cells: map<Position, Cell>)

  /** `isInRange`: both coordinates lie between 1 and the board size. */
  predicate IsInRange(b: Board, p: Position)
  {
    p.x > 0 && p.x <= b.width && p.y > 0 && p.y <= b.height
  }

  /** `isFree`: in range and not occupied. */
  predicate IsFree(b: Board, p: Position)
  {
    IsInRange(b, p) && p !in b.cells
  }

  /** `isOfPlayer`: the position is occupied by the given cell. */
  predicate IsOfPlayer(b: Board, p: Position, player: Cell)
  {
    if p in b.cells then b.cells[p] == player else false
  }

  /** `isHole`. */
  predicate IsHole(b: Board, p: Position)
  {
    if p in b.cells then b.cells[p] == Hole else false
  }

  /** The board invariant the game keeps: every occupied position is in
      range. The constructor does not check it; every board the engine
      builds satisfies it. */
  ghost predicate Valid(b: Board)
  {
    forall p :: p in b.cells ==> IsInRange(b, p)
  }

  /** On a valid board every position is exactly one of: off the board,
      free, a hole, white, black. */
  lemma PositionKinds(b: Board, p: Position)
    requires Valid(b)
    ensures !IsInRange(b, p) ==> !IsFree(b, p) && !IsHole(b, p) && !IsOfPlayer(b, p, White) && !IsOfPlayer(b, p, Black)
    ensures IsInRange(b, p) ==>
      (IsFree(b, p) || IsHole(b, p) || IsOfPlayer(b, p, White) || IsOfPlayer(b, p, Black))
    ensures p !in b.cells ==> forall c :: !IsOfPlayer(b, p, c)
    ensures !(IsFree(b, p) && IsHole(b, p)) && !(IsOfPlayer(b, p, White) && IsOfPlayer(b, p, Black))
    ensures IsOfPlayer(b, p, Hole) <==> IsHole(b, p)
  {
  }

  /** The position lies in the rectangle spanned by `first` and `last`, both
      corners included. */
  predicate InRect(p: Position, first: Position, last: Position)
  {
    first.x <= p.x <= last.x && first.y <= p.y <= last.y
  }

  /** Every position of the rectangle spanned by `first` and `last`. */
  function Rect(first: Position, last: Position): (r: set<Position>)
    ensures forall p :: p in r <==> InRect(p, first, last)
  {
    var r := set x, y | first.x <= x <= last.x && first.y <= y <= last.y :: Position(x, y);
    assert forall p | InRect(p, first, last) :: p == Position(p.x, p.y) && p in r;
    r
  }

  /** Some cell of the rectangle holds a player's stone (not a hole). */
  predicate HasPlayerCell(b: Board, first: Position, last: Position)
  {
    exists p :: p in b.cells && b.cells[p] != Hole && InRect(p, first, last)
  }

  /** `containsCell`: scans the rectangle row by row and stops at the first
      player's stone; a one-cell rectangle is looked up directly. */
  method ContainsCell(b: Board, first: Position, last: Position) returns (found: bool)
    ensures found <==> HasPlayerCell(b, first, last)
  {
    if first == last {
      found := if first in b.cells then b.cells[first] != Hole else false;
      if !found {
        forall p | p in b.cells && InRect(p, first, last) ensures b.cells[p] == Hole {
          assert p == first;
        }
      }
      return;
    }
    var y := first.y;
    while y <= last.y
      invariant forall p :: p in b.cells && first.x <= p.x <= last.x && first.y <= p.y < y ==> b.cells[p] == Hole
      decreases last.y - y
    {
      var x := first.x;
      while x <= last.x
        invariant forall p :: p in b.cells && first.x <= p.x <= last.x && first.y <= p.y < y ==> b.cells[p] == Hole
        invariant forall p :: p in b.cells && first.x <= p.x < x && p.y == y ==> b.cells[p] == Hole
        decreases last.x - x
      {
        var pos := Position(x, y);
        if pos in b.cells && b.cells[pos] != Hole {
          assert InRect(pos, first, last);
          return true;
        }
        x := x + 1;
      }
      y := y + 1;
    }
    found := false;
  }

  /** The board in which every position of `ps` holds `c` and every other
      entry is as before. */
  function Transformed(b: Board, ps: set<Position>, c: Cell): (r: Board)
    ensures r.width == b.width && r.height == b.height
    ensures r.cells.Keys == b.cells.Keys + ps
    ensures forall p :: p in ps ==> r.cells[p] == c
    ensures forall p :: p in b.cells && p !in ps ==> r.cells[p] == b.cells[p]
  {
    Board(b.width, b.height, map p | p in b.cells.Keys + ps :: if p in ps then c else b.cells[p])
  }

  function Listed(ps: seq<Position>): set<Position>
  {
    set p | p in ps
  }

  lemma ListedStep(ps: seq<Position>, i: nat)
    requires i < |ps|
    ensures Listed(ps[..i + 1]) == Listed(ps[..i]) + {ps[i]}
  {
    assert ps[..i + 1] == ps[..i] + [ps[i]];
  }

  /** Putting `c` at one more position. */
  lemma TransformedAdd(b: Board, ps: set<Position>, x: Position, c: Cell)
    ensures Transformed(b, ps + {x}, c).cells == Transformed(b, ps, c).cells[x := c]
  {
    var m, m' := Transformed(b, ps, c).cells, Transformed(b, ps + {x}, c).cells;
    assert m'.Keys == m[x := c].Keys;
  }

  /** `transformBy`: copies the map and puts `c` at each listed position. */
  method TransformBy(b: Board, positions: seq<Position>, c: Cell) returns (r: Board)
    ensures r == Transformed(b, Listed(positions), c)
  {
    var newCells := b.cells;
    var i := 0;
    assert newCells == Transformed(b, Listed(positions[..0]), c).cells;
    while i < |positions|
      invariant 0 <= i <= |positions|
      invariant newCells == Transformed(b, Listed(positions[..i]), c).cells
    {
      ListedStep(positions, i);
      TransformedAdd(b, Listed(positions[..i]), positions[i], c);
      newCells := newCells[positions[i] := c];
      i := i + 1;
    }
    assert positions[..i] == positions;
    r := Board(b.width, b.height, newCells);
  }

  /** Transforming nothing keeps the board, and a transformation keeps the
      board invariant when every transformed position is in range. */
  lemma TransformedLaws(b: Board, ps: set<Position>, c: Cell)
    ensures Transformed(b, {}, c) == b
    ensures Valid(b) && (forall p :: p in ps ==> IsInRange(b, p)) ==> Valid(Transformed(b, ps, c))
  {
    assert Transformed(b, {}, c).cells == b.cells;
  }

  /** A rectangle whose corners are on the board lies on the board. */
  lemma RectInRange(b: Board, first: Position, last: Position)
    requires IsInRange(b, first) && IsInRange(b, last)
    ensures forall p :: p in Rect(first, last) ==> IsInRange(b, p)
  {
  }
}
