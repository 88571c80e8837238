/** A game state (othello/Game.java and othello/GameMode.java): the mode,
    the board and the player to move. Game states are values; every
    operation returns a new one. */
module Games {
  import opened OthelloOption
  import opened Cells
  import opened Positions
  import opened Directions
  import opened Boards
  import JavaStrings

  datatype GameMode = NewMode | ActiveMode | GameOverMode

  datatype Game = Game(mode: GameMode, board: Board, curPlayer: Cell)

  /** The IllegalArgumentExceptions the engine throws. */
  datatype GameError =
    | InvalidWidth
    | InvalidHeight
    | InvalidData
    | HoleNotEmpty(first: Position, last: Position)
    | ImpossibleMove(pos: Position)

  datatype Result<T> = Ok(value: T) | Err(error: GameError)

  /** What every game the engine builds satisfies: the board invariant, and
      the player to move is a colour. */
  ghost predicate Valid(g: Game)
  {
    Boards.Valid(g.board) && g.curPlayer != Hole
  }

  /** The 2x2 start pattern, relative to the middle of the board. */
  const START_POSITIONS: map<Position, Cell> :=
    map[Position(0, 0) := White, Position(1, 0) := Black, Position(0, 1) := Black, Position(1, 1) := White]

  /** `empty`: a 0x0 board without cells, over, with black to move. */
  function Empty(): Game
  {
    Game(GameOverMode, Board(0, 0, map[]), Black)
  }

  /** `isValidSize`: within the bounds and even. */
  predicate IsValidSize(i: int, lo: int, hi: int)
  {
    i >= lo && i <= hi && i % 2 == 0
  }

  /** The colour of the other player; a hole is never the player to move. */
  function Opponent(c: Cell): (o: Cell)
    ensures o != Hole && o != c
  {
    if c == White then Black else White
  }

  /** `getNextPlayer`. */
  function GetNextPlayer(g: Game): Cell
  {
    Opponent(g.curPlayer)
  }

  /** `passMove`: the other colour takes the turn; mode and board stay. */
  function PassMove(g: Game): (r: Game)
    ensures r.mode == g.mode && r.board == g.board
    ensures r.curPlayer != Hole && r.curPlayer != g.curPlayer
  {
    Game(g.mode, g.board, GetNextPlayer(g))
  }

  /** `endGame`: the game is over with the same board and player; a game
      that is already over is returned as it is. */
  function EndGame(g: Game): (r: Game)
    ensures r.mode == GameOverMode && r.board == g.board && r.curPlayer == g.curPlayer
    ensures r == g <==> g.mode == GameOverMode
  {
    Game(GameOverMode, g.board, g.curPlayer)
  }

  // ---------------------------------------------------------------------
  // Creating a game

  /** A position moved by (dx, dy). */
  function Translated(p: Position, dx: int, dy: int): Position
  {
    Position(p.x + dx, p.y + dy)
  }

  /** The stones of a pattern at the positions `done`, moved by (dx, dy). */
  function Placed(pattern: map<Position, Cell>, done: set<Position>, dx: int, dy: int): map<Position, Cell>
    requires done <= pattern.Keys
  {
    map p | p in done :: Translated(p, dx, dy) := pattern[p]
  }

  /** A whole pattern of stones moved by (dx, dy). */
  function Shifted(pattern: map<Position, Cell>, dx: int, dy: int): map<Position, Cell>
  {
    Placed(pattern, pattern.Keys, dx, dy)
  }

  /** The start stones of `middleCells`: the pattern moved by half the size. */
  function StartCells(width: int, height: int): map<Position, Cell>
  {
    Shifted(START_POSITIONS, width / 2, height / 2)
  }

  /** Placing one more stone of a pattern adds it at its moved position. */
  lemma PlacedStep(pattern: map<Position, Cell>, rest: set<Position>, pos: Position, dx: int, dy: int,
                   cells: map<Position, Cell>)
    requires rest <= pattern.Keys && pos in rest
    requires cells == Placed(pattern, pattern.Keys - rest, dx, dy)
    ensures cells[Position(pos.x + dx, pos.y + dy) := pattern[pos]] == Placed(pattern, pattern.Keys - (rest - {pos}), dx, dy)
  {
    var done := pattern.Keys - rest;
    assert pattern.Keys - (rest - {pos}) == done + {pos};
    var m' := Placed(pattern, done + {pos}, dx, dy);
    var q0 := Translated(pos, dx, dy);
    assert m'.Keys == cells.Keys + {q0};
    forall q | q in m' ensures m'[q] == cells[q0 := pattern[pos]][q] {
      var p :| p in done + {pos} && q == Translated(p, dx, dy);
      if p != pos {
        assert q != q0;
      }
    }
  }

  /** The loop of `middleCells`: puts each stone of the pattern, moved by
      (dx, dy), into a new map, in any order. */
  method ShiftAll(pattern: map<Position, Cell>, dx: int, dy: int) returns (cells: map<Position, Cell>)
    ensures cells == Shifted(pattern, dx, dy)
  {
    cells := map[];
    var rest := pattern.Keys;
    assert Placed(pattern, pattern.Keys - rest, dx, dy) == map[];
    while rest != {}
      invariant rest <= pattern.Keys
      invariant cells == Placed(pattern, pattern.Keys - rest, dx, dy)
      decreases |rest|
    {
      var pos :| pos in rest;
      PlacedStep(pattern, rest, pos, dx, dy, cells);
      cells := cells[Position(pos.x + dx, pos.y + dy) := pattern[pos]];
      rest := rest - {pos};
    }
    assert pattern.Keys - rest == pattern.Keys;
  }

  /** `middleCells`: the start pattern moved to the middle of the board. */
  method MiddleCells(width: int, height: int) returns (cells: map<Position, Cell>)
    ensures cells == StartCells(width, height)
  {
    var xMiddle := width / 2;
    var yMiddle := height / 2;
    cells := ShiftAll(START_POSITIONS, xMiddle, yMiddle);
  }

  /** A row of a layout: the board's width in occupant and free signs. */
  predicate RowValid(width: int, row: string)
  {
    |row| == width && forall i :: 0 <= i < |row| ==> IsCell(row[i]) || Cells.IsFree(row[i])
  }

  /** A layout: as many comma-separated rows as the board is high. */
  predicate ValidLayout(width: int, height: int, data: string)
  {
    var rows := JavaStrings.Split(data, ',');
    |rows| == height && forall i :: 0 <= i < |rows| ==> RowValid(width, rows[i])
  }

  /** `isRowValid`. */
  method IsRowValid(width: int, row: string) returns (ok: bool)
    ensures ok <==> RowValid(width, row)
  {
    if |row| != width {
      return false;
    }
    for i := 0 to |row|
      invariant forall j :: 0 <= j < i ==> IsCell(row[j]) || Cells.IsFree(row[j])
    {
      if !IsCell(row[i]) && !Cells.IsFree(row[i]) {
        return false;
      }
    }
    return true;
  }

  /** `isValidData`. */
  method IsValidData(width: int, height: int, data: string) returns (ok: bool)
    ensures ok <==> ValidLayout(width, height, data)
  {
    var rows := JavaStrings.Split(data, ',');
    if |rows| != height {
      return false;
    }
    for i := 0 to |rows|
      invariant forall j :: 0 <= j < i ==> RowValid(width, rows[j])
    {
      var rowOk := IsRowValid(width, rows[i]);
      if !rowOk {
        return false;
      }
    }
    return true;
  }

  /** The grid position (x, y) of a layout. */
  predicate OnGrid(width: int, height: int, p: Position)
  {
    1 <= p.x <= width && 1 <= p.y <= height
  }

  /** The sign written for position p: row y - 1, column x - 1. */
  function SignAt(rows: seq<string>, p: Position): char
    requires 1 <= p.y <= |rows| && 1 <= p.x <= |rows[p.y - 1]|
  {
    rows[p.y - 1][p.x - 1]
  }

  /** The grid of a width x height board as a set. */
  function Grid(width: int, height: int): (r: set<Position>)
    ensures forall p :: p in r <==> OnGrid(width, height, p)
  {
    Rect(Position(1, 1), Position(width, height))
  }

  /** Rows that all have the board's width, one per board row. */
  predicate RowsFit(width: int, height: int, rows: seq<string>)
  {
    |rows| == height && forall i :: 0 <= i < |rows| ==> |rows[i]| == width
  }

  /** The stones a layout describes: every occupant sign on the grid. */
  function LayoutCells(width: int, height: int, rows: seq<string>): map<Position, Cell>
    requires RowsFit(width, height, rows)
  {
    map p | p in Grid(width, height) && IsCell(SignAt(rows, p)) :: AsCell(SignAt(rows, p)).value
  }

  /** `calculateCells` once the data is known to be valid: reads the rows
      cell by cell and keeps the occupant signs. */
  method CalculateCells(width: int, height: int, rows: seq<string>) returns (cells: map<Position, Cell>)
    requires RowsFit(width, height, rows)
    ensures cells == LayoutCells(width, height, rows)
  {
    cells := map[];
    for y := 1 to height + 1
      invariant forall p :: p in cells <==> OnGrid(width, height, p) && p.y < y && IsCell(SignAt(rows, p))
      invariant forall p :: p in cells ==> Sign(cells[p]) == SignAt(rows, p)
    {
      for x := 1 to |rows[y - 1]| + 1
        invariant forall p :: p in cells <==>
          OnGrid(width, height, p) && (p.y < y || (p.y == y && p.x < x)) && IsCell(SignAt(rows, p))
        invariant forall p :: p in cells ==> Sign(cells[p]) == SignAt(rows, p)
      {
        var c := rows[y - 1][x - 1];
        if IsCell(c) {
          cells := cells[Position(x, y) := AsCell(c).value];
        }
      }
    }
    ghost var spec := LayoutCells(width, height, rows);
    assert cells.Keys == spec.Keys;
    forall p | p in cells ensures cells[p] == spec[p] {
      AsCellOfSign(cells[p]);
    }
  }

  /** The game `valueOf(width, height, data)` yields, or the exception it
      throws; the empty layout stands for the default start. */
  function NewGame(width: int, height: int, data: string): Result<Game>
  {
    if !IsValidSize(width, MIN_WIDTH, MAX_WIDTH) then Err(InvalidWidth)
    else if !IsValidSize(height, MIN_HEIGHT, MAX_HEIGHT) then Err(InvalidHeight)
    else if data == "" then Ok(Game(NewMode, Board(width, height, StartCells(width, height)), Black))
    else if !ValidLayout(width, height, data) then Err(InvalidData)
    else Ok(Game(NewMode, Board(width, height, LayoutCells(width, height, JavaStrings.Split(data, ','))), Black))
  }

  /** `valueOf(width, height, data)`; `valueOf(width, height)` passes "". */
  method ValueOf(width: int, height: int, data: string) returns (r: Result<Game>)
    ensures r == NewGame(width, height, data)
  {
    if !IsValidSize(width, MIN_WIDTH, MAX_WIDTH) {
      return Err(InvalidWidth);
    }
    if !IsValidSize(height, MIN_HEIGHT, MAX_HEIGHT) {
      return Err(InvalidHeight);
    }
    var cells;
    if data == "" {
      cells := MiddleCells(width, height);
    } else {
      var ok := IsValidData(width, height, data);
      if !ok {
        return Err(InvalidData);
      }
      cells := CalculateCells(width, height, JavaStrings.Split(data, ','));
    }
    r := Ok(Game(NewMode, Board(width, height, cells), Black));
  }

  // ---------------------------------------------------------------------
  // Searching for moves

  /** How many steps in direction d stay on the board from p, plus one; zero
      off the board. Every scan step from an on-board position lowers it. */
  function Measure(b: Board, p: Position, d: Direction): nat
  {
    if IsInRange(b, p) then 1 + Reach(p.x, Dx(d), b.width) + Reach(p.y, Dy(d), b.height) else 0
  }

  function Reach(v: int, dv: int, size: int): int
  {
    if dv > 0 then size - v else if dv < 0 then v - 1 else 0
  }

  /** `isInvalid`: the scan stops at the edge, at an own stone and at a hole. */
  predicate IsInvalid(g: Game, pos: Position)
  {
    !IsInRange(g.board, pos) || IsOfPlayer(g.board, pos, g.curPlayer) || IsHole(g.board, pos)
  }

  /** `findEndPosition`: walks over stones of the opponent up to the first
      free cell. */
  function FindEndPosition(g: Game, pos: Position, d: Direction): Option<Position>
    decreases Measure(g.board, pos, d)
  {
    if IsInvalid(g, pos) then None
    else if Boards.IsFree(g.board, pos) then Some(pos)
    else FindEndPosition(g, Apply(d, pos.x, pos.y), d)
  }

  /** `checkDirection`: the neighbour in direction d must be the opponent's,
      then the walk continues behind it. */
  function CheckDirection(g: Game, pos: Position, d: Direction): Option<Position>
  {
    var first := Apply(d, pos.x, pos.y);
    if IsOfPlayer(g.board, first, GetNextPlayer(g)) then FindEndPosition(g, Apply(d, first.x, first.y), d)
    else None
  }

  /** The stones of the player to move (`getCellsToProof`, as a set). */
  function OwnCells(g: Game): set<Position>
  {
    set p | p in g.board.cells && g.board.cells[p] == g.curPlayer
  }

  /** The free cells `getPossiblePositions` finds from one stone. */
  function MovesFrom(g: Game, s: Position): set<Position>
  {
    set d | d in DIRECTIONS && CheckDirection(g, s, d).Some? :: CheckDirection(g, s, d).value
  }

  /** The result of `getPossibleMoves`, as a set. */
  function LegalMoves(g: Game): set<Position>
  {
    set s, q | s in OwnCells(g) && q in MovesFrom(g, s) :: q
  }

  /** `getCellsToProof`: the positions of the stones of the player to move. */
  method GetCellsToProof(g: Game) returns (own: seq<Position>)
    ensures forall p :: p in own <==> p in OwnCells(g)
  {
    own := [];
    var rest := g.board.cells.Keys;
    while rest != {}
      invariant rest <= g.board.cells.Keys
      invariant forall p :: p in own <==> p in OwnCells(g) && p !in rest
      decreases |rest|
    {
      var pos :| pos in rest;
      if g.board.cells[pos] == g.curPlayer {
        own := own + [pos];
      }
      rest := rest - {pos};
    }
  }

  /** `getPossiblePositions`: the end of the scan in each direction that
      has one. */
  method GetPossiblePositions(g: Game, pos: Position) returns (ps: seq<Position>)
    ensures forall q :: q in ps <==> q in MovesFrom(g, pos)
  {
    ps := [];
    for i := 0 to |DIRECTIONS|
      invariant forall q :: q in ps <==>
        exists j :: 0 <= j < i && CheckDirection(g, pos, DIRECTIONS[j]) == Some(q)
    {
      var endPosition := CheckDirection(g, pos, DIRECTIONS[i]);
      if endPosition.IsDefined() {
        ps := ps + [endPosition.Get()];
      }
    }
    forall q ensures q in ps <==> q in MovesFrom(g, pos) {
      if q in MovesFrom(g, pos) {
        var d :| d in DIRECTIONS && CheckDirection(g, pos, d) == Some(q);
        var j :| 0 <= j < |DIRECTIONS| && DIRECTIONS[j] == d;
      }
    }
  }

  /** `getPossibleMoves`: the union of the moves found from every own stone. */
  method GetPossibleMoves(g: Game) returns (moves: set<Position>)
    ensures moves == LegalMoves(g)
  {
    var own := GetCellsToProof(g);
    moves := {};
    for i := 0 to |own|
      invariant forall q :: q in moves <==> exists j :: 0 <= j < i && q in MovesFrom(g, own[j])
    {
      var ps := GetPossiblePositions(g, own[i]);
      moves := moves + set q | q in ps;
    }
    forall q ensures q in moves <==> q in LegalMoves(g) {
      if q in LegalMoves(g) {
        var s :| s in OwnCells(g) && q in MovesFrom(g, s);
        var j :| 0 <= j < |own| && own[j] == s;
      }
    }
  }

  /** `canMove`. */
  method CanMove(g: Game) returns (can: bool)
    ensures can <==> LegalMoves(g) != {}
  {
    var moves := GetPossibleMoves(g);
    can := moves != {};
  }

  // ---------------------------------------------------------------------
  // Making a move

  /** `getCellsToTransform`: collects the opponent's stones from pos onwards
      and keeps them only if the run ends at a stone of the player to move. */
  function CellsToTransform(g: Game, pos: Position, d: Direction, positions: seq<Position>): seq<Position>
    requires Boards.Valid(g.board)
    decreases Measure(g.board, pos, d)
  {
    if IsOfPlayer(g.board, pos, GetNextPlayer(g)) then
      CellsToTransform(g, Apply(d, pos.x, pos.y), d, positions + [pos])
    else if IsOfPlayer(g.board, pos, g.curPlayer) then positions
    else []
  }

  /** The stones a move at pos turns over in direction d. */
  function FlipsToward(g: Game, pos: Position, d: Direction): seq<Position>
    requires Boards.Valid(g.board)
  {
    CellsToTransform(g, Apply(d, pos.x, pos.y), d, [])
  }

  /** The stones a move at pos turns over, in all directions. */
  function FlipSet(g: Game, pos: Position): set<Position>
    requires Boards.Valid(g.board)
  {
    set d, q | d in DIRECTIONS && q in FlipsToward(g, pos, d) :: q
  }

  /** The game after the player to move has placed a stone at pos. */
  function Moved(g: Game, pos: Position): Game
    requires Boards.Valid(g.board)
  {
    Game(ActiveMode, Transformed(g.board, {pos} + FlipSet(g, pos), g.curPlayer), GetNextPlayer(g))
  }

  /** The private `transformBy(pos)`: the new stone plus the stones every
      direction turns over, all given the colour of the player to move. */
  method TransformAt(g: Game, pos: Position) returns (b: Board)
    requires Boards.Valid(g.board)
    ensures b == Transformed(g.board, {pos} + FlipSet(g, pos), g.curPlayer)
  {
    var positions := [pos];
    for i := 0 to |DIRECTIONS|
      invariant forall q :: q in positions <==>
        q == pos || exists j :: 0 <= j < i && q in FlipsToward(g, pos, DIRECTIONS[j])
    {
      positions := positions + FlipsToward(g, pos, DIRECTIONS[i]);
    }
    ghost var all := {pos} + FlipSet(g, pos);
    forall q ensures q in positions <==> q in all {
      if q in FlipSet(g, pos) {
        var d :| d in DIRECTIONS && q in FlipsToward(g, pos, d);
        var j :| 0 <= j < |DIRECTIONS| && DIRECTIONS[j] == d;
      }
    }
    assert (set q | q in positions) == all;
    b := TransformBy(g.board, positions, g.curPlayer);
  }

  /** `moveTo`: refuses a position that is not a legal move; otherwise the
      game becomes active and the other player moves next. */
  method MoveTo(g: Game, pos: Position) returns (r: Result<Game>)
    requires Boards.Valid(g.board)
    ensures r == if pos in LegalMoves(g) then Ok(Moved(g, pos)) else Err(ImpossibleMove(pos))
  {
    var moves := GetPossibleMoves(g);
    if pos !in moves {
      return Err(ImpossibleMove(pos));
    }
    var newBoard := TransformAt(g, pos);
    r := Ok(Game(ActiveMode, newBoard, GetNextPlayer(g)));
  }

  // ---------------------------------------------------------------------
  // Holes

  /** `addHole`: refuses a rectangle holding a stone; otherwise every cell of
      the rectangle becomes a hole, mode and player unchanged. */
  method AddHole(g: Game, first: Position, last: Position) returns (r: Result<Game>)
    ensures r == if HasPlayerCell(g.board, first, last) then Err(HoleNotEmpty(first, last))
                 else Ok(Game(g.mode, Transformed(g.board, Rect(first, last), Hole), g.curPlayer))
  {
    var occupied := ContainsCell(g.board, first, last);
    if occupied {
      return Err(HoleNotEmpty(first, last));
    }
    var positions: seq<Position> := [];
    var y := first.y;
    while y <= last.y
      invariant y <= last.y + 1 || y == first.y
      invariant forall p :: p in positions <==> first.x <= p.x <= last.x && first.y <= p.y < y
      decreases last.y - y
    {
      var x := first.x;
      while x <= last.x
        invariant x <= last.x + 1 || x == first.x
        invariant forall p :: p in positions <==>
          first.x <= p.x <= last.x && (first.y <= p.y < y || (p.y == y && p.x < x))
        decreases last.x - x
      {
        positions := positions + [Position(x, y)];
        x := x + 1;
      }
      y := y + 1;
    }
    assert (set p | p in positions) == Rect(first, last);
    var newBoard := TransformBy(g.board, positions, Hole);
    r := Ok(Game(g.mode, newBoard, g.curPlayer));
  }
}
