/** What the move search and the move itself guarantee, stated without
    reference to how the scans walk the board. */
module GameLemmas {
  import opened OthelloOption
  import opened Cells
  import opened Positions
  import opened Directions
  import opened Boards
  import opened Games

  /** The opponent of the player to move has a stone at q. */
  ghost predicate OppAt(g: Game, q: Position)
  {
    IsOfPlayer(g.board, q, GetNextPlayer(g))
  }

  /** The player to move has a stone at q. */
  ghost predicate OwnAt(g: Game, q: Position)
  {
    IsOfPlayer(g.board, q, g.curPlayer)
  }

  /** n >= 1 stones of the opponent follow s in direction d. */
  ghost predicate OpponentRun(g: Game, s: Position, d: Direction, n: int)
  {
    n >= 1 && forall k :: 1 <= k <= n ==> OppAt(g, Shift(s, d, k))
  }

  /** From the own stone s, the m - 1 cells in direction d hold the
      opponent's stones and the m-th cell q is free. */
  ghost predicate Outflanks(g: Game, s: Position, d: Direction, m: int, q: Position)
  {
    OwnAt(g, s) && d in DIRECTIONS && OpponentRun(g, s, d, m - 1) && q == Shift(s, d, m) && Boards.IsFree(g.board, q)
  }

  /** A legal target: some own stone outflanks the opponent towards q. */
  ghost predicate IsLegalTarget(g: Game, q: Position)
  {
    exists s, d, m :: Outflanks(g, s, d, m, q)
  }

  /** Walking from pos in direction d crosses m opponent stones and then
      reaches a free cell. */
  ghost predicate EndsAt(g: Game, pos: Position, d: Direction, m: int)
  {
    m >= 0 && Boards.IsFree(g.board, Shift(pos, d, m)) && forall k :: 0 <= k < m ==> OppAt(g, Shift(pos, d, k))
  }

  /** On a valid game a cell is the opponent's exactly when it is occupied
      and neither own nor a hole, and then it is on the board. */
  lemma OpponentCell(g: Game, q: Position)
    requires Games.Valid(g)
    ensures OppAt(g, q) <==> q in g.board.cells && !OwnAt(g, q) && !IsHole(g.board, q)
    ensures OppAt(g, q) ==> IsInRange(g.board, q) && !OwnAt(g, q)
  {
    if q in g.board.cells {
      var c := g.board.cells[q];
      assert c == White || c == Black || c == Hole;
    }
  }

  /** Every answer of `findEndPosition` ends such a walk. */
  lemma {:induction false} FindEndPositionSound(g: Game, pos: Position, d: Direction)
    requires Games.Valid(g)
    ensures FindEndPosition(g, pos, d).Some? ==>
      exists m :: EndsAt(g, pos, d, m) && FindEndPosition(g, pos, d).value == Shift(pos, d, m)
    decreases Measure(g.board, pos, d)
  {
    ShiftLaws(pos, d, 0, 0);
    if IsInvalid(g, pos) {
    } else if Boards.IsFree(g.board, pos) {
      assert EndsAt(g, pos, d, 0);
    } else {
      var next := Apply(d, pos.x, pos.y);
      FindEndPositionSound(g, next, d);
      if FindEndPosition(g, next, d).Some? {
        var m :| EndsAt(g, next, d, m) && FindEndPosition(g, next, d).value == Shift(next, d, m);
        OpponentCell(g, pos);
        EndsAtBehind(g, pos, d, m);
      }
    }
  }

  /** A walk that ends m cells behind an opponent's stone ends m + 1 cells
      from that stone. */
  lemma EndsAtBehind(g: Game, pos: Position, d: Direction, m: int)
    requires OppAt(g, pos) && EndsAt(g, Apply(d, pos.x, pos.y), d, m)
    ensures EndsAt(g, pos, d, m + 1) && Shift(Apply(d, pos.x, pos.y), d, m) == Shift(pos, d, m + 1)
  {
    ShiftLaws(pos, d, 1, m);
    forall k | 0 <= k < m + 1 ensures OppAt(g, Shift(pos, d, k)) {
      ShiftLaws(pos, d, 1, k - 1);
    }
  }

  /** Every such walk is found by `findEndPosition`. */
  lemma {:induction false} FindEndPositionComplete(g: Game, pos: Position, d: Direction, m: int)
    requires Games.Valid(g) && EndsAt(g, pos, d, m)
    ensures FindEndPosition(g, pos, d) == Some(Shift(pos, d, m))
    decreases m
  {
    ShiftLaws(pos, d, 0, 0);
    if m > 0 {
      assert OppAt(g, Shift(pos, d, 0));
      OpponentCell(g, pos);
      var next := Apply(d, pos.x, pos.y);
      ShiftLaws(pos, d, 1, m - 1);
      forall k | 0 <= k < m - 1 ensures OppAt(g, Shift(next, d, k)) {
        ShiftLaws(pos, d, 1, k);
        assert OppAt(g, Shift(pos, d, k + 1));
      }
      FindEndPositionComplete(g, next, d, m - 1);
    }
  }

  /** What `checkDirection` finds from an own stone is outflanked from it. */
  lemma CheckDirectionSound(g: Game, s: Position, d: Direction)
    requires Games.Valid(g) && OwnAt(g, s) && d in DIRECTIONS && CheckDirection(g, s, d).Some?
    ensures exists m :: Outflanks(g, s, d, m, CheckDirection(g, s, d).value)
  {
    var q := CheckDirection(g, s, d).value;
    var first := Apply(d, s.x, s.y);
    var second := Apply(d, first.x, first.y);
    ShiftLaws(s, d, 0, 1);
    ShiftLaws(s, d, 1, 1);
    FindEndPositionSound(g, second, d);
    var m :| EndsAt(g, second, d, m) && q == Shift(second, d, m);
    RunFromSecond(g, s, d, m);
    ShiftLaws(s, d, 2, m);
    assert Outflanks(g, s, d, m + 2, q);
  }

  /** The opponent's stones seen from the second cell on extend the run
      that starts at the first cell. */
  lemma RunFromSecond(g: Game, s: Position, d: Direction, m: int)
    requires OppAt(g, Shift(s, d, 1)) && m >= 0
    requires forall k :: 0 <= k < m ==> OppAt(g, Shift(Shift(s, d, 2), d, k))
    ensures OpponentRun(g, s, d, m + 1)
  {
    forall k | 2 <= k <= m + 1 ensures OppAt(g, Shift(s, d, k)) {
      ShiftLaws(s, d, 2, k - 2);
      assert OppAt(g, Shift(Shift(s, d, 2), d, k - 2));
    }
  }

  /** Every position `getPossibleMoves` returns is a legal target. */
  lemma LegalMovesSound(g: Game, q: Position)
    requires Games.Valid(g) && q in LegalMoves(g)
    ensures IsLegalTarget(g, q)
  {
    var s :| s in OwnCells(g) && q in MovesFrom(g, s);
    var d :| d in DIRECTIONS && CheckDirection(g, s, d) == Some(q);
    CheckDirectionSound(g, s, d);
  }

  /** Every legal target is among the positions `getPossibleMoves` returns. */
  lemma LegalMovesComplete(g: Game, q: Position)
    requires Games.Valid(g) && IsLegalTarget(g, q)
    ensures q in LegalMoves(g)
  {
    var s, d, m :| Outflanks(g, s, d, m, q);
    ShiftLaws(s, d, 0, 1);
    ShiftLaws(s, d, 1, 1);
    assert OppAt(g, Shift(s, d, 1));
    RunBehindSecond(g, s, d, m);
    FindEndPositionComplete(g, Shift(s, d, 2), d, m - 2);
    assert CheckDirection(g, s, d) == Some(q);
    assert s in OwnCells(g) && q in MovesFrom(g, s);
  }

  /** Seen from the second cell, an outflanking run is a walk to the free cell. */
  lemma RunBehindSecond(g: Game, s: Position, d: Direction, m: int)
    requires Outflanks(g, s, d, m, Shift(s, d, m))
    ensures EndsAt(g, Shift(s, d, 2), d, m - 2) && Shift(Shift(s, d, 2), d, m - 2) == Shift(s, d, m)
  {
    ShiftLaws(s, d, 2, m - 2);
    forall k | 0 <= k < m - 2 ensures OppAt(g, Shift(Shift(s, d, 2), d, k)) {
      ShiftLaws(s, d, 2, k);
      assert OppAt(g, Shift(s, d, k + 2));
    }
  }

  /** `getPossibleMoves` returns exactly the legal targets. */
  lemma LegalMovesCharacterized(g: Game, q: Position)
    requires Games.Valid(g)
    ensures q in LegalMoves(g) <==> IsLegalTarget(g, q)
  {
    if q in LegalMoves(g) {
      LegalMovesSound(g, q);
    }
    if IsLegalTarget(g, q) {
      LegalMovesComplete(g, q);
    }
  }

  /** A legal move is a free cell on the board. */
  lemma LegalMoveIsFree(g: Game, q: Position)
    requires Games.Valid(g) && q in LegalMoves(g)
    ensures Boards.IsFree(g.board, q) && IsInRange(g.board, q) && q !in g.board.cells
  {
    LegalMovesCharacterized(g, q);
  }

  /** The run of n opponent stones from p in direction d ends at an own stone. */
  ghost predicate Closes(g: Game, p: Position, d: Direction, n: int)
  {
    OpponentRun(g, p, d, n) && OwnAt(g, Shift(p, d, n + 1))
  }

  /** A closed run has only one length. */
  lemma ClosesUnique(g: Game, p: Position, d: Direction, n1: int, n2: int)
    requires Games.Valid(g) && Closes(g, p, d, n1) && Closes(g, p, d, n2)
    ensures n1 == n2
  {
    if n1 < n2 {
      OpponentCell(g, Shift(p, d, n1 + 1));
    } else if n2 < n1 {
      OpponentCell(g, Shift(p, d, n2 + 1));
    }
  }

  /** A run of opponent stones that breaks off at the j-th cell can only be
      closed by an own stone at exactly that cell. */
  lemma RunBreaksAt(g: Game, p: Position, d: Direction, j: int, n: int)
    requires Games.Valid(g) && j >= 1
    requires forall k :: 1 <= k < j ==> OppAt(g, Shift(p, d, k))
    requires !OppAt(g, Shift(p, d, j)) && Closes(g, p, d, n)
    ensures n == j - 1 && OwnAt(g, Shift(p, d, j))
  {
    if n + 1 < j {
      OpponentCell(g, Shift(p, d, n + 1));
    }
  }

  /** `getCellsToTransform` from the j-th cell, having collected cells 1 to
      j - 1: it returns the whole run when the run closes, and nothing
      otherwise. */
  lemma {:induction false} CellsToTransformFrom(g: Game, p: Position, d: Direction, j: int, acc: seq<Position>)
    requires Games.Valid(g) && j >= 1
    requires forall k :: 1 <= k < j ==> OppAt(g, Shift(p, d, k))
    requires forall x :: x in acc <==> exists k :: 1 <= k < j && x == Shift(p, d, k)
    ensures var r := CellsToTransform(g, Shift(p, d, j), d, acc);
      (forall n :: Closes(g, p, d, n) ==> forall x :: x in r <==> exists k :: 1 <= k <= n && x == Shift(p, d, k))
      && (r != [] ==> exists n :: Closes(g, p, d, n))
    decreases Measure(g.board, Shift(p, d, j), d)
  {
    var q := Shift(p, d, j);
    if OppAt(g, q) {
      OpponentCell(g, q);
      ShiftLaws(p, d, j, 1);
      CollectedOneMore(p, d, j, acc);
      assert CellsToTransform(g, q, d, acc) == CellsToTransform(g, Shift(p, d, j + 1), d, acc + [q]);
      CellsToTransformFrom(g, p, d, j + 1, acc + [q]);
    } else {
      RunEndsAt(g, p, d, j, acc);
    }
  }

  /** Collecting the j-th cell extends the collected cells 1 to j - 1. */
  lemma CollectedOneMore(p: Position, d: Direction, j: int, acc: seq<Position>)
    requires j >= 1
    requires forall x :: x in acc <==> exists k :: 1 <= k < j && x == Shift(p, d, k)
    ensures forall x :: x in acc + [Shift(p, d, j)] <==> exists k :: 1 <= k < j + 1 && x == Shift(p, d, k)
  {
    forall x ensures x in acc + [Shift(p, d, j)] <==> exists k :: 1 <= k < j + 1 && x == Shift(p, d, k) {
      if x == Shift(p, d, j) {
        assert 1 <= j < j + 1;
      }
    }
  }

  /** `getCellsToTransform` at the first cell that is not the opponent's:
      an own stone there closes the run collected so far. */
  lemma RunEndsAt(g: Game, p: Position, d: Direction, j: int, acc: seq<Position>)
    requires Games.Valid(g) && j >= 1
    requires forall k :: 1 <= k < j ==> OppAt(g, Shift(p, d, k))
    requires forall x :: x in acc <==> exists k :: 1 <= k < j && x == Shift(p, d, k)
    requires !OppAt(g, Shift(p, d, j))
    ensures var r := CellsToTransform(g, Shift(p, d, j), d, acc);
      (forall n :: Closes(g, p, d, n) ==> forall x :: x in r <==> exists k :: 1 <= k <= n && x == Shift(p, d, k))
      && (r != [] ==> exists n :: Closes(g, p, d, n))
  {
    var r := CellsToTransform(g, Shift(p, d, j), d, acc);
    forall n | Closes(g, p, d, n) ensures forall x :: x in r <==> exists k :: 1 <= k <= n && x == Shift(p, d, k) {
      RunBreaksAt(g, p, d, j, n);
    }
    if r != [] {
      assert OwnAt(g, Shift(p, d, j)) && r == acc;
      assert r[0] in acc;
      assert Closes(g, p, d, j - 1);
    }
  }

  /** The stones a move at p turns over in direction d are exactly the
      opponent's run that is closed by an own stone. */
  lemma FlipsTowardCharacterized(g: Game, p: Position, d: Direction, x: Position)
    requires Games.Valid(g)
    ensures x in FlipsToward(g, p, d) <==> exists n, k :: Closes(g, p, d, n) && 1 <= k <= n && x == Shift(p, d, k)
  {
    ShiftLaws(p, d, 0, 1);
    var r := FlipsToward(g, p, d);
    assert r == CellsToTransform(g, Shift(p, d, 1), d, []);
    CellsToTransformFrom(g, p, d, 1, []);
    if x in r {
      var n :| Closes(g, p, d, n);
    }
  }

  /** x lies in some direction's closed run from p. */
  ghost predicate Bracketed(g: Game, p: Position, x: Position)
  {
    exists d, n, k :: d in DIRECTIONS && Closes(g, p, d, n) && 1 <= k <= n && x == Shift(p, d, k)
  }

  /** The stones a move turns over are exactly the bracketed ones, and all
      of them are the opponent's. */
  lemma FlipSetCharacterized(g: Game, p: Position, x: Position)
    requires Games.Valid(g)
    ensures x in FlipSet(g, p) <==> Bracketed(g, p, x)
    ensures x in FlipSet(g, p) ==> OppAt(g, x)
  {
    if x in FlipSet(g, p) {
      var d :| d in DIRECTIONS && x in FlipsToward(g, p, d);
      FlipsTowardCharacterized(g, p, d, x);
    }
    if Bracketed(g, p, x) {
      var d, n, k :| d in DIRECTIONS && Closes(g, p, d, n) && 1 <= k <= n && x == Shift(p, d, k);
      FlipsTowardCharacterized(g, p, d, x);
    }
  }

  /** A legal move always turns over at least one stone: looking back from
      the new stone, the run it was found over is closed by the stone the
      search started from. */
  lemma MoveFlipsAtLeastOne(g: Game, p: Position)
    requires Games.Valid(g) && p in LegalMoves(g)
    ensures exists x :: x in FlipSet(g, p)
  {
    LegalMovesCharacterized(g, p);
    var s, d, m :| Outflanks(g, s, d, m, p);
    var e := Opposite(d);
    forall k | 1 <= k <= m - 1 ensures OppAt(g, Shift(p, e, k)) {
      ShiftBack(s, d, m, k);
      assert OppAt(g, Shift(s, d, m - k));
    }
    ShiftBack(s, d, m, m);
    ShiftLaws(s, d, 0, 0);
    assert Closes(g, p, e, m - 1);
    var x := Shift(p, e, 1);
    FlipSetCharacterized(g, p, x);
    assert Bracketed(g, p, x);
  }

  /** The effect of a legal move on the board: the new stone and the
      bracketed stones take the mover's colour, every other cell, holes
      included, is as before, and exactly one more cell is occupied. */
  lemma MovedBoard(g: Game, p: Position)
    requires Games.Valid(g) && p in LegalMoves(g)
    ensures var g' := Moved(g, p);
      && g'.mode == ActiveMode && g'.curPlayer == GetNextPlayer(g)
      && g'.board.width == g.board.width && g'.board.height == g.board.height
      && g'.board.cells.Keys == g.board.cells.Keys + {p}
      && p !in g.board.cells
      && |g'.board.cells| == |g.board.cells| + 1
      && g'.board.cells[p] == g.curPlayer
      && (forall x :: Bracketed(g, p, x) ==> OppAt(g, x) && g'.board.cells[x] == g.curPlayer)
      && (forall x :: x in g.board.cells && x != p && !Bracketed(g, p, x) ==> g'.board.cells[x] == g.board.cells[x])
      && (forall x :: IsHole(g'.board, x) <==> IsHole(g.board, x))
      && Games.Valid(g')
  {
    var g' := Moved(g, p);
    var flips := {p} + FlipSet(g, p);
    LegalMoveIsFree(g, p);
    forall x | x in FlipSet(g, p) ensures x in g.board.cells && OppAt(g, x) && IsInRange(g.board, x) {
      FlipSetCharacterized(g, p, x);
      OpponentCell(g, x);
    }
    assert g'.board.cells.Keys == g.board.cells.Keys + {p};
    assert |g'.board.cells.Keys| == |g.board.cells.Keys| + 1;
    forall x | Bracketed(g, p, x) ensures OppAt(g, x) && g'.board.cells[x] == g.curPlayer {
      FlipSetCharacterized(g, p, x);
    }
    forall x | x in g.board.cells && x != p && !Bracketed(g, p, x) ensures g'.board.cells[x] == g.board.cells[x] {
      FlipSetCharacterized(g, p, x);
    }
    forall x ensures IsHole(g'.board, x) <==> IsHole(g.board, x) {
      if x in FlipSet(g, p) {
        OpponentCell(g, x);
      }
    }
  }

  /** A game built by `valueOf` is valid: its stones are on the board. */
  lemma NewGameValid(width: int, height: int, data: string)
    ensures NewGame(width, height, data).Ok? ==>
      var g := NewGame(width, height, data).value;
      Games.Valid(g) && g.mode == NewMode && g.curPlayer == Black
      && g.board.width == width && g.board.height == height
    ensures NewGame(width, height, data).Err? <==>
      !IsValidSize(width, MIN_WIDTH, MAX_WIDTH) || !IsValidSize(height, MIN_HEIGHT, MAX_HEIGHT)
      || (data != "" && !ValidLayout(width, height, data))
  {
    if NewGame(width, height, data).Ok? {
      if data == "" {
        StartPosition(width, height);
      }
    }
  }

  /** Four stones around (cx, cy), white on the diagonal, black on the
      other diagonal. */
  function Square(cx: int, cy: int): map<Position, Cell>
  {
    map[Position(cx, cy) := White, Position(cx + 1, cy) := Black,
        Position(cx, cy + 1) := Black, Position(cx + 1, cy + 1) := White]
  }

  lemma SquareSize(cx: int, cy: int)
    ensures |Square(cx, cy)| == 4
  {
    assert |Square(cx, cy).Keys| == 4;
  }

  /** Every moved start stone is one of the square's. */
  lemma StartCellsInSquare(cx: int, cy: int)
    ensures forall q :: q in Shifted(START_POSITIONS, cx, cy) ==>
      q in Square(cx, cy) && Shifted(START_POSITIONS, cx, cy)[q] == Square(cx, cy)[q]
  {
    forall q | q in Shifted(START_POSITIONS, cx, cy)
      ensures q in Square(cx, cy) && Shifted(START_POSITIONS, cx, cy)[q] == Square(cx, cy)[q]
    {
      var p :| p in START_POSITIONS && q == Translated(p, cx, cy);
    }
  }

  /** Every stone of the square is a moved start stone. */
  lemma SquareInStartCells(cx: int, cy: int)
    ensures forall q :: q in Square(cx, cy) ==> q in Shifted(START_POSITIONS, cx, cy)
  {
    forall q | q in Square(cx, cy) ensures q in Shifted(START_POSITIONS, cx, cy) {
      var p := Position(q.x - cx, q.y - cy);
      assert p in START_POSITIONS && q == Translated(p, cx, cy);
    }
  }

  /** Two maps with the same keys and the same value at each key are equal. */
  lemma SameMaps(a: map<Position, Cell>, b: map<Position, Cell>)
    requires forall q :: q in a ==> q in b && a[q] == b[q]
    requires forall q :: q in b ==> q in a
    ensures a == b
  {
    assert a.Keys == b.Keys;
  }

  /** The default start: four stones around the middle, white on the
      diagonal, black on the other diagonal. */
  lemma StartPosition(width: int, height: int)
    requires IsValidSize(width, MIN_WIDTH, MAX_WIDTH) && IsValidSize(height, MIN_HEIGHT, MAX_HEIGHT)
    ensures var cx, cy := width / 2, height / 2;
      StartCells(width, height) == map[Position(cx, cy) := White, Position(cx + 1, cy) := Black,
                                       Position(cx, cy + 1) := Black, Position(cx + 1, cy + 1) := White]
    ensures |StartCells(width, height)| == 4
    ensures Games.Valid(Game(NewMode, Board(width, height, StartCells(width, height)), Black))
  {
    var cx, cy := width / 2, height / 2;
    StartCellsInSquare(cx, cy);
    SquareInStartCells(cx, cy);
    SameMaps(StartCells(width, height), Square(cx, cy));
    SquareSize(cx, cy);
  }

  /** A position of the layout holds a stone exactly when its sign is an
      occupant sign, and the stone is the one that sign stands for; a '-'
      leaves the cell free. */
  lemma LayoutCellsCharacterized(width: int, height: int, rows: seq<string>, p: Position)
    requires RowsFit(width, height, rows)
    ensures p in LayoutCells(width, height, rows) <==> OnGrid(width, height, p) && IsCell(SignAt(rows, p))
    ensures p in LayoutCells(width, height, rows) ==> Sign(LayoutCells(width, height, rows)[p]) == SignAt(rows, p)
    ensures OnGrid(width, height, p) && Cells.IsFree(SignAt(rows, p)) ==> Boards.IsFree(Board(width, height, LayoutCells(width, height, rows)), p)
  {
  }

  /** Passing twice gives the turn back, and the next player of the next
      player is the player to move. */
  lemma PassMoveInvolution(g: Game)
    requires g.curPlayer != Hole
    ensures GetNextPlayer(g) != g.curPlayer && GetNextPlayer(PassMove(g)) == g.curPlayer
    ensures PassMove(PassMove(g)) == g
  {
  }

  /** Ending and passing keep a game valid; ending twice is ending once,
      and a pass does not reopen an ended game. */
  lemma EndAndPassKeepValid(g: Game)
    requires Games.Valid(g)
    ensures Games.Valid(EndGame(g)) && Games.Valid(PassMove(g))
    ensures EndGame(EndGame(g)) == EndGame(g)
    ensures PassMove(EndGame(g)).mode == GameOverMode
  {
  }

  /** Adding holes to a rectangle on the board keeps the game valid, touches
      no stone, and a rectangle whose last corner lies above or left of the
      first leaves the board as it was. */
  lemma AddHoleEffect(g: Game, first: Position, last: Position)
    requires Games.Valid(g) && IsInRange(g.board, first) && IsInRange(g.board, last)
    requires !HasPlayerCell(g.board, first, last)
    ensures var b' := Transformed(g.board, Rect(first, last), Hole);
      && Games.Valid(Game(g.mode, b', g.curPlayer))
      && (forall x :: x in g.board.cells && g.board.cells[x] != Hole ==> x in b'.cells && b'.cells[x] == g.board.cells[x])
      && (forall x :: x in b'.cells && b'.cells[x] != Hole ==> x in g.board.cells && g.board.cells[x] == b'.cells[x])
      && (first.x > last.x || first.y > last.y ==> b' == g.board)
  {
    RectInRange(g.board, first, last);
    TransformedLaws(g.board, Rect(first, last), Hole);
    if first.x > last.x || first.y > last.y {
      assert Rect(first, last) == {};
    }
  }

  /** The empty game is valid and offers no move. */
  lemma EmptyGame()
    ensures Games.Valid(Empty()) && Empty().mode == GameOverMode
    ensures LegalMoves(Empty()) == {}
  {
    assert OwnCells(Empty()) == {};
  }
}
