/** The command state machine of the Othello shell (othello/Shell.java):
    which command is accepted in which mode, how positions and hole
    rectangles are read, and how a turn is settled after each change
    (pass, or end of game with a winner). Reading the console and printing
    are not modelled; each command returns what it would report. */
module OthelloShell {
  import opened OthelloOption
  import opened Cells
  import opened Positions
  import opened Boards
  import opened Games
  import GameLemmas
  import JavaStrings

  /** The IllegalArgumentExceptions the shell reports as "Error! ...", and
      the one exception it does not catch. */
  datatype ShellError =
    | AlreadyActive
    | InvalidArgumentCount
    | InvalidNumber
    | Engine(cause: GameError)
    | CannotAddHole
    | InvalidHole
    | InvalidPosition
    | SecondNotGreater
    | HoleOccupied
    | GameNotStarted
      /** `charAt(0)` on an empty string: not caught, it ends the program. */
    | Crashed

  /** The end of a game: a draw, or the winner with the larger and the
      smaller stone count. */
  datatype Verdict = Draw(count: nat) | Won(winner: Cell, max: nat, min: nat)

  /** How a turn is settled after a change. */
  datatype TurnOutcome = Continues | Passes(player: Cell) | Ends(verdict: Verdict)

  /** What a command reports. */
  datatype Report =
    | Turn(outcome: TurnOutcome)
    | MoveNotPossible
    | Over(verdict: Verdict)
    | Rows(rows: seq<string>)
    | Moves(moves: set<Position>)
    | Stopped

  datatype Response = Done(report: Report) | Failed(error: ShellError)

  /** Parsing result of a position or a hole. */
  datatype Parsed<T> = Parsed(value: T) | Rejected(error: ShellError)

  /** The command arguments come from splitting the trimmed input line at
      white space, so none of them is empty. */
  predicate Tokens(args: seq<string>)
  {
    forall i :: 0 <= i < |args| ==> args[i] != ""
  }

  // ---------------------------------------------------------------------
  // Counting and the winner

  /** The number of stones of colour c on the board. */
  function Count(b: Board, c: Cell): nat
  {
    |set p | p in b.cells && b.cells[p] == c|
  }

  /** The result `calculateWinner` announces. */
  function VerdictOf(b: Board): Verdict
  {
    var white, black := Count(b, White), Count(b, Black);
    if white == black then Draw(white)
    else if white > black then Won(White, white, black)
    else Won(Black, black, white)
  }

  /** A draw means equal counts; a winner has strictly more stones than the
      other colour, and the reported numbers are the two counts. */
  lemma VerdictMeaning(b: Board)
    ensures VerdictOf(b).Draw? <==> Count(b, White) == Count(b, Black)
    ensures VerdictOf(b).Won? ==>
      var v := VerdictOf(b);
      v.winner != Hole && v.max == Count(b, v.winner) && v.min == Count(b, Opponent(v.winner)) && v.max > v.min
  {
  }

  /** Holes do not count: two boards with the same stones have the same
      verdict, whatever their holes. */
  lemma HolesDoNotCount(b: Board, b': Board)
    requires forall p :: p in b.cells && b.cells[p] != Hole <==> p in b'.cells && b'.cells[p] != Hole
    requires forall p :: p in b.cells && b.cells[p] != Hole ==> b'.cells[p] == b.cells[p]
    ensures VerdictOf(b) == VerdictOf(b')
  {
    assert (set p | p in b.cells && b.cells[p] == White) == (set p | p in b'.cells && b'.cells[p] == White);
    assert (set p | p in b.cells && b.cells[p] == Black) == (set p | p in b'.cells && b'.cells[p] == Black);
  }

  // ---------------------------------------------------------------------
  // Settling a turn

  /** `if (!game.canMove()) calculatePass();`: a player who cannot move
      passes; when the other player cannot move either, the game ends. */
  function AfterChange(g: Game): (Game, TurnOutcome)
  {
    if LegalMoves(g) != {} then (g, Continues)
    else if LegalMoves(PassMove(g)) != {} then (PassMove(g), Passes(g.curPlayer))
    else (EndGame(g), Ends(VerdictOf(g.board)))
  }

  /** What the shell keeps between commands: a valid game, and a game that
      is not over always offers the player to move a move. */
  ghost predicate Invariant(g: Game)
  {
    Games.Valid(g) && (g.mode != GameOverMode ==> LegalMoves(g) != {})
  }

  /** Settling a turn restores the invariant and changes nothing but the
      player to move and the mode. */
  lemma AfterChangeInvariant(g: Game)
    requires Games.Valid(g)
    ensures Invariant(AfterChange(g).0)
    ensures AfterChange(g).0.board == g.board
    ensures AfterChange(g).1.Ends? <==> LegalMoves(g) == {} && LegalMoves(PassMove(g)) == {}
    ensures AfterChange(g).1.Ends? ==> AfterChange(g).0.mode == GameOverMode
  {
  }

  // ---------------------------------------------------------------------
  // Reading positions

  /** `parsePosition`: the row must be a number and the position on the board. */
  function ParsePosition(b: Board, x: char, y: string, parseInt: string -> Option<int>): (r: Parsed<Position>)
    ensures r.Parsed? ==> IsInRange(b, r.value) && r.value.x == ColumnOf(x)
  {
    var parsedY := parseInt(y);
    if !parsedY.IsDefined() then Rejected(InvalidPosition)
    else
      var pos := Position(ColumnOf(x), parsedY.Get());
      if !IsInRange(b, pos) then Rejected(InvalidPosition) else Parsed(pos)
  }

  /** The shell reads back every position of the board it renders with
      `toString`, given a number parser that reads back decimal rows. */
  lemma ParsePositionOfToString(b: Board, p: Position, parseInt: string -> Option<int>)
    requires IsInRange(b, p) && b.width <= MAX_WIDTH
    requires parseInt(JavaStrings.IntToString(p.y)) == Some(p.y)
    ensures var s := ToString(p); ParsePosition(b, s[0], s[1..], parseInt) == Parsed(p)
  {
  }

  /** `parseHole`: both corners are parsed, and the second must not come
      before the first in position order. */
  function ParseHole(b: Board, x1: char, y1: string, x2: char, y2: string,
                     parseInt: string -> Option<int>): (r: Parsed<(Position, Position)>)
    ensures r.Parsed? ==>
      IsInRange(b, r.value.0) && IsInRange(b, r.value.1) && CompareTo(r.value.0, r.value.1) <= 0
  {
    match ParsePosition(b, x1, y1, parseInt)
    case Rejected(e) => Rejected(e)
    case Parsed(pos1) =>
      match ParsePosition(b, x2, y2, parseInt)
      case Rejected(e) => Rejected(e)
      case Parsed(pos2) =>
        if CompareTo(pos1, pos2) <= 0 then Parsed((pos1, pos2)) else Rejected(SecondNotGreater)
  }

  // ---------------------------------------------------------------------
  // The commands, as functions of the game before them

  /** The shell's `requireGameStarted`. */
  predicate Started(g: Game)
  {
    g.mode == NewMode || g.mode == ActiveMode
  }

  /** `newGame <width> <height> [<layout>]`. */
  function NewGameCommand(g: Game, args: seq<string>, parseInt: string -> Option<int>): (Game, Response)
  {
    if g.mode != GameOverMode then (g, Failed(AlreadyActive))
    else if |args| != 2 && |args| != 3 then (g, Failed(InvalidArgumentCount))
    else
      var width, height := parseInt(args[0]), parseInt(args[1]);
      if !(width.IsDefined() && height.IsDefined()) then (g, Failed(InvalidNumber))
      else
        var created := NewGame(width.Get(), height.Get(), if |args| == 2 then "" else args[2]);
        if created.Err? then (g, Failed(Engine(created.error)))
        else
          var (g', outcome) := AfterChange(created.value);
          (g', Done(Turn(outcome)))
  }

  /** `hole <from>:<to>`. */
  function HoleCommand(g: Game, args: seq<string>, parseInt: string -> Option<int>): (Game, Response)
  {
    if g.mode != NewMode then (g, Failed(CannotAddHole))
    else if |args| != 1 then (g, Failed(InvalidArgumentCount))
    else
      var hole := JavaStrings.Split(args[0], ':');
      if |hole| != 2 then (g, Failed(InvalidHole))
      else if hole[0] == "" then (g, Failed(Crashed))
      else
        match ParseHole(g.board, hole[0][0], hole[0][1..], hole[1][0], hole[1][1..], parseInt)
        case Rejected(e) => (g, Failed(e))
        case Parsed((first, last)) =>
          if HasPlayerCell(g.board, first, last) then (g, Failed(HoleOccupied))
          else
            var (g', outcome) := AfterChange(Game(g.mode, Transformed(g.board, Rect(first, last), Hole), g.curPlayer));
            (g', Done(Turn(outcome)))
  }

  /** `move <position>`. */
  function MoveCommand(g: Game, args: seq<string>, parseInt: string -> Option<int>): (Game, Response)
    requires Boards.Valid(g.board) && Tokens(args)
  {
    if !Started(g) then (g, Failed(GameNotStarted))
    else if |args| != 1 then (g, Failed(InvalidArgumentCount))
    else
      match ParsePosition(g.board, args[0][0], args[0][1..], parseInt)
      case Rejected(e) => (g, Failed(e))
      case Parsed(pos) =>
        if pos !in LegalMoves(g) then (g, Done(MoveNotPossible))
        else
          var (g', outcome) := AfterChange(Moved(g, pos));
          (g', Done(Turn(outcome)))
  }

  /** `abort`. */
  function AbortCommand(g: Game): (Game, Response)
  {
    if !Started(g) then (g, Failed(GameNotStarted)) else (EndGame(g), Done(Over(VerdictOf(g.board))))
  }

  /** The sign `print` shows for a position. */
  function CellSign(b: Board, p: Position): char
  {
    if p in b.cells then Sign(b.cells[p]) else FREE_SIGN
  }

  /** The rows `print` shows: one string per board row. */
  function Render(b: Board): (rows: seq<string>)
    requires b.width >= 0 && b.height >= 0
    ensures |rows| == b.height && forall i :: 0 <= i < |rows| ==> |rows[i]| == b.width
  {
    seq(b.height, y requires 0 <= y < b.height =>
      seq(b.width, x requires 0 <= x < b.width => CellSign(b, Position(x + 1, y + 1))))
  }

  /** Each rendered row is a valid layout row without a comma. */
  lemma RenderedRowsValid(b: Board)
    requires b.width >= 0 && b.height >= 0
    ensures forall i :: 0 <= i < b.height ==> ',' !in Render(b)[i] && RowValid(b.width, Render(b)[i])
  {
    var rows := Render(b);
    forall i | 0 <= i < |rows| ensures ',' !in rows[i] && RowValid(b.width, rows[i]) {
      forall j | 0 <= j < |rows[i]| ensures rows[i][j] in "WB#-" {
        assert rows[i][j] == CellSign(b, Position(j + 1, i + 1));
      }
    }
  }

  /** Reading a rendered board as a layout gives back its cells. */
  lemma LayoutOfRender(b: Board)
    requires Boards.Valid(b) && b.width >= 0 && b.height >= 0
    ensures LayoutCells(b.width, b.height, Render(b)) == b.cells
  {
    var rows := Render(b);
    var cells := LayoutCells(b.width, b.height, rows);
    forall p | OnGrid(b.width, b.height, p) ensures SignAt(rows, p) == CellSign(b, p) {
    }
    assert cells.Keys == b.cells.Keys;
    forall p | p in cells ensures cells[p] == b.cells[p] {
      AsCellOfSign(b.cells[p]);
    }
  }

  /** What `print` shows can be given back to `newGame` as a layout, and it
      recreates the same board. */
  lemma RenderedBoardReloads(b: Board)
    requires Boards.Valid(b)
    requires IsValidSize(b.width, MIN_WIDTH, MAX_WIDTH) && IsValidSize(b.height, MIN_HEIGHT, MAX_HEIGHT)
    ensures NewGame(b.width, b.height, JavaStrings.Join(Render(b), ',')) == Ok(Game(NewMode, b, Black))
  {
    var rows := Render(b);
    RenderedRowsValid(b);
    assert |rows[|rows| - 1]| == b.width;
    JavaStrings.SplitJoin(rows, ',');
    var data := JavaStrings.Join(rows, ',');
    assert data != "";
    assert ValidLayout(b.width, b.height, data);
    LayoutOfRender(b);
  }

  // ---------------------------------------------------------------------
  // The shell

  class Shell {
    var isRunning: bool
    var game: Game

    ghost predicate Valid()
      reads this
    {
      Invariant(game)
    }

    /** A running shell with the empty game. */
    constructor()
      ensures Valid() && isRunning && game == Empty()
    {
      isRunning := true;
      game := Empty();
      GameLemmas.EmptyGame();
    }

    /** `calculateWinner`: ends the game and counts the stones of each colour. */
    method CalculateWinner() returns (verdict: Verdict)
      modifies this
      ensures game == EndGame(old(game)) && isRunning == old(isRunning)
      ensures verdict == VerdictOf(old(game).board)
    {
      game := EndGame(game);
      var cells := game.board.cells;
      var white, black := 0, 0;
      var rest := cells.Keys;
      while rest != {}
        invariant rest <= cells.Keys
        invariant white == |set p | p in cells && p !in rest && cells[p] == White|
        invariant black == |set p | p in cells && p !in rest && cells[p] == Black|
        decreases |rest|
      {
        var pos :| pos in rest;
        ghost var whiteBefore := set p | p in cells && p !in rest && cells[p] == White;
        ghost var blackBefore := set p | p in cells && p !in rest && cells[p] == Black;
        rest := rest - {pos};
        if cells[pos] == White {
          assert (set p | p in cells && p !in rest && cells[p] == White) == whiteBefore + {pos};
          assert (set p | p in cells && p !in rest && cells[p] == Black) == blackBefore;
          white := white + 1;
        } else if cells[pos] == Black {
          assert (set p | p in cells && p !in rest && cells[p] == White) == whiteBefore;
          assert (set p | p in cells && p !in rest && cells[p] == Black) == blackBefore + {pos};
          black := black + 1;
        } else {
          assert (set p | p in cells && p !in rest && cells[p] == White) == whiteBefore;
          assert (set p | p in cells && p !in rest && cells[p] == Black) == blackBefore;
        }
      }
      assert (set p | p in cells && p !in rest && cells[p] == White) == (set p | p in cells && cells[p] == White);
      assert (set p | p in cells && p !in rest && cells[p] == Black) == (set p | p in cells && cells[p] == Black);
      if white == black {
        verdict := Draw(white);
      } else {
        var winner := if white > black then White else Black;
        var max := if white > black then white else black;
        var min := if white > black then black else white;
        verdict := Won(winner, max, min);
      }
    }

    /** `calculatePass`: the other player takes the turn if they can move;
      otherwise the game ends. */
    method CalculatePass() returns (outcome: TurnOutcome)
      modifies this
      ensures isRunning == old(isRunning)
      ensures (game, outcome) ==
        if LegalMoves(PassMove(old(game))) != {} then (PassMove(old(game)), Passes(old(game).curPlayer))
        else (EndGame(old(game)), Ends(VerdictOf(old(game).board)))
    {
      var passed := PassMove(game);
      var can := CanMove(passed);
      if !can {
        var verdict := CalculateWinner();
        return Ends(verdict);
      }
      outcome := Passes(game.curPlayer);
      game := passed;
    }

    /** After a change: a player who cannot move passes. */
    method SettleTurn() returns (outcome: TurnOutcome)
      modifies this
      ensures isRunning == old(isRunning)
      ensures (game, outcome) == AfterChange(old(game))
    {
      var can := CanMove(game);
      if can {
        return Continues;
      }
      outcome := CalculatePass();
    }

    /** `newGame`. */
    method CreateNewGame(args: seq<string>, parseInt: string -> Option<int>) returns (r: Response)
      requires Valid()
      modifies this
      ensures Valid() && isRunning == old(isRunning)
      ensures (game, r) == NewGameCommand(old(game), args, parseInt)
    {
      if game.mode != GameOverMode {
        return Failed(AlreadyActive);
      }
      if |args| != 2 && |args| != 3 {
        return Failed(InvalidArgumentCount);
      }
      var width := parseInt(args[0]);
      var height := parseInt(args[1]);
      if !(width.IsDefined() && height.IsDefined()) {
        return Failed(InvalidNumber);
      }
      var created := ValueOf(width.Get(), height.Get(), if |args| == 2 then "" else args[2]);
      if created.Err? {
        return Failed(Engine(created.error));
      }
      GameLemmas.NewGameValid(width.Get(), height.Get(), if |args| == 2 then "" else args[2]);
      game := created.value;
      AfterChangeInvariant(game);
      var outcome := SettleTurn();
      r := Done(Turn(outcome));
    }

    /** `hole`. */
    method CreateHole(args: seq<string>, parseInt: string -> Option<int>) returns (r: Response)
      requires Valid() && Tokens(args)
      modifies this
      ensures Valid()
      ensures (game, r) == HoleCommand(old(game), args, parseInt)
      ensures isRunning == (old(isRunning) && r != Failed(Crashed))
    {
      if game.mode != NewMode {
        return Failed(CannotAddHole);
      }
      if |args| != 1 {
        return Failed(InvalidArgumentCount);
      }
      var hole := JavaStrings.Split(args[0], ':');
      if |hole| != 2 {
        return Failed(InvalidHole);
      }
      if hole[0] == "" {
        isRunning := false;
        return Failed(Crashed);
      }
      var parsedHole := ParseHole(game.board, hole[0][0], hole[0][1..], hole[1][0], hole[1][1..], parseInt);
      if parsedHole.Rejected? {
        return Failed(parsedHole.error);
      }
      var (first, last) := parsedHole.value;
      var occupied := ContainsCell(game.board, first, last);
      if occupied {
        return Failed(HoleOccupied);
      }
      var added := AddHole(game, first, last);
      GameLemmas.AddHoleEffect(game, first, last);
      game := added.value;
      AfterChangeInvariant(game);
      var outcome := SettleTurn();
      r := Done(Turn(outcome));
    }

    /** `move`. */
    method Move(args: seq<string>, parseInt: string -> Option<int>) returns (r: Response)
      requires Valid() && Tokens(args)
      modifies this
      ensures Valid() && isRunning == old(isRunning)
      ensures (game, r) == MoveCommand(old(game), args, parseInt)
    {
      if !Started(game) {
        return Failed(GameNotStarted);
      }
      if |args| != 1 {
        return Failed(InvalidArgumentCount);
      }
      var rawPos := args[0];
      var parsed := ParsePosition(game.board, rawPos[0], rawPos[1..], parseInt);
      if parsed.Rejected? {
        return Failed(parsed.error);
      }
      var pos := parsed.value;
      var moves := GetPossibleMoves(game);
      if pos !in moves {
        return Done(MoveNotPossible);
      }
      var moved := MoveTo(game, pos);
      GameLemmas.MovedBoard(game, pos);
      game := moved.value;
      AfterChangeInvariant(game);
      var outcome := SettleTurn();
      r := Done(Turn(outcome));
    }

    /** `print`: the rows of the board; the game is unchanged. */
    method Print() returns (r: Response)
      requires Valid()
      ensures r == if Started(game) then Done(Rows(Render(game.board))) else Failed(GameNotStarted)
    {
      if !Started(game) {
        return Failed(GameNotStarted);
      }
      r := Done(Rows(Render(game.board)));
    }

    /** `abort`: the game ends and the winner is announced. */
    method Abort() returns (r: Response)
      requires Valid()
      modifies this
      ensures Valid() && isRunning == old(isRunning)
      ensures (game, r) == AbortCommand(old(game))
    {
      if !Started(game) {
        return Failed(GameNotStarted);
      }
      game := EndGame(game);
      var verdict := CalculateWinner();
      r := Done(Over(verdict));
    }

    /** `possibleMoves`: the legal moves, never empty while a game runs. */
    method ShowPossibleMoves() returns (r: Response)
      requires Valid()
      ensures r == if Started(game) then Done(Moves(LegalMoves(game))) else Failed(GameNotStarted)
      ensures r.Done? ==> r.report.moves != {}
    {
      if !Started(game) {
        return Failed(GameNotStarted);
      }
      var moves := GetPossibleMoves(game);
      r := Done(Moves(moves));
    }

    /** `quit`: the input loop stops. */
    method Quit() returns (r: Response)
      modifies this
      ensures !isRunning && game == old(game) && r == Done(Stopped)
    {
      isRunning := false;
      r := Done(Stopped);
    }
  }

  // ---------------------------------------------------------------------
  // Guards of the commands

  /** `newGame` is only accepted when no game runs and with 2 or 3
      arguments; any refusal leaves the game as it was. */
  lemma NewGameGuard(g: Game, args: seq<string>, parseInt: string -> Option<int>)
    ensures var (g', r) := NewGameCommand(g, args, parseInt);
      (r.Done? ==> g.mode == GameOverMode && (|args| == 2 || |args| == 3))
      && (r.Failed? ==> g' == g)
  {
  }

  /** `hole` is only accepted before the first move, with both corners on
      the board, the first not after the second, and no stone inside. */
  lemma HoleGuard(g: Game, args: seq<string>, parseInt: string -> Option<int>)
    ensures var (g', r) := HoleCommand(g, args, parseInt);
      (r.Done? ==>
        && g.mode == NewMode && |args| == 1
        && (exists first, last ::
              && IsInRange(g.board, first) && IsInRange(g.board, last)
              && CompareTo(first, last) <= 0 && !HasPlayerCell(g.board, first, last)
              && g' == AfterChange(Game(g.mode, Transformed(g.board, Rect(first, last), Hole), g.curPlayer)).0))
      && (r.Failed? ==> g' == g)
  {
    var (g', r) := HoleCommand(g, args, parseInt);
    if r.Done? {
      var hole := JavaStrings.Split(args[0], ':');
      var parsed := ParseHole(g.board, hole[0][0], hole[0][1..], hole[1][0], hole[1][1..], parseInt);
      var (first, last) := parsed.value;
      assert IsInRange(g.board, first) && IsInRange(g.board, last) && CompareTo(first, last) <= 0;
    }
  }

  /** `move`, `print`, `abort` and `possibleMoves` need a started game; a
      move to a position that is not legal leaves the game unchanged, and
      `abort` always ends the game. */
  lemma StartedGuards(g: Game, args: seq<string>, parseInt: string -> Option<int>)
    requires Boards.Valid(g.board) && Tokens(args)
    ensures !Started(g) ==> MoveCommand(g, args, parseInt) == (g, Failed(GameNotStarted))
    ensures !Started(g) ==> AbortCommand(g) == (g, Failed(GameNotStarted))
    ensures MoveCommand(g, args, parseInt).1 == Done(MoveNotPossible) ==> MoveCommand(g, args, parseInt).0 == g
    ensures Started(g) ==> AbortCommand(g).0.mode == GameOverMode && AbortCommand(g).0.board == g.board
  {
  }

  /** A legal move played from the shell makes one more cell occupied and
      leaves the holes where they were. */
  lemma ShellMoveEffect(g: Game, args: seq<string>, parseInt: string -> Option<int>)
    requires Invariant(g) && Tokens(args)
    ensures var (g', r) := MoveCommand(g, args, parseInt);
      r.Done? && r.report.Turn? ==>
        |g'.board.cells| == |g.board.cells| + 1 && (forall x :: IsHole(g'.board, x) <==> IsHole(g.board, x))
  {
    var (g', r) := MoveCommand(g, args, parseInt);
    if r.Done? && r.report.Turn? {
      var pos := ParsePosition(g.board, args[0][0], args[0][1..], parseInt).value;
      GameLemmas.MovedBoard(g, pos);
    }
  }
}
