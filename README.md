# Othello engine and course-grading registry in Dafny

This project models two small, sequential Java programs and proves properties of them.

**The Othello (Reversi) engine** (`src/othello`):

- Boards and games are immutable values.
- A `Board` is a width × height grid with a sparse map from `Position` to `Cell`. The cells are white stone, black stone and hole. A position missing from the map is free.
- A `Game` holds a mode (new, active, game over), a board and the player to move. Its operations are:
  - `valueOf`: size and layout validation, with a centred 2×2 default start;
  - the move search, which walks from every stone of the player to move over a run of opponent stones to a free cell;
  - `moveTo`, which turns over every bracketed run;
  - `addHole`, `passMove` and `endGame`.
- The shell (`Shell.java`) is a small state machine over the game:
  - which command is accepted in which mode;
  - how positions and hole rectangles are read;
  - how a turn is settled after each change: the player passes, or the game ends and the stones are counted.

**The course-grading registry** (`src/minipraktomat`):

- A `Praktomat` holds hash sets of tutors, students and tasks, plus the selected tutor.
- Each `Task` holds a hash set of solutions.
- Set membership follows each class's `equals`: tutors by name, students by id, tasks by id, and solutions by their student's id.
- The commands `tutor`, `student`, `task`, `submit` and `review` validate their arguments and update these sets in place. Each answers with a `Validation` (failure message or success message).

How the model is built:

- Pure code becomes datatypes, functions and lemmas. This covers positions, directions, cells, board queries, the recursive direction walks, options, validations, and the value classes `Solution`, `Student`, `Tutor` and `Selection`.
- Code that fills collections in loops becomes methods with loops. Each such method is proved against a specification function. This covers `getPossibleMoves`, `transformBy`, `addHole`, `containsCell`, `calculateCells`, `middleCells`, `calculateWinner`, the registry's queries and the averages.
- Objects whose fields change become classes: the Othello `Shell`, the `Praktomat` and the `Task`.
- Exceptions become error results: `Result`/`GameError` in the engine, `Response`/`ShellError` in the shell, and `Validation` in the registry.
- `InputValidation.parseInt` is a parameter `parseInt: string -> Option<int>`.

The main properties proved:

- `getPossibleMoves` returns exactly the free cells that some stone of the player to move outflanks.
- A legal move turns over at least one stone.
- A move adds exactly one occupied cell, never touches a hole, and turns over exactly the bracketed runs.
- The default start has four stones around the middle.
- A layout is accepted exactly when it has the right number of rows over the right alphabet. The board `print` shows reads back as the same board.
- The shell keeps the invariant that a running game offers a move.
- Each registry command answers exactly as a specification of its checks says, in the source's order, and changes only what it should.
- A task holds at most one solution per student.
- Task ids are always 1 to the number of tasks.

## Model

| member | source | states |
|---|---|---|
| OthelloOption.Option.Get | src/othello/Option.java:109-112 | `get` is defined only on Some and returns the value the Some holds |
| OthelloOption.DefinedMeansSome | src/othello/Option.java:18-117 | None is not defined; an option is defined exactly when it is Some of a value |
| Cells.AsCell | src/othello/Cell.java:50-61 | `asCell` succeeds exactly on `W`, `B`, `#`, and the resulting cell's sign is the character read; every other character is rejected |
| Cells.AsCellOfSign | src/othello/Cell.java:12-76 | reading the sign of any cell gives back that cell |
| Cells.SignsDisjoint | src/othello/Cell.java:27-40 | no character is both an occupant sign (`isCell`) and the free sign (`isFree`) |
| Positions.CompareToIsLexicographic | src/othello/Position.java:51-74 | the sign of `compareTo` is the order by x, then y; `equals` holds exactly when both coordinates agree, and equal positions have equal `hashCode` |
| Positions.ToString | src/othello/Position.java:57-59 | `toString` is a column letter that reads back as x, followed by the decimal rendering of y |
| Positions.ToStringRoundTrip | src/othello/Shell.java:193-198 | for columns 1..26 the letter is `A`..`Z`; the shell's `x - 'A' + 1` recovers the column and the digits recover the row |
| Directions.Apply | src/othello/Direction.java:16-69 | each `apply` moves by its direction's offset, at most one step in each coordinate, and never stays in place |
| Directions.DirectionsAreTheEightOffsets | src/othello/Direction.java:72-73 | `DIRECTIONS` has eight pairwise distinct entries and holds every direction; different directions have different offsets |
| Directions.OppositeUndoesStep | src/othello/Direction.java:16-73 | every direction's opposite is in `DIRECTIONS`, and a step followed by a step in the opposite direction returns to the start |
| Directions.ShiftLaws | src/othello/Direction.java:16-69 | n steps in one direction add up; one step is `apply`; steps in the opposite direction count backwards |
| Boards.PositionKinds | src/othello/Board.java:84-121 | on a board whose cells are in range, each position is exactly one of: off the board, free, hole, white, black; `isOfPlayer` and `isHole` are false off the map |
| Boards.Rect | src/othello/Game.java:192-197 | the positions the hole loops visit are exactly those with x in [from.x, to.x] and y in [from.y, to.y] |
| Boards.ContainsCell | src/othello/Board.java:133-147 | `containsCell` is true exactly when some position of the rectangle holds a white or black stone; the one-cell shortcut agrees |
| Boards.Transformed | src/othello/Board.java:161-167 | a transformed board keeps width and height, puts `c` at every listed position and keeps every other entry |
| Boards.TransformBy | src/othello/Board.java:161-167 | the loop over the list yields the transformed board for the set of listed positions |
| Boards.TransformedLaws | src/othello/Board.java:161-167 | transforming no position gives the same board; transforming in-range positions keeps every cell in range |
| Games.Opponent | src/othello/Game.java:137-139 | the next player is a colour and differs from the current one |
| Games.PassMove | src/othello/Game.java:209-211 | a pass keeps mode and board and gives the turn to the other colour |
| Games.EndGame | src/othello/Game.java:218-220 | ending sets the mode to game over and keeps board and player to move; a game already over is returned unchanged |
| Games.ShiftAll | src/othello/Game.java:291-301 | the loop over the start pattern yields the whole pattern moved by the offset, whatever order it visits the stones in |
| Games.MiddleCells | src/othello/Game.java:291-301 | `middleCells` is the start pattern moved by (width/2, height/2) |
| Games.IsRowValid | src/othello/Game.java:333-343 | true exactly when the row has the board's width and every character is an occupant or free sign |
| Games.IsValidData | src/othello/Game.java:320-331 | true exactly when the comma-split layout (Java `split`) has `height` rows and every row is valid |
| Games.CalculateCells | src/othello/Game.java:303-318 | the cells read row by row are exactly the layout's occupant signs at (x, y) = (column + 1, row + 1) |
| Games.ValueOf | src/othello/Game.java:83-93 | `valueOf` fails on an odd or out-of-range width, then height, then an invalid layout; otherwise it is a new game with black to move on the layout's or the default start's cells |
| Games.GetCellsToProof | src/othello/Game.java:247-255 | lists exactly the positions of the stones of the player to move |
| Games.GetPossiblePositions | src/othello/Game.java:257-266 | lists exactly the scan ends `checkDirection` finds from one stone, over all eight directions |
| Games.GetPossibleMoves | src/othello/Game.java:146-152 | yields exactly the union of the scan ends from every own stone |
| Games.CanMove | src/othello/Game.java:159-161 | true exactly when there is a possible move |
| Games.TransformAt | src/othello/Game.java:222-233 | the new board gives the mover's colour to the new stone and to every stone any direction turns over |
| Games.MoveTo | src/othello/Game.java:171-176 | fails for a position that is not a possible move; otherwise the game becomes active with the transformed board and the other player to move |
| Games.AddHole | src/othello/Game.java:187-201 | fails when the rectangle holds a white or black stone; otherwise every rectangle cell becomes a hole, with mode and player unchanged |
| GameLemmas.FindEndPositionSound | src/othello/Game.java:277-285 | every position `findEndPosition` returns is the free cell that ends a run of opponent stones in that direction |
| GameLemmas.FindEndPositionComplete | src/othello/Game.java:277-285 | every such run followed by a free cell is found |
| GameLemmas.CheckDirectionSound | src/othello/Game.java:268-275 | what `checkDirection` finds from an own stone is outflanked from it: one or more opponent stones, then the free cell |
| GameLemmas.LegalMovesSound | src/othello/Game.java:146-152 | every possible move is outflanked from some own stone in some direction |
| GameLemmas.LegalMovesComplete | src/othello/Game.java:146-152 | every outflanked free cell is a possible move |
| GameLemmas.LegalMovesCharacterized | src/othello/Game.java:146-152 | a position is a possible move if and only if it is outflanked from some own stone |
| GameLemmas.LegalMoveIsFree | src/othello/Game.java:277-285 | a possible move is in range and free |
| GameLemmas.CellsToTransformFrom | src/othello/Game.java:235-245 | `getCellsToTransform` returns the collected opponent run when it ends at an own stone, and nothing otherwise |
| GameLemmas.FlipsTowardCharacterized | src/othello/Game.java:235-245 | the stones turned over in one direction are exactly the cells of the opponent run that ends at an own stone |
| GameLemmas.FlipSetCharacterized | src/othello/Game.java:222-245 | the stones a move turns over are exactly the bracketed ones, and all of them are the opponent's |
| GameLemmas.MoveFlipsAtLeastOne | src/othello/Game.java:222-245 | a legal move turns over at least one stone, because the scan back from the end finds the bracketing run |
| GameLemmas.MovedBoard | src/othello/Game.java:171-176 | after a legal move: mode active, the other player to move, and the new stone plus exactly the bracketed stones in the mover's colour; every other cell and every hole is unchanged; one more cell is occupied; the board stays in range |
| GameLemmas.NewGameValid | src/othello/Game.java:83-93 | a game from `valueOf` has its cells in range, the new mode, black to move and the given size; it fails exactly on a bad size or a non-empty invalid layout |
| GameLemmas.StartPosition | src/othello/Game.java:22-30 | the default start is exactly W at (w/2, h/2) and (w/2+1, h/2+1), and B at (w/2+1, h/2) and (w/2, h/2+1): four cells, all in range |
| GameLemmas.LayoutCellsCharacterized | src/othello/Game.java:303-318 | (x, y) holds a stone exactly when row y-1, column x-1 of the layout is an occupant sign, with that sign; `-` leaves the cell free |
| GameLemmas.EndAndPassKeepValid | src/othello/Game.java:209-220 | ending and passing keep a game valid, ending twice is ending once, and a pass does not reopen an ended game |
| GameLemmas.PassMoveInvolution | src/othello/Game.java:209-211 | passing hands the turn to the other colour, and passing twice restores the game |
| GameLemmas.AddHoleEffect | src/othello/Game.java:187-201 | adding holes keeps the board in range and leaves every white and black stone as it was; a rectangle whose second corner is above or left of the first changes nothing |
| GameLemmas.EmptyGame | src/othello/Game.java:38-43 | the empty game is over, its board is in range, and it offers no move |
| OthelloShell.VerdictMeaning | src/othello/Shell.java:211-235 | a draw exactly when the white and black counts are equal; otherwise the winner has strictly more stones, and the reported numbers are the two counts |
| OthelloShell.HolesDoNotCount | src/othello/Shell.java:214-222 | holes do not affect the verdict |
| OthelloShell.AfterChangeInvariant | src/othello/Shell.java:201-209 | after a change, a player who cannot move passes, and the game ends when neither can move; the board is untouched and a running game always offers a move |
| OthelloShell.ParsePosition | src/othello/Shell.java:193-198 | an accepted position is on the board and its column is `x - 'A' + 1` |
| OthelloShell.ParsePositionOfToString | src/othello/Shell.java:193-198 | the shell reads back every on-board position rendered by `toString` |
| OthelloShell.ParseHole | src/othello/Shell.java:185-191 | an accepted hole has both corners on the board and the first not after the second in position order |
| OthelloShell.Render | src/othello/Shell.java:136-157 | `print` shows `height` rows of `width` signs each |
| OthelloShell.RenderedRowsValid | src/othello/Shell.java:142-154 | every printed row is a valid layout row without a comma |
| OthelloShell.LayoutOfRender | src/othello/Shell.java:142-154 | reading the printed rows as a layout gives back the board's cells |
| OthelloShell.RenderedBoardReloads | src/othello/Shell.java:136-157 | the printed board joined with commas is a layout `newGame` accepts, and it recreates the same board |
| OthelloShell.Shell.constructor | src/othello/Shell.java:18-19 | the shell starts running with the empty game |
| OthelloShell.Shell.CalculateWinner | src/othello/Shell.java:211-235 | ends the game and returns the verdict of the stone counts |
| OthelloShell.Shell.CalculatePass | src/othello/Shell.java:201-209 | the other player takes the turn if they can move; otherwise the game ends with its verdict |
| OthelloShell.Shell.SettleTurn | src/othello/Shell.java:92-94 | the move check after a change: nothing happens if the player can move, otherwise `calculatePass` runs |
| OthelloShell.Shell.CreateNewGame | src/othello/Shell.java:76-95 | `newGame` follows its guards in order (game over, 2 or 3 arguments, numbers, `valueOf`) and then settles the turn; the shell invariant is kept |
| OthelloShell.Shell.CreateHole | src/othello/Shell.java:97-117 | `hole` follows its guards in order (new mode, one argument, two parts, parsed corners, no stone inside), adds the holes and settles the turn; an empty first part crashes the shell |
| OthelloShell.Shell.Move | src/othello/Shell.java:119-134 | `move` needs a started game, one argument and a parsed position; a position that is not a possible move leaves the game as it was; otherwise the move is made and the turn settled |
| OthelloShell.Shell.Print | src/othello/Shell.java:136-157 | `print` needs a started game and shows the board's rows |
| OthelloShell.Shell.Abort | src/othello/Shell.java:159-163 | `abort` needs a started game, ends it and announces the verdict |
| OthelloShell.Shell.ShowPossibleMoves | src/othello/Shell.java:165-177 | `possibleMoves` needs a started game and shows the possible moves, which are never empty then |
| OthelloShell.Shell.Quit | src/othello/Shell.java:69-70 | `quit` clears `isRunning` and keeps the game |
| OthelloShell.NewGameGuard | src/othello/Shell.java:76-80 | `newGame` succeeds only in game-over mode with 2 or 3 arguments; any refusal leaves the game as it was |
| OthelloShell.HoleGuard | src/othello/Shell.java:97-112 | `hole` succeeds only in new mode with one argument, both corners on the board, the first not after the second, and no stone inside; any refusal leaves the game as it was |
| OthelloShell.StartedGuards | src/othello/Shell.java:119-163 | `move` and `abort` are refused without a started game; an impossible move leaves the game as it was; `abort` always ends the game |
| OthelloShell.ShellMoveEffect | src/othello/Shell.java:119-134 | a move made from the shell adds exactly one occupied cell and leaves the holes where they were |
| JavaStrings.Split | src/othello/Game.java:321 | `split` never ends with an empty field when there are two or more fields |
| JavaStrings.SplitJoin | src/othello/Game.java:321 | splitting a join of comma-free fields whose last field is non-empty gives the fields back |
| JavaStrings.NatToStringValue | src/othello/Position.java:57-59 | the decimal rendering of a number reads back as that number |
| Validations.Option.Get | src/minipraktomat/Option.java:121-124 | `get` is defined only on Some and returns the value the Some holds |
| Validations.Option.ToValidation | src/minipraktomat/Option.java:73-75 | `toValidation` of a Some is a success carrying its value |
| Validations.Validation.GetFailure | src/minipraktomat/Validation.java:121-124 | `getFailure` is defined only on a failure and returns what it carries |
| Validations.Validation.GetSuccess | src/minipraktomat/Validation.java:172-175 | `getSuccess` is defined only on a success and returns what it carries |
| Validations.Validation.ToOption | src/minipraktomat/Validation.java:87-89 | `toOption` is defined exactly on successes, with the success value |
| Validations.Fail | src/minipraktomat/Validation.java:32-34 | `fail(a)` is a failure whose `getFailure` is a |
| Validations.Succeed | src/minipraktomat/Validation.java:47-49 | `success(b)` is a success whose `getSuccess` is b |
| Validations.ValidationLaws | src/minipraktomat/Validation.java:77-89 | `isSuccess` is `!isFailure`; `toOption` and `toValidation` undo each other on successes; None is not defined; two Somes are equal exactly when their values are |
| NameRules.MatchesLowerPlusMeaning | src/minipraktomat/InputValidation.java:44 | `[a-z]+` matches exactly the non-empty strings of lower-case letters |
| NameRules.IsCorrectNameMeaning | src/minipraktomat/InputValidation.java:40-45 | a name is correct exactly when it is a non-empty string of `a`..`z`; names with a space, the empty name, and names with a capital or a digit are rejected |
| Data.CompareStringsLaws | src/minipraktomat/data/Tutor.java:36-38 | Java's string `compareTo` is zero exactly on equal strings and is antisymmetric |
| Data.TutorIdentity | src/minipraktomat/data/Tutor.java:36-68 | tutors are `equals` exactly when their names are equal; `compareTo` is antisymmetric |
| Data.CompareStudents | src/minipraktomat/data/Student.java:64-66 | `compareTo` is negative exactly when the first id is smaller, and zero exactly when the ids are equal |
| Data.StudentIdentity | src/minipraktomat/data/Student.java:64-84 | students are `equals` exactly when their ids are equal, equal students have equal `hashCode`, and `compareTo` is antisymmetric |
| Data.NewSolution | src/minipraktomat/data/Solution.java:28-30 | a solution built without a review is uncorrected and keeps its text, task and student |
| Data.ReviewedSolution | src/minipraktomat/data/Solution.java:44-47 | a solution built with a review is corrected, and `getReview` returns that review |
| Data.GetReview | src/minipraktomat/data/Solution.java:99-101 | `getReview` is defined only on a corrected solution and returns its review |
| Data.Correct | src/minipraktomat/data/Solution.java:110-112 | `correct` gives a corrected solution with the same text, task and student |
| Data.CorrectLaws | src/minipraktomat/data/Solution.java:110-112 | a corrected copy carries the given review, is `equals` to the original, and a second correction replaces the first review |
| Data.CompareSolutions | src/minipraktomat/data/Solution.java:114-116 | solutions are ordered by their students' ids |
| Data.SolutionIdentity | src/minipraktomat/data/Solution.java:114-134 | solutions are `equals` exactly when their students' ids are, whatever their text, task or review; equal solutions of one task hash alike |
| Data.EmptySelection | src/minipraktomat/data/Selection.java:46-48 | the empty selection holds no tutor |
| Data.SelectTutor | src/minipraktomat/data/Selection.java:36-38 | `selectTutor(t)` holds t |
| Data.SelectTutorForgets | src/minipraktomat/data/Selection.java:36-38 | the result of `selectTutor` does not depend on the old selection |
| Data.AverageOf | src/minipraktomat/data/Task.java:171-181 | the average is the -1 sentinel exactly when there are no corrected solutions; otherwise its count is their number |
| Data.AverageBounds | src/minipraktomat/data/Task.java:171-181 | with grades from 1 to 5, the grade sum lies between the count and five times the count |
| Data.Enumerate | src/minipraktomat/Praktomat.java:96-98 | copying a set into a list gives each element exactly once |
| Tasks.Partition | src/minipraktomat/data/Task.java:70-93 | the corrected and uncorrected solutions split the solution set in two |
| Tasks.ReplacedLaws | src/minipraktomat/commands/SubmitCommand.java:76-86 | after a remove-then-add the new solution is its student's only one, other students' solutions stay, and there is still one solution per student; the size grows only when the student had none |
| Tasks.Task.constructor | src/minipraktomat/data/Task.java:32-36 | a new task has the given text and id and no solutions |
| Tasks.Task.GetSolutions | src/minipraktomat/data/Task.java:61-63 | a list holding each solution once |
| Tasks.Task.GetCorrectedSolutions | src/minipraktomat/data/Task.java:70-78 | exactly the corrected solutions, each once |
| Tasks.Task.GetUncorrectedSolutions | src/minipraktomat/data/Task.java:85-93 | exactly the uncorrected solutions, each once |
| Tasks.Task.AddSolution | src/minipraktomat/data/Task.java:101-106 | adds the solution unless one by the same student is present; afterwards one is present; one solution per student is kept |
| Tasks.Task.RemoveSolution | src/minipraktomat/data/Task.java:114-116 | removes the solution by the same student and keeps every other one |
| Tasks.Task.FindSolution | src/minipraktomat/data/Task.java:125-132 | returns Some exactly when a solution of an `equals` student exists, and then one of them |
| Tasks.Task.GetReviews | src/minipraktomat/data/Task.java:139-147 | one review per corrected solution, and nothing else |
| Tasks.Task.AverageGrade | src/minipraktomat/data/Task.java:171-181 | the grade sum and count of the corrected solutions, or -1 when there are none |
| Tasks.TaskIdentity | src/minipraktomat/data/Task.java:149-169 | tasks are `equals` exactly when their ids are; equal tasks have equal `hashCode`; `compareTo` orders by id |
| Registry.AccumulateGrades | src/minipraktomat/data/Student.java:90-95 | the inner loop adds to the running sum and count exactly the grades and the number of the selected corrected solutions of one task |
| Registry.SumGrades | src/minipraktomat/data/Student.java:89-96 | the nested loops give the grade sum and count of the selected corrected solutions over all tasks |
| Registry.Praktomat.TaskIdsAreConsecutive | src/minipraktomat/commands/TaskCommand.java:56-57 | the task ids are exactly 1 to the number of tasks |
| Registry.Praktomat.constructor | src/minipraktomat/Praktomat.java:25-28 | a new registry has empty sets and the empty selection |
| Registry.Praktomat.SaveSelection | src/minipraktomat/Praktomat.java:45-50 | a null selection changes nothing; otherwise only the selection changes |
| Registry.Praktomat.AddTutor | src/minipraktomat/Praktomat.java:58-63 | a null tutor changes nothing; otherwise the tutor is added and nothing else changes |
| Registry.Praktomat.AddStudent | src/minipraktomat/Praktomat.java:71-76 | a null student, or a student whose id is taken, changes nothing; otherwise the student is added; ids stay unique |
| Registry.Praktomat.AddTask | src/minipraktomat/Praktomat.java:84-89 | a null task, or a task whose id is taken, changes nothing; otherwise the task is added |
| Registry.Praktomat.GetTutors | src/minipraktomat/Praktomat.java:96-98 | a list of all tutors, each once |
| Registry.Praktomat.GetStudents | src/minipraktomat/Praktomat.java:105-107 | a list of all students, each once |
| Registry.Praktomat.GetTasks | src/minipraktomat/Praktomat.java:131-133 | a list of all tasks, each once |
| Registry.Praktomat.GetStudentsOfTutor | src/minipraktomat/Praktomat.java:116-124 | exactly the students whose tutor equals the given one |
| Registry.Praktomat.GetSolutions | src/minipraktomat/Praktomat.java:140-146 | exactly the solutions of all tasks, each once, because solutions of different tasks name different task ids |
| Registry.Praktomat.GetUncorrectedSolutionsOfTutor | src/minipraktomat/Praktomat.java:155-166 | exactly the uncorrected solutions, over all tasks, whose student's tutor equals the given one, each once, so the list's size is their number |
| Registry.Praktomat.GetReviews | src/minipraktomat/Praktomat.java:173-179 | exactly the reviews of the corrected solutions of all tasks, one per corrected solution |
| Registry.Praktomat.FindTutor | src/minipraktomat/Praktomat.java:188-195 | Some exactly when a tutor with that name is registered, and then that tutor |
| Registry.Praktomat.FindStudent | src/minipraktomat/Praktomat.java:204-211 | Some exactly when a student with that id is registered, and then that student |
| Registry.Praktomat.FindTask | src/minipraktomat/Praktomat.java:220-227 | Some exactly when a task with that id exists, and then that task |
| Registry.Praktomat.GetSolutionsByStudent | src/minipraktomat/Praktomat.java:236-245 | exactly the student's solutions over all tasks, no two of them to the same task |
| Registry.Praktomat.AverageGradeWhere | src/minipraktomat/data/Tutor.java:40-55 | the grade sum and count of the corrected solutions that belong to the owner, or -1 when there are none |
| Registry.Praktomat.StudentAverageGrade | src/minipraktomat/data/Student.java:86-101 | `Student.averageGrade` without the division: the student's corrected solutions over all tasks, or -1 |
| Registry.Praktomat.TutorAverageGrade | src/minipraktomat/data/Tutor.java:40-55 | `Tutor.averageGrade` without the division: the corrected solutions of the tutor's students, or -1 |
| ShellCommands.Execute | src/minipraktomat/commands/ShellCommand.java:43-48 | with the wrong argument count the answer is the failure naming the expected count and nothing changes; otherwise the answer and the new registry state are exactly those of the command's own handling: `tutor` registers and selects the tutor, `student` adds the student of the selected tutor, `task` adds an empty task with the next id, `submit` replaces the student's solution, `review` corrects it; the registry invariants hold |
| ShellCommands.ArityCheckComesFirst | src/minipraktomat/commands/ShellCommand.java:43-48 | a wrong argument count is reported whatever the arguments and the registry hold |
| TutorCommands.TutorResult | src/minipraktomat/commands/TutorCommand.java:45-58 | `tutor` succeeds, with the empty message, exactly for a correct name; otherwise "invalid name" |
| TutorCommands.CreateTutor | src/minipraktomat/commands/TutorCommand.java:55-66 | an invalid name fails and adds nothing; a valid name yields the tutor of that name, registered if new |
| TutorCommands.Handle | src/minipraktomat/commands/TutorCommand.java:45-53 | on success the named tutor is registered once and selected; on failure nothing changes |
| StudentCommands.StudentResultMeaning | src/minipraktomat/commands/StudentCommand.java:46-80 | `student` succeeds exactly when a tutor is selected, the id parses, the name is correct and the id is a fresh number in 10000..99999; no selected tutor is reported first |
| StudentCommands.CreateStudent | src/minipraktomat/commands/StudentCommand.java:65-80 | the failures "invalid name", "invalid id" and "duplicate id" in that order; on success exactly this student is added |
| StudentCommands.Handle | src/minipraktomat/commands/StudentCommand.java:46-63 | on success exactly one student with the selected tutor is added; on failure the students are unchanged |
| TaskCommands.TaskResult | src/minipraktomat/commands/TaskCommand.java:43-55 | `task` fails with "invalid text" exactly for a text with a space; otherwise it answers "task id(N)" with N the task count plus one |
| TaskCommands.CreateTask | src/minipraktomat/commands/TaskCommand.java:52-59 | on success a new task with that text and id count + 1 is added; otherwise nothing changes |
| TaskCommands.Handle | src/minipraktomat/commands/TaskCommand.java:43-50 | on success one task is added and the set of ids grows by the next number; otherwise nothing changes |
| SubmitCommands.SubmitResultMeaning | src/minipraktomat/commands/SubmitCommand.java:47-88 | `submit` succeeds exactly when both ids parse, the text has no space, task and student exist and the student has no corrected solution to the task; an unknown task is reported before an unknown student |
| SubmitCommands.Submitted | src/minipraktomat/commands/SubmitCommand.java:63-88 | `createSolution` succeeds under exactly those conditions, and then yields an uncorrected solution to the task |
| SubmitCommands.CreateSolution | src/minipraktomat/commands/SubmitCommand.java:63-88 | on success the task's solutions are those with the new one in place of the student's earlier one; on failure no solution changes |
| SubmitCommands.Handle | src/minipraktomat/commands/SubmitCommand.java:47-61 | on success the task holds the new, uncorrected solution as the student's only one; otherwise nothing changes |
| ReviewCommands.ReviewResultMeaning | src/minipraktomat/commands/ReviewCommand.java:48-97 | `review` succeeds exactly when the numbers parse, the student exists, the text has no space, the grade is in 1..5 and the student has a solution to the task, corrected or not; an unknown student is reported first |
| ReviewCommands.ReviewedLaws | src/minipraktomat/commands/ReviewCommand.java:91-94 | a review keeps the number of solutions and one per student, and leaves the student's solution corrected with the given grade, text and the student's tutor, with its text unchanged |
| ReviewCommands.CreateReview | src/minipraktomat/commands/ReviewCommand.java:72-97 | the failures for text, grade, unknown task and missing solution in that order; on success the solution is replaced by its corrected copy and nothing else changes |
| ReviewCommands.Handle | src/minipraktomat/commands/ReviewCommand.java:48-70 | the answer follows the review checks, with the message "<tutor> reviewed (<id>,<name>) with grade <g>"; on success the student's solution is replaced by its corrected copy |

## Left out

- Console input and output are not modelled:
  - the Othello shell's read loop, command dispatch, "command not found" and the millisecond timing;
  - the printed messages ("passes", "Game Over!", "Move not possible."). Commands return a `Report` instead.
- `print` returns the board rows without the "turn:" line. `possibleMoves` returns the set of moves, not the sorted comma-separated text.
- The registry's console shell, `PartialShellCommand` and the report commands (task/student/tutor/review summaries, listing students and solutions) are not modelled. They only format text, sort and use floating-point averages.
- Floating-point division in `averageGrade`: only the integer grade sum, the count and the -1 sentinel (`NoGrade`) are modelled.
- `InputValidation.parseInt` (both programs) is a parameter `parseInt: string -> Option<int>`. The Java integer parser is not modelled.
- Java `int` overflow is not modelled; integers are unbounded. This affects `compareTo` differences and `hashCode` arithmetic.
- `hashCode` of a tutor (the name's string hash) is not modelled; only `equals` and `compareTo` are.
- HashSet and HashMap iteration order is not modelled. Loops take the elements in an unspecified order (`:|`), so list results are stated up to order.
- A `Solution` refers to its task by the task's id rather than by the `Task` object. The source uses the object only in `hashCode` and `toString`.
- `Student` and `Tutor` carry no back-reference to the registry. Their averages are computed on the registry (`Registry.Praktomat.StudentAverageGrade`, `Registry.Praktomat.TutorAverageGrade`).
- `Registry.Praktomat.StudentAverageGrade`: the source's reference comparison (`solution.getStudent() == this`) is modelled as value equality of students, since values have no identity here.
- `Registry.Praktomat.TutorAverageGrade`: the source's reference comparison `getTutor() == this` is modelled as value equality of tutors.
- `Review` is plain data with no lemmas of its own, and its unused setter is not modelled. The same goes for `GameMode`.
- `null` arguments:
  - they appear as `None` (`SaveSelection`, `AddTutor`, `AddStudent`) or as a null `Task?` (`AddTask`);
  - `Option.some(null)` and the `Some` constructor's null check have nothing to act on, because Dafny values are never null;
  - `Position.equals` answering true for a non-Position object is not expressible in a typed model.
- The getters' defensive copies are implicit: sets and maps are values, so a returned list cannot alias registry state.
- `Games.MoveTo`: requires the board invariant (every cell in range). The source's scans terminate on any board: `findEndPosition` stops at the first position off the board, and `getCellsToTransform` only continues over the finitely many stones. The model's termination measure, however, needs every cell in range. Every game the engine builds satisfies it (`GameLemmas.NewGameValid`, `GameLemmas.MovedBoard`, `GameLemmas.AddHoleEffect`).
- `Games.CalculateCells`: requires the rows to fit the board. The source calls it only after `isValidData` has accepted the layout.
- `OthelloShell.Shell.Move`: requires that no argument is empty (`Tokens`). The shell gets its arguments by splitting the trimmed input at white space, so none is.
- `OthelloShell.Shell.CreateHole`: same requirement as `Move`. An empty first corner (input `:B2`) throws an uncaught exception in the source, which ends the program. It is modelled as the `Crashed` error, which stops the shell.
- `Validations.Option.ToValidation`: requires a Some. On None the source's `get` throws `NoSuchElementException`.
- `Validations.Option.Get`, `OthelloOption.Option.Get`, `Validations.Validation.GetFailure`, `Validations.Validation.GetSuccess` and `Data.GetReview`: the source throws on the wrong constructor; here that case is a precondition.
- `Positions.ToString`: requires a column whose letter is a single character below the surrogate range. Every column of a board (1..26) qualifies.
- `Games.ShiftAll` and `Registry.AccumulateGrades` are the loops of `middleCells` and `averageGrade` extracted into methods of their own.
- The `Task.averageGrade` sentinel is modelled on the task (`Tasks.Task.AverageGrade`). `Student` and `Tutor` use the shared loop `Registry.Praktomat.AverageGradeWhere`.
