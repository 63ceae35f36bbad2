# Fox and Geese rules engine

A Dafny model of the rules engine in `combine.py`: a two-player Fox and Geese game played on the 33 cells of a
cross cut from a 7x7 grid. One fox moves and captures in eight directions. The geese move up, sideways or
diagonally up, one cell at a time, and never capture. Diagonal moves are allowed only along the lines drawn
on the board. Each full unit square of the cross carries one diagonal line, and the parity of its top-left
corner chooses which one.

The model has three modules:

- `topology.dfy`, modules `Options` and `Topology`:
  - the playable cells (`IsValidPoint`);
  - the diagonal lines, as the predicate `Connected`;
  - the start-up loop that builds the table of lines (`InitializeDiagonalConnections`), proved to build
    exactly the pairs `Connected` describes;
  - the table lookup (`HasDiagonalConnection`).
- `rules.dfy`, module `Rules`, the rules on a board value (49 squares, row by row):
  - the move list found by scanning the directions in order (`MovesAlong`, `LegalMoves`);
  - a cell-by-cell description of fox steps, fox jumps and goose steps, and proofs that the move lists hold
    exactly those moves;
  - what a move does to the board (`Apply`);
  - the trap scan (`FoxTrapped`).
- `game.dfy`, module `Game`:
  - the class `GameState`, with the board as a mutable array, the fox position, the goose list, the turn,
    the selection and its move list, and the end-of-game flags;
  - its methods, written as loops and in-place updates like the original;
  - the click dispatcher;
  - the invariant `Consistent`, which the constructor establishes and which `SelectPiece`, `MovePiece` and
    `Click` keep. It says the board, the fox position and the goose list agree, the selection comes with its
    move list, and the winner matches the end-of-game flag. The helper methods these call (the move scans,
    the trap scan, and the fox's and a goose's part of a move) neither assume nor promise it on their own.

Where the code and the usual description of the game disagree, the model follows the code:

- The game starts with 13 geese: all of row 4, plus columns 2 to 4 of rows 5 and 6.
- The fox wins only when a capture leaves fewer than three geese. The geese running out of moves is not a win.
- The geese win when the trap scan finds no escape for the fox. That scan runs after every goose move and does
  not consult the diagonal lines. `Rules.TrappedFoxHasNoMoves` shows that a fox it reports trapped really
  has no move. `Rules.TrapScanWeakerThanMoves` gives a board where the fox has no move, yet the scan does not
  report it trapped.

## Model

| member | source | states |
|---|---|---|
| Topology.ValidPointCount | combine.py:24-25 | Exactly 33 of the 49 grid cells are playable and 16 are not |
| Topology.InitializeDiagonalConnections | combine.py:30-53 | The nested loop over unit squares builds a table that holds a pair exactly when `Connected` holds for it (its loop invariant is carried by the helper lemmas `ConnectedWithinBlock`, `AddBlockPairs` and `NextBlockRow`) |
| Topology.FullBlockShape | combine.py:38-39 | A unit square has four playable corners exactly when it straddles rows 2-3 or 3-4, or columns 2-3 or 3-4 |
| Topology.OneDiagonalPerBlock | combine.py:47-53 | A full square carries the top-left to bottom-right line when (r + c) is even and the other line when it is odd, never both; a square that is not full carries none |
| Topology.ConnectedSymmetric | combine.py:49-53 | Every line is stored in both directions |
| Topology.DiagonalConnectionSymmetric | combine.py:55-63 | The lookup from (row, col) toward (dr, dc) agrees with the lookup back from the target toward (-dr, -dc) |
| Topology.DiagonalConnectionEnds | combine.py:55-63 | A lookup succeeds only for a diagonal unit step between two playable in-grid cells, so targets off the grid are never connected |
| Rules.DirectionLists | combine.py:137-161 | The fox's list holds each of the eight unit directions once; the goose's list holds, once each, the unit directions that do not go down |
| Rules.MovesAlongMembership | combine.py:139-157 | A move is in the scanned list exactly when one of the scanned directions yields it |
| Rules.MovesAlongExtend | combine.py:139-170 | Scanning one more direction appends what that direction yields |
| Rules.MovesAlongNone | combine.py:139-157 | When no direction yields a move, the list is empty |
| Rules.FoxTowardNoLine | combine.py:142-144 | A diagonal without a drawn line yields nothing for the fox |
| Rules.FoxTowardNoNeighbour | combine.py:145-150 | A neighbour off the cross, or one holding neither an empty square nor a goose, yields nothing |
| Rules.FoxTowardEmpty | combine.py:147-148 | An empty playable neighbour yields a step onto it without a capture |
| Rules.FoxTowardGoose | combine.py:150-157 | A neighbouring goose yields a jump onto the cell behind it, with the goose recorded as captured, exactly when that cell is open and, on a diagonal, both legs follow lines |
| Rules.FoxMoveTowardSound | combine.py:139-157 | A direction yields either a fox step or a fox jump, and the move leaves in that direction |
| Rules.FoxStepFound | combine.py:145-148 | Every fox step to an open cell along a line is found by the scan toward its own direction |
| Rules.FoxJumpFound | combine.py:150-157 | Every jump over a neighbouring goose onto an open cell, with both legs along lines, is found by the scan toward its own direction |
| Rules.FoxMovesCharacterized | combine.py:136-157 | The fox's move list holds exactly its one-cell steps to open cells and its jumps over a goose, diagonals only along lines |
| Rules.GooseMoveTowardSound | combine.py:162-170 | A direction that does not go down yields, if anything, a goose step in that direction |
| Rules.GooseStepFound | combine.py:162-170 | Every goose step is found by the scan toward a direction on the goose's list |
| Rules.GooseMovesCharacterized | combine.py:159-170 | A goose's move list holds exactly its one-cell steps, never downwards and never capturing, to open cells along lines |
| Rules.LegalMoveFacts | combine.py:135-170 | Every listed move lands on an open cell other than its origin, and only the fox captures: the captured cell holds a goose and differs from both ends |
| Rules.MoveTowardShape | combine.py:139-170 | A found move lands one cell, or for a fox jump two cells, along its direction |
| Rules.MovesAlongDirections | combine.py:139-170 | Every listed move leaves in a scanned direction and lands one or two cells along it |
| Rules.DistinctDirectionsDistinctCells | combine.py:137-138 | Cells one or two steps along two different unit directions never coincide |
| Rules.MovesAlongDistinctDestinations | combine.py:139-170 | Scanning distinct unit directions never lists two moves with the same destination |
| Rules.LegalDestinationsDistinct | combine.py:178-181 | A move list never holds two entries for the same destination, so the lookup by destination finds a single entry |
| Rules.ApplyCells | combine.py:183-190 | A move empties its origin, puts the piece on its destination, empties the captured cell and leaves every other cell alone |
| Rules.ApplyCounts | combine.py:183-195 | A move keeps the goose count, except that a capture lowers it by exactly one; the fox count never changes |
| Rules.ApplyLegalMove | combine.py:183-195 | A listed move never writes an off-board cell, changes only its origin, destination and captured cell, and changes the goose count only by its capture |
| Rules.FoxMoveIsEscape | combine.py:207-219 | Whatever the fox's scan finds in a direction, the trap scan counts as an escape in that direction |
| Rules.TrappedFoxHasNoMoves | combine.py:207-222 | A fox the trap scan reports trapped has an empty move list |
| Rules.TrapScanWeakerThanMoves | combine.py:209-219 | The converse fails: on the witness board `StalledBoard` the fox on (2, 3) has no move, but the trap scan sees escapes along the diagonals and does not report it trapped |
| Rules.StalledFoxStuck | combine.py:139-157 | On that board no direction yields a move for the fox on (2, 3) |
| Rules.StalledNoDiagonal | combine.py:55-63 | No drawn line passes through (2, 3) |
| Rules.StalledBlocked | combine.py:145-152 | On that board each orthogonal neighbour of (2, 3) holds a goose with no open cell behind it |
| Game.ChosenMove | combine.py:178-181 | The chosen entry lands on the clicked cell, and no earlier entry does |
| Game.ChosenMoveUnique | combine.py:178-181 | With distinct destinations, the chosen entry is the one listed move that lands on the clicked cell |
| Game.CaptureFor | combine.py:177-181 | The loop returns the capture of the first entry landing on the clicked cell, or none when no entry does |
| Game.ChosenMoveFirst | combine.py:178-181 | The first entry that lands on the cell is the chosen one |
| Game.RemoveFirst | combine.py:191-192 | Removing a listed cell shortens the list by one; removing an absent cell leaves it as it was |
| Game.RemoveFirstShape | combine.py:197-198 | Removal drops exactly the first occurrence and keeps the order of the rest |
| Game.RemoveFirstDistinct | combine.py:191-192 | Removing x from a list without repeats leaves a list without repeats holding every other entry and only those |
| Game.RemoveAtDistinct | combine.py:197-198 | Dropping one entry keeps a list free of repeats |
| Game.RemoveAtMembers | combine.py:197-198 | Dropping entry k of a list without repeats removes that cell and no other |
| Game.InitialGeeseFacts | combine.py:94-103 | The starting goose list names 13 distinct cells: exactly the playable cells of rows 4 to 6 |
| Game.InitialGeeseRows | combine.py:94-103 | The starting goose list is row 4 from left to right, then columns 2 to 4 of row 5, then the same columns of row 6 |
| Game.InitialLayers | combine.py:76-103 | The starting board is the blank board, then the fox on (3, 3), then the geese rows, each laid over the last |
| Game.NewBoard | combine.py:76-84 | The new board has every playable cell empty and every other cell off the board |
| Game.PlaceGeese | combine.py:95-103 | Puts a goose on each cell of a row segment, appends those cells to the goose list in order, and touches no other cell |
| Game.InitialBoardPlacement | combine.py:86-103 | The starting board is well formed, has its only fox on (3, 3), and the starting list names exactly its geese |
| Game.AppendDistinct | combine.py:199 | Appending a cell not yet listed keeps the goose list free of repeats |
| Game.FoxPlacementAfter | combine.py:186-192 | After a fox move the fox stands only on its destination, and the goose list minus the captured cell names exactly the geese left |
| Game.GoosePlacementAfter | combine.py:196-199 | After a goose move the fox stays where it was, and the list without the old cell, plus the new one at the end, names exactly the geese |
| Game.MoveKeepsPlacement | combine.py:183-199 | Any listed move keeps the board well formed and keeps the fox position and the goose list in step with it |
| Game.ListedMoveCells | combine.py:173-184 | The selected piece's listed move involves the cells it should: a piece at the origin, an empty destination, a goose if captured |
| Game.MoveConsistent | combine.py:172-205 | A move of the selected piece in a game still on keeps the game's invariant; the fox wins exactly when a capture leaves fewer than three geese, and the geese win only with the fox trapped |
| Game.GameState.constructor | combine.py:74-111 | The fox is on (3, 3), the 13 geese fill rows 4 to 6, the geese move first, nothing is selected, the game is on, and the invariant holds |
| Game.GameState.CalculateValidMoves | combine.py:128-170 | The move list becomes the legal moves of the selected piece, or stays empty without a selection |
| Game.GameState.CollectFoxMoves | combine.py:136-157 | The loop over the eight directions builds the fox's move list |
| Game.GameState.ScanFoxDirection | combine.py:140-157 | One direction of the fox loop appends the step or jump found toward it, or nothing |
| Game.GameState.CollectGooseMoves | combine.py:159-170 | The loop over the five directions builds the goose's move list |
| Game.GameState.ScanGooseDirection | combine.py:163-170 | One direction of the goose loop appends the step found toward it, or nothing |
| Game.GameState.SelectPiece | combine.py:113-126 | Succeeds exactly when the game is on, the cell is playable and it holds the mover's piece; it then selects the cell and lists that piece's legal moves; otherwise the selection and move list stay as they were |
| Game.GameState.CheckIfFoxTrapped | combine.py:207-222 | Reports the fox trapped exactly when no direction offers an escape, and only then ends the game for the geese |
| Game.GameState.MovePiece | combine.py:172-205 | Moves only when a piece is selected and the cell is a listed destination, and never after the game ends; a refused move changes nothing. A move applies the chosen listed move to the board, updates the fox position or the goose list to match, sets the end of game as the rules say, clears the selection, passes the turn and keeps the invariant |
| Game.GameState.MoveFox | combine.py:186-195 | The fox's part of a move records its position, takes the captured goose off the board and the list, and ends the game exactly when fewer than three geese remain |
| Game.GameState.MoveGoose | combine.py:196-200 | The goose's part of a move trades its old cell for the new one at the end of the list, and ends the game exactly when the trap scan reports the fox trapped |
| Game.GameState.Click | combine.py:332-343 | A click after the game ends or off the grid changes nothing. A click on a listed destination of the selected piece makes the first listed move landing there: the board becomes that move applied, the fox position or the goose list follows it, the game ends as the rules say, the selection clears and the turn passes. Any other click leaves the pieces and the turn alone and selects the clicked cell if it holds the mover's piece, otherwise clears the selection; the invariant holds throughout |

## Left out

- Drawing, the window, the clock, fonts and overlays (combine.py:227-313) have no rules logic and are not part of this model.
- The event loop (combine.py:318-351) is not part of this model. So is the mouse-to-cell pixel arithmetic (combine.py:329-331). `Click` takes the grid cell directly and ignores cells off the grid, as combine.py:332 does.
- The restart key (combine.py:326-327) is not part of this model. It replaces the game with a fresh one, which is the constructor.
- board.py is not part of this model. It is a drawing script, and its playable-cell test duplicates `IsValidPoint`.
- The global dictionary and its `clear()` (combine.py:28-33) are modelled as a value. `InitializeDiagonalConnections` returns the table as a set of pairs. Lookups use the predicate `Connected`, which that method is proved to build.
- The board is a flat array of 49 squares, indexed by `row * 7 + col`, instead of a list of seven row lists.
- The cell values `None`, 0, 1 and 2 become the datatype `Square`. The winner strings "Fox" and "Geese" become `Side`.
- Game.GameState.SelectPiece: requires a playable cell to lie on the grid. The model does not follow Python's negative indexing for out-of-range coordinates, which the dispatcher never passes.
- Game.GameState.MovePiece: requires the game's invariant. The original has no such check; the constructor establishes the invariant and `SelectPiece`, `MovePiece` and `Click`, the operations the dispatcher calls, keep it.
- The loop bodies of `calculate_valid_moves` are separate methods (`ScanFoxDirection`, `ScanGooseDirection`), and `continue` becomes an early return from them. The loops themselves are `CollectFoxMoves` and `CollectGooseMoves`.
