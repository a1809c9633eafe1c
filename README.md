# Petteia rule engine in Dafny

A model of the rule engine of Petteia, a two-player custodial-capture game
on an 8x8 board. Pieces slide like rooks, along a row or a column, through
empty cells only. A piece of the opponent is captured when the mover lands
next to it and another piece of the mover stands directly behind it on the
same line. The engine keeps three pieces of state: the board, the player to
move (`currentPlayer`) and the selected piece (`selected`). A click either
selects a piece of the player to move, or tries to move the selected piece
to the clicked cell.

The model keeps the original's coordinate convention: `board[y][x]`, with
x the column and y the row. In the class the board is `board[y, x]`, and as
a value it is `g[y][x]`.

- `board.dfy`, module `Board`: colours, cells, positions, the grid value,
  the starting position and the piece counts, with lemmas about how a
  one-cell write changes a count.
- `rules.dfy`, module `Rules`: the rules on grid values. It covers
  `isOrthogonalMove`, the path-clear condition, capture detection (`Sandwiched`,
  `CaptureScan`, `Captures`), applying a move (`ApplyMove`) and emptying the
  captured cells (`ClearAll`).
- `engine.dfy`, module `Engine`: the game state as a value (`GameState`) and
  one click as a function on it (`Step`), with lemmas about turns,
  selection, cells and counts. The class `Game` is the mutable engine. Its
  fields are the original's: an `array2<Cell>` board, `currentPlayer` and
  `selected`. Its methods follow the original's loops: `IsPathClear`,
  `CheckCapture`, the counting loop `CountPieces`, the removal loop
  `ClearCaptured`, and the click handler `Click`. `Click` is proved to
  perform `Step` and to keep the invariant `Valid()`.

`Valid()` says that the board is 8x8 and that a selected cell holds a piece
of the player to move. Every cell is empty, black or white by its type
(`Cell = Empty | Piece(Color)`).

## Model

| member | source | states |
|---|---|---|
| `Board.Opponent` | game.js:86 | the opponent of a colour is the other colour |
| `Engine.Game.constructor` | game.js:28-39 | a new game has Black to move, nothing selected, and a fresh board equal to the starting position: row 0 black, row 7 white, every other cell empty |
| `Board.InitialCounts` | game.js:28-39 | the starting position holds exactly 8 black and 8 white pieces |
| `Engine.Game.CountPieces` | game.js:9-17 | the nested counting loop returns the number of black and the number of white pieces on the board; it changes nothing |
| `Board.CountsAtMost64` | game.js:9-17 | on any 8x8 board the black and white counts add up to at most 64 |
| `Board.CountPut` | game.js:9-17 | writing one cell changes a colour's count by what was removed and what was written, and nothing else |
| `Rules.IsOrthogonalMove` | game.js:66-68 | a move is orthogonal exactly when the target is k >= 0 unit steps away in one of the four directions; diagonal and other non-aligned targets are rejected |
| `Engine.Game.IsPathClear` | game.js:70-83 | for two distinct, in-bounds cells on one row or column, the stepping loop terminates and returns true exactly when every cell strictly between them is empty; it does not modify the board |
| `Rules.PathClearIgnoresEndpoints` | game.js:70-83 | whether a path is clear does not depend on what stands on either endpoint |
| `Rules.MoveAllowed` | game.js:119 | an allowed move lands on an empty cell; when it starts from a piece, it starts and ends on different cells of one row or column, so the path check is never asked about a zero-length move |
| `Rules.OccupiedDestinationRejected` | game.js:119 | a move to an occupied cell is never allowed, whatever its direction or path |
| `Engine.ClickOnSelectedRejected` | game.js:119 | clicking the selected piece itself fails the empty-destination check, so the attempt is rejected and only the selection is dropped; the path check never sees from == to |
| `Rules.ApplyMove` | game.js:139-140 | applying a move empties the origin, puts the moving piece on the destination when the two differ, and leaves every other cell as it was |
| `Rules.ApplyMoveCounts` | game.js:139-140 | moving a piece onto an empty cell keeps the count of every colour |
| `Engine.Game.MovePiece` | game.js:139-140 | the two array writes turn the board into the moved board |
| `Rules.SandwichedShape` | game.js:96-103 | in a sandwich the neighbour and the cell beyond it are on the board, the neighbour lies strictly between the landing cell and the flanking piece on one line, and the two pieces differ |
| `Rules.CaptureScan` | game.js:91-107 | the scan of the first n directions returns at most n cells. Each is the neighbour p+d of a direction d for which p+d holds an opponent and p+2d a piece of the mover, both on the board. Every such neighbour among the first n directions is returned |
| `Rules.Captures` | game.js:85-109 | a capture list has at most 4 entries; each is on the board and holds an opponent piece |
| `Rules.CapturesExactly` | game.js:85-109 | a cell is captured exactly when it is p+d for one of the four directions d with p+d, p+2d on the board, p+d the opponent and p+2d the mover |
| `Rules.CapturesDistinct` | game.js:87-108 | no cell appears twice in a capture list |
| `Engine.Game.CheckCapture` | game.js:85-109 | the direction loop returns exactly the captures, in scan order, of the player to move landing at (x, y); it does not modify the board |
| `Rules.ClearAll` | game.js:143-156 | after removal, a listed cell is empty and every other cell keeps its value |
| `Rules.ClearAllCounts` | game.js:143-156 | clearing distinct cells that all hold colour o lowers o's count by their number and keeps every other colour's count |
| `Engine.Game.ClearCaptured` | game.js:143-156 | the removal loop empties exactly the listed cells |
| `Engine.Step` | game.js:118-170 | one click keeps the invariant: the board stays 8x8, and a selected cell holds a piece of the player to move. After any click made while a piece was selected, nothing is selected |
| `Engine.TurnFlipsIffMoved` | game.js:158-164 | the player to move changes exactly when a move passes all three checks, and then to the opponent; it never changes otherwise |
| `Engine.RejectedAttemptDeselects` | game.js:161-164 | a rejected move attempt drops the selection and leaves board and player unchanged |
| `Engine.IdleClick` | game.js:165-170 | with nothing selected, a click on a piece of the player to move selects it, and any other click changes nothing |
| `Engine.MoveCells` | game.js:139-156 | after a completed move, the destination holds the mover's piece and the origin is empty. Every captured cell held an opponent piece before the move and is now empty. Every other cell is unchanged. The captures are computed on the board after the move and before any removal |
| `Engine.MoveCounts` | game.js:139-156 | a completed move keeps the mover's count and lowers the opponent's count by the number of captured pieces |
| `Engine.CountsNeverGrow` | game.js:118-170 | no click ever raises the count of either colour |
| `Engine.Game.CompleteMove` | game.js:139-159 | the successful branch moves the piece, removes the captures, flips the turn and clears the selection, which is `Step` on the state |
| `Engine.Game.Click` | game.js:118-170 | one click is one atomic step. It keeps `Valid()`, keeps the same board array, and leaves exactly the state `Step` gives for the state before |

## Left out

- Rendering and the DOM are not modelled: `renderBoard`, `updateTurnText`, the counter text writes of `updateCounters`, `querySelector`, `classList` and the cell's `dataset`. The counts are returned by `CountPieces` instead of being written to the page.
- The clicked cell's coordinates come from `parseInt` on DOM data. The model takes an in-bounds `(x, y)` as a precondition of `Click`; an out-of-bounds click is a caller error and has no modelled behaviour.
- The animations and the `await` pauses during a move and during each capture are not modelled. A click is one synchronous, atomic step, so a click that arrives during a pause (re-entrancy) is not modelled.
- The `if(!capCell) continue` and `if(!capPiece) continue` guards check the DOM. The model always empties every captured cell.
- The listener wiring and the `initBoard(); renderBoard();` bootstrap are left out. `Engine.Game.constructor` stands for the module-level initial state plus `initBoard`.
- Engine.Game.constructor: `initBoard` is modelled only as the start of a session. Calling it again in mid-game (which the original never does) would keep a stale selection; that case is left out.
- Engine.Game.IsPathClear: its caller passes two distinct cells on one row or column, and the method requires this. For equal endpoints the original picks the step -1 and walks up the column from the cell above. It returns false at the first occupied cell, and when every cell above is empty it reads past the top row and fails. The caller never reaches that case (`Rules.MoveAllowed`).
- A zero-length move fails because the selected cell is not empty (`Engine.ClickOnSelectedRejected`).
- `Click` returns nothing. What a click did is read from the state before and after, through `Step`.
- Capture detection uses `currentPlayer`, as game.js:86 does. By `Valid()` this is the colour of the moved piece.
