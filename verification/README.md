# Connect Four game logic in Dafny

This project models the game logic of a browser Connect Four game (`connect4.js`)
with the page rendering removed, and proves properties of that logic. Two players,
1 and 2, take turns dropping pieces into the columns of a 6-row by 7-column grid.
A piece falls to the lowest empty cell of its column. A player who gets four
pieces in a horizontal, vertical or diagonal line wins. A grid filled with no
winner is a tie.

The project has three modules:

- `Board` (`board.dfy`) covers the grid.
  - Cells are `Empty` or `Piece(p)`. The game stores `null` or the number 1 or 2 in a cell, and a cell is truthy exactly when it holds a piece.
  - It has the empty board from `makeBoard` and the gravity scan `findSpotForCol`.
  - It has the tie test `board.every(row => row.every(cell => cell))`.
  - It counts cells, used to state that each move adds exactly one piece.
- `Detect` (`detect.dfy`) covers `checkForWin` and its helper `_win`.
  - `Win` is `_win`: it walks a list of coordinates and tests each coordinate's bounds before reading the board.
  - `WinsFrom` tries the four candidate lines from one cell in the game's order.
  - `ScanRow` and `ScanRows` are the two nested `for` loops.
  - `HasFourInARow` is an independent statement of the rule: four pieces of one player in a straight line in any of the eight directions. The scan is proved to agree with it.
- `Game` (`game.dfy`) covers the state `(board, currPlayer, gameOver)` and the state-changing part of `handleClick`.
  - `Step` is one click on a column. It is ignored when the game is over or the column is full. Otherwise the piece is placed, then the game ends on a win, or else ends on a full board, or else the turn passes.
  - `Run` is a sequence of clicks.
  - Invariants hold in every reachable state: the pieces are stacked without gaps, the players alternate, and a running game has neither a winner nor a full board.
  - A worked game is included: player 1 fills column 3 while player 2 plays column 0, and player 1 wins on the fourth drop.

The game keeps its state in three global variables. Here the state is an
immutable `GameState` value, and a click returns the next state. The column
clicked is a parameter in the range `0 <= x < WIDTH`. The player whose win is
checked (the global `currPlayer` that `_win` reads) is a parameter `p`.

## Model

| member | source | states |
|---|---|---|
| Board.EmptyRow | connect4.js:24-27 | a row built by pushing `n` nulls has `n` cells, all empty |
| Board.EmptyRows | connect4.js:23-29 | `n` pushed rows: `n` rows of WIDTH cells, every cell empty |
| Board.MakeBoard | connect4.js:22-30 | the new board has exactly HEIGHT rows of WIDTH cells each, and every cell is empty |
| Board.ScanUp | connect4.js:81-86 | scanning a column upward from row `y`: no row is found exactly when cells 0..y are all occupied; a found row is empty, and every cell between it and `y` is occupied |
| Board.FindSpotForCol | connect4.js:80-87 | returns null exactly when every cell of the column is occupied; otherwise returns the lowest empty row, i.e. the cell is empty and every cell below it is occupied |
| Board.Place | connect4.js:124 | writing the current player into `board[y][x]` keeps the 6×7 shape, sets that cell, and leaves every other cell as it was |
| Board.RowFull | connect4.js:133 | `row.every(cell => cell)`: true exactly when every cell of the row holds a piece |
| Board.IsFull | connect4.js:133 | the tie test: true exactly when every cell of every row holds a piece |
| Board.PlaceCounts | connect4.js:124 | placing into an empty cell adds exactly one piece of the mover, removes one empty cell, leaves the other player's count alone, and raises the piece count by one |
| Board.FullIffNoEmpty | connect4.js:133 | the tie test holds exactly when the board has no empty cell left |
| Board.FullIffAllPieces | connect4.js:133 | on a 6×7 board the tie test holds exactly when the pieces number HEIGHT × WIDTH = 42 |
| Detect.OwnedFrom | connect4.js:153-160 | from position `k` on, true exactly when every remaining coordinate is on the board and holds the player's piece; each coordinate's bounds are tested before the board is read |
| Detect.Win | connect4.js:148-161 | true exactly when every coordinate of the list is on the board and holds the player's piece; the bounds test comes first, so the board is never read outside its bounds |
| Detect.WinLine | connect4.js:166-189 | a candidate line built from a start cell and a direction passes `_win` exactly when its four cells are a run of the player |
| Detect.WinsFrom | connect4.js:166-193 | the four tests of one start cell, horizontal, vertical, down-right and down-left, succeed exactly when one of the four lines from that cell is a run of the player |
| Detect.ScanRow | connect4.js:164-194 | the inner loop over columns from `x` finds a win exactly when some start cell in that row at column `x` or later begins a run |
| Detect.ScanRows | connect4.js:163-195 | the outer loop over rows from `y` finds a win exactly when some start cell in rows `y` and below begins a run |
| Detect.CheckForWin | connect4.js:147-196 | true exactly when some on-board start cell and one of the four directions (0,+1), (+1,0), (+1,+1), (+1,−1) give four on-board cells of the player |
| Detect.CheckForWinComplete | connect4.js:163-196 | the scan misses no line: it reports a win exactly when the player has four in a row in any of the eight directions |
| Detect.PlaceKeepsOtherRuns | connect4.js:124-128 | placing a piece of one player never creates a line of four for the other player |
| Game.Initial | connect4.js:11-13 | the game starts with an empty 6×7 board (42 empty cells), player 1 to move, and not over |
| Game.Toggle | connect4.js:138 | switching players always yields the other player |
| Game.EndGame | connect4.js:101-102 | ending the game raises the game-over flag and changes neither the board nor the current player |
| Game.Drop | connect4.js:124-138 | after the landing row is known: the mover's piece goes in and nothing else on the board changes; a line of four for the mover ends the game and keeps the mover as current player; otherwise a full board ends the game, again keeping the mover; otherwise the turn passes to the other player and the game goes on |
| Game.Step | connect4.js:112-138 | a click on a finished game, or on a full column, changes nothing. Otherwise the mover's piece fills the lowest empty cell of the column and no other cell changes. Then: a win ends the game without toggling; otherwise a full board ends it as a tie; otherwise the player switches and the game stays on |
| Game.Run | connect4.js:112-114 | a sequence of clicks keeps the 6×7 shape; once the game is over, no sequence of clicks changes the board, the current player or the flag |
| Game.StepCounts | connect4.js:118-124 | an accepted click adds exactly one piece of the mover, one fewer empty cell, the same count for the other player, and one more piece in all |
| Game.StepKeepsPieces | connect4.js:118-124 | no click moves or changes a piece already on the board |
| Game.StackedColumnFull | connect4.js:80-87 | when the pieces are stacked, a column is full exactly when its top cell is taken |
| Game.StepKeepsStacked | connect4.js:118-124 | a click keeps every column stacked from the bottom with no gap |
| Game.InitialInvariant | connect4.js:11-13 | the starting state satisfies the game invariant |
| Game.StepKeepsInvariant | connect4.js:112-138 | one click preserves the invariant: stacked pieces; alternating counts (player 1 has as many pieces as player 2, or one more exactly when player 1 moved last); a finished game shows a line of the last mover or a full board; a running game has no line for either player and a free cell |
| Game.RunKeepsInvariant | connect4.js:112-138 | any sequence of clicks from a state that satisfies the invariant ends in a state that satisfies it |
| Game.Reachable | connect4.js:112-138 | every state reachable from the start by any clicks satisfies the invariant: stacked pieces, alternating counts, and the end-of-game conditions. (That the current player is always 1 or 2 comes from the type `Board.Player`, which the verifier checks wherever a current player is produced, not from this lemma.) |
| Game.OpenColumnExists | connect4.js:118-121 | in every reachable state where the game is still on, some column accepts a click |
| Game.LandsAt | connect4.js:118-124 | a click on a running game lands at the column's lowest empty row |
| Game.VerticalWinExample | connect4.js:112-138 | in the game 3, 0, 3, 0, 3, 0, 3 the game is still on after six clicks; the seventh ends it with player 1 as the winner, holding a line of four |

## Left out

- Rendering is not modelled. This covers `makeHtmlBoard`, `placeInTable`, the status text and its CSS classes, and the module-level `document.querySelector` (connect4.js:14-16, 34-63, 91-97, 103-104, 141-142). None of it affects the game state.
- The end-of-game message passed to `endGame` (the winner or "Tie!") is not modelled. Only its `gameOver = true` effect is, in `Game.EndGame`. The winner is still recorded, because `currPlayer` is left as the mover.
- The reset toggle and its delayed `window.location.reload()` (connect4.js:66-76, 199-203) are not modelled. They are page I/O and a timer. A reload restarts from `Game.Initial`.
- Reading the column from the clicked element's id with `+evt.target.id` (connect4.js:115) is not modelled. The column is an integer parameter with the precondition `0 <= x < WIDTH`. Non-numeric or out-of-range ids are outside the model.
- `checkForWin` returns `true` or, when nothing is found, `undefined`. The model returns `true` or `false`, which agree under the `if` that tests it.
- `makeBoard` is not modelled as appending rows to a global array. It pushes rows onto a global array that starts empty, and it is called once at start-up (connect4.js:205). The model returns a fresh 6×7 board. Calling the original a second time would give a 12-row board.
- The game's state is three global variables. The model uses an immutable state value, and a click returns the next state.
- The game shows three kinds of status text: "Player N's turn", "Player N won!" and "Tie!" (connect4.js:62, 129, 134, 141). The text is not modelled. The code keeps only a `gameOver` flag plus `currPlayer`, and so does the model: a finished game is a win exactly when the current player has a line of four, otherwise a tie.
