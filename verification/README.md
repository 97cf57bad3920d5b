# Connect Four game engine in Dafny

This project models the game-state engine of a browser Connect Four game
(`connect4.js`). The board is a fixed grid of `HEIGHT = 6` rows and
`WIDTH = 7` columns, stored as rows, `board[y][x]`, with row 0 at the top.
Each cell is empty (`null`) or holds a piece of player 1 or player 2.
The model covers the following:

- building the empty board (`makeBoard`);
- finding where a piece dropped into a column lands (`findSpotForCol`);
- the coordinate bounds test (`validCoord`);
- win detection (`checkForWin` and its inner `_win`), which checks the
  four-cell window starting at every cell in four directions: horizontal,
  vertical, down-right and down-left;
- the game logic of a click (`handleClick`): drop the piece, test for a
  win, then test for a tie, and only then pass the turn;
- clearing the board (`resetBoard`).

Modules:

- `Grid` (`grid.dfy`) holds the board, cells, players, `MakeBoard`,
  `ValidCoord`, `FindSpot`, piece placement, piece counting and gravity.
- `WinCheck` (`wincheck.dfy`) holds the window test `Win`, the per-cell
  test `WinsAt`, and the board check in two forms. `CheckForWin` is a pure
  function used by the move logic. `ScanForWin` is the nested loop with
  early return, as the game runs it. It also defines `HasFour`, a
  declarative "some player has four in a line", and both forms are proved
  equal to it.
- `Game` (`game.dfy`) holds the `State` (board and current player), the
  click transition `Step`, `Reset`, and an invariant `Consistent` that every
  click and every reset preserve.

Where the code differs from a textbook Connect Four, the model follows the code:

- A finished game is not locked. After a win or a tie the code only shows
  an alert, and later clicks are still played. `Step` reports the alert as
  an `Outcome` (`Won(p)` or `Tied`). The next state is still a normal
  state.
- The win test counts four of ANY player, namely the player found at the
  window's first cell. The comment on `_win` says it checks against the
  current player, but the code does not. So once a four is on the board,
  every later drop is announced as a win for the mover, and the turn does
  not pass again until the board is reset (`Game.WinIsSticky`,
  `Game.WinIsStickyForever`). A reset clears the four, so the next click
  with room passes the turn as usual.
- The tie test only looks at the top row. Under gravity this is the same
  as a full board (`Game.TieMeansFull`).
- `resetBoard` empties the cells and keeps `currPlayer`.
- There is no "column full" error. A click on a full column, or on a
  column index off the board, is ignored (`findSpotForCol` returns `null`
  because `board[y][x]` is `undefined`, which is not `=== null`).
- The dimensions are constants. They are not parameters, so there is no
  invalid-dimension error.

## Model

| member | source | states |
|---|---|---|
| Grid.MakeBoard | connect4.js:21-30 | the built board has exactly HEIGHT rows of exactly WIDTH cells and every cell is empty |
| Grid.EmptyBoard | connect4.js:21-30 | the empty board as a value: well-formed and all cells empty |
| Grid.EmptyBoardUnique | connect4.js:21-30 | any two all-empty well-formed boards are equal, so the board `makeBoard` builds is the one the initial state and a reset use |
| Grid.Other | connect4.js:121 | switching the turn always gives the other player |
| Grid.ValidCoord | connect4.js:172-178 | a coordinate passes exactly when 0 <= y < HEIGHT and 0 <= x < WIDTH |
| Grid.ValidCoordIsIndex | connect4.js:172-178 | on a well-formed board, the bounds test accepts exactly the coordinates that index a cell |
| Grid.SpotFrom | connect4.js:71-76 | scanning upwards from row y returns the first empty row at or above y, with every scanned row below it filled; it returns None exactly when the column is off the board or rows 0..y are all filled |
| Grid.FindSpot | connect4.js:70-77 | the result is the largest empty row of column x, with every row below it filled; it is None exactly when x is off the board or the column is full |
| Grid.DropStacksUp | connect4.js:70-77 | under gravity, after a piece lands on row y the next drop into that column lands on row y - 1, or the column is full when y = 0; on an empty board the first drop lands on the bottom row |
| Grid.Place | connect4.js:108 | the placed cell holds the player's piece and every other cell is unchanged |
| Grid.CountRowFull | connect4.js:117 | a row holds as many pieces as it has cells exactly when none of its cells is empty |
| Grid.PlaceCount | connect4.js:108 | placing on an empty cell increases the number of pieces by exactly one |
| Grid.GravityStacks | connect4.js:116 | under gravity, a piece in a column has pieces in every row below it |
| Grid.PlaceKeepsGravity | connect4.js:101-108 | dropping at the spot `findSpotForCol` returns keeps every piece resting on a piece or on the bottom row |
| WinCheck.Window | connect4.js:158-161 | each window is four coordinates starting at the anchor, each one step after the last along its direction |
| WinCheck.AnchorDecides | connect4.js:139-148 | only the player at the window's first cell can own the whole window |
| WinCheck.Win | connect4.js:138-149 | the window test holds exactly when some player owns all of the window's cells, each of them on the board |
| WinCheck.EveryDirection | connect4.js:158-164 | a four starting at a cell runs along one of the four directions the code tries |
| WinCheck.WinsAt | connect4.js:164 | the four window tests at (y, x) succeed exactly when some player has four in a line starting at (y, x) |
| WinCheck.FourStartsOnBoard | connect4.js:154-155 | a four in a line always starts at a cell of the board, so the scan over all cells misses none |
| WinCheck.FourAtSomeCell | connect4.js:154-164 | some player has four in a line exactly when the window tests succeed at some cell of the board |
| WinCheck.CheckForWin | connect4.js:126-169 | the check is true exactly when some player has four in a line (horizontal, vertical or either diagonal) on the board, and false otherwise |
| WinCheck.ScanForWin | connect4.js:154-168 | the row-by-row, cell-by-cell scan that stops at the first winning cell returns true exactly when some player has four in a line; when it runs off the end there is no four |
| WinCheck.PlaceKeepsFour | connect4.js:108-113 | a drop onto an empty cell never breaks an existing four |
| WinCheck.PlaceAddsOnlyOwnFours | connect4.js:108-113 | a drop by p creates no four of the other player |
| WinCheck.OnlyMoverCanWin | connect4.js:108-113 | if the waiting player had no four before p's drop and there is a four after it, then p has a four and the waiting player still has none |
| WinCheck.NewFourIsMovers | connect4.js:108-113 | a four that first appears after a drop belongs to the dropping player and runs through the landing cell |
| Game.Initial | connect4.js:13 | the game starts with an empty board and player 1 to move |
| Game.TopRowFull | connect4.js:117 | the tie test holds exactly when row 0 holds WIDTH pieces, that is, every cell of row 0 holds a piece |
| Game.TieMeansFull | connect4.js:115-117 | under gravity, the top-row tie test holds exactly when every cell of the board holds a piece |
| Game.Step | connect4.js:97-122 | a click is ignored exactly when the column has no empty cell, leaving the state unchanged; otherwise the current player's piece lands at the spot `findSpotForCol` returns; a win is announced for the mover exactly when a four is on the board; otherwise a tie is announced exactly when the top row is full; only when neither happens does the turn pass |
| Game.Reset | connect4.js:180-196 | every cell is empty afterwards and the current player is unchanged |
| Game.EmptyHasNoFour | connect4.js:183-186 | a cleared board has no four for either player |
| Game.ResetConsistent | connect4.js:183-186 | the initial state and any reset state satisfy the game invariant (well-formed board, gravity, no four of the player not to move) |
| Game.StepKeepsGravity | connect4.js:101-108 | every click keeps each piece resting on a piece or on the bottom row |
| Game.StepKeepsWaitingPlayerFourless | connect4.js:108-121 | every click keeps the player who is not to move without a four |
| Game.StepConsistent | connect4.js:101-121 | every click preserves the game invariant |
| Game.StepCount | connect4.js:101-108 | a click into a column with room adds exactly one piece; an ignored click adds none |
| Game.WinnerHoldsFour | connect4.js:111-113 | if the waiting player has no four, then after a click announced as a win the mover has four in a line and the other player has none |
| Game.TieOnFullBoard | connect4.js:115-119 | from a consistent state, a tie is announced only on a completely full board with no four on it |
| Game.WinIsSticky | connect4.js:111-113 | from a board with a four, one click is ignored or announced as a win for the same player, and the turn does not pass (until a reset clears the board) |
| Game.Play | connect4.js:97-122 | a run of clicks keeps the board well-formed and adds between zero and one piece per click |
| Game.WinIsStickyForever | connect4.js:101-121 | once a four is on the board, no run of clicks without a reset passes the turn, and the four stays on the board |
| Game.FirstWinRunsThroughDrop | connect4.js:106-113 | the first four of a game runs through the cell the mover's piece just landed on, and it belongs to the mover |

## Left out

- Building and updating the HTML table (`makeHtmlBoard`, `placeInTable`, and the `getElementById`/`removeChild` part of `resetBoard`). This is page rendering with no game logic.
- `endGame`/`alert`. The message shown is returned as the `Outcome` of `Step` instead.
- Event wiring and parsing (`addEventListener`, `evt.preventDefault`, `+evt.target.id`). The column is an integer parameter of `Step`. A non-numeric id (NaN) is not modelled. It would behave like a column off the board: the click is ignored.
- The top-level calls to `makeBoard()` and `makeHtmlBoard()` at start-up. `Game.Initial` stands for the state they produce.
- WinCheck.CheckForWin: returns `false` where `checkForWin` falls off the end of its loops and returns `undefined` (connect4.js:168-169). Its only caller tests truthiness (connect4.js:111), so both behave the same there.
- The module-level mutable `board` and `currPlayer`. They are modelled as an immutable `State` value that each click returns anew.
