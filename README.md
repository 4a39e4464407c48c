# Connect Four game engine in Dafny

This project models the game engine of a browser Connect Four game: the `Game`
class of `connect4.js` without its DOM and rendering code. Two players take
turns dropping pieces into the columns of a `height` x `width` board. A piece
falls to the lowest empty cell of its column. A move that completes four in a
row ends the game with the mover as winner. A move that fills the board
without a win ends it in a tie. Otherwise the turn passes to the other player.
Once the game is over, every further click is ignored.

The project has three modules, one per layer:

- `Board` (`board.dfy`) describes the grid as a value (`seq<seq<Cell>>`, indexed
  `g[y][x]`, row `height - 1` at the bottom). It defines gravity (`IsLandingRow`,
  `ColumnFull`, `LandingRow`), stacked columns (`Stacked`), lines of four
  (`Direction`, `LineAt`, `HasWin`), fullness (`Full`) and the count of
  occupied cells (`Count`), with lemmas about each.
- `Rules` (`rules.dfy`) describes the engine as a state machine over values.
  `GameState` holds the dimensions, grid, active player and terminal flag.
  `Move` is one click and `Play` is a sequence of clicks. `Consistent` is the
  invariant every reachable state keeps.
- `Connect4` (`game.dfy`) is the engine itself: the class `Game` with the
  board as an `array2<Cell>` updated in place, plus the fields `currPlayer`
  and `gameOver`. A ghost field `cells` mirrors the array (`Coherent`). The
  loops of `makeBoard`, `findSpotForCol`, `checkForWin` and the tie test are
  methods proved against the value-level predicates. `HandleClick` is proved
  to perform exactly the transition `Rules.Move` and to keep `Rules.Consistent`.

A player is its sequence number, 1 or 2. A cell is `Empty` or `Piece(owner)`.
The source compares player objects by identity, so comparing numbers is the
same test. The first player (number 1) moves first.

After a tie, `currPlayer` stays at the player who made the last move. The
source does not clear or toggle it, and neither does the model.

Out-of-range columns: `HandleClick` treats a column outside `[0, width)` as an
ignored move. The source does not check the range (see "Left out").

## Model

| member | source | states |
|---|---|---|
| `Connect4.MakeBoard` | connect4.js:72-77 | returns a fresh board with exactly `height` rows of `width` cells, every cell empty |
| `Connect4.Game.constructor` | connect4.js:56-66 | a new game has an empty `height` x `width` board, player 1 (`players[0]`) to move, and `gameOver` false; the game invariant holds |
| `Rules.Initial` | connect4.js:56-66 | the initial state has the given dimensions, a well-shaped empty grid, player 1 to move, and is not over |
| `Rules.InitialConsistent` | connect4.js:56-66 | a new game satisfies the game invariant: no player has four in a row on the empty board, and a board of at least one cell is not full |
| `Board.SpotFrom` | connect4.js:117-122 | scanning column x from row n-1 upwards finds an empty row with every cell below it (up to n) occupied, or finds none exactly when rows 0..n-1 of the column are all occupied |
| `Board.LandingRow` | connect4.js:114-123 | the result is the landing row (an empty cell with every cell below it occupied) and is None exactly when the column is full |
| `Board.LandingRowUnique` | connect4.js:116-123 | a column has at most one landing row, so the landing row is determined by the grid |
| `Connect4.Game.FindSpotForCol` | connect4.js:116-123 | the bottom-up scan returns the largest row whose cell in column x is empty, with every cell below it occupied, and returns None exactly when every cell of the column is occupied |
| `Board.Other` | connect4.js:179 | the other player differs from the given one (and, both being 1 or 2, is determined by it) |
| `Board.Place` | connect4.js:162 | writing one cell keeps the grid's shape, sets that cell and leaves every other cell unchanged |
| `Board.PlaceKeepsStacked` | connect4.js:156-162 | a piece dropped at the landing row keeps every column's occupied cells a contiguous block at the bottom |
| `Board.PlaceRaisesLandingRow` | connect4.js:116-123 | after a piece lands at row y of a stacked column, the column's landing row becomes y-1, or none when y was the top row |
| `Connect4.Game.OwnedAt` | connect4.js:187-192 | the per-cell test of `_win` holds exactly when the cell is inside the board and holds the active player's piece |
| `Connect4.Game.LineOwned` | connect4.js:185-194 | `_win` over four cells holds exactly when all four are in bounds and hold the active player's pieces |
| `Connect4.Game.CheckForWin` | connect4.js:184-212 | returns true exactly when some origin (y, x) and some direction among right, down, down-right and down-left give four in-bounds cells that all hold the active player's pieces |
| `Board.EmptyGridHasNoWin` | connect4.js:184-212 | an empty grid has no line of four for either player |
| `Board.PlaceKeepsOtherWinless` | connect4.js:162-168 | placing a piece of one player never creates four in a row for the other player |
| `Connect4.Game.IsBoardFull` | connect4.js:172 | returns true exactly when every cell of the board is occupied |
| `Board.CountFill` | connect4.js:162 | filling an empty cell raises the number of occupied cells by exactly one |
| `Board.CountEmpty` | connect4.js:72-77 | a grid with no occupied cell has count zero |
| `Board.CountFull` | connect4.js:172 | a `height` x `width` grid with `height * width` occupied cells has every cell occupied |
| `Board.CountBound` | connect4.js:72-77 | a board of `height` rows of `width` cells has at most `height * width` occupied cells |
| `Rules.Move` | connect4.js:149-180 | a move never changes the board's dimensions or row lengths |
| `Connect4.Game.HandleClick` | connect4.js:149-180 | the new board, active player, terminal flag and returned outcome are exactly those of `Rules.Move` from the old state; the game invariant is kept |
| `Connect4.Game.Commit` | connect4.js:161-179 | for a column whose landing row is y, the new board, active player, terminal flag and outcome are those of `Rules.Move`: piece placed, then win test, tie test and change of turn in that order |
| `Connect4.Game.Drop` | connect4.js:162 | the board array and its ghost grid both get the active player's piece at (y, x) and nothing else changes |
| `Rules.IgnoredMove` | connect4.js:151-159 | a move is ignored exactly when the game is over, the column is out of range or the column is full, and an ignored move changes neither board, active player nor terminal flag |
| `Rules.AcceptedMoveWritesOneCell` | connect4.js:156-162 | an accepted move writes the active player's piece into the landing row of the chosen column, a previously empty cell, and leaves every other cell unchanged, so no occupied cell is overwritten |
| `Rules.AcceptedMoveKeepsStacked` | connect4.js:156-162 | after an accepted move every column's occupied cells are still a contiguous block at the bottom |
| `Rules.AcceptedMoveRaisesLandingRow` | connect4.js:156-162 | each accepted move into a column moves its landing row one up, until the column is full and further moves into it are ignored |
| `Rules.AcceptedMoveCountsOne` | connect4.js:162 | an accepted move raises the number of occupied cells by exactly one |
| `Rules.WinBeforeTie` | connect4.js:165-169 | a move that completes four in a row reports a win for the mover, sets the terminal flag and keeps the mover as active player, even when it also fills the board |
| `Rules.NoWinTieOrToggle` | connect4.js:171-179 | after an accepted move with no win: on a full board the game ends in a tie with the active player unchanged; otherwise the turn passes to the other player and the game goes on |
| `Rules.MovePreservesConsistent` | connect4.js:149-180 | every move keeps the invariant: columns stacked, the player not on turn never has four in a row, the game is over only after a win by the recorded player or on a full board, a running game has no winner, and a full board of at least one cell means the game is over |
| `Rules.Play` | connect4.js:149-180 | a sequence of clicks never changes the board's dimensions or row lengths |
| `Rules.OverIsPermanent` | connect4.js:151 | once the game is over, any sequence of clicks leaves the state unchanged and accepts none of them |
| `Rules.PlayPreservesConsistent` | connect4.js:149-180 | the game invariant holds after any sequence of clicks |
| `Rules.AcceptedMovesBounded` | connect4.js:156-176 | in any sequence of clicks, the accepted moves plus the occupied cells never exceed `height * width`, so a game accepts at most `height * width` moves |
| `Rules.PlayCount` | connect4.js:156-162 | after any sequence of clicks, the occupied count is the count before plus the number of accepted clicks |
| `Rules.FillingRunEndsGame` | connect4.js:165-176 | from a consistent state on a board of at least one cell, a run whose accepted clicks fill the remaining cells ends with the game over |
| `Rules.GameEndsWithinBoardSize` | connect4.js:156-176 | from a new game on a board of at least one cell, at most `height * width` clicks are accepted, and once `height * width` have been accepted the game is over |

## Left out

- The colour pickers and the `isValidColor` and `colorToHex` helpers (connect4.js:9-44). They rely on browser CSS and canvas behaviour.
- The start-button listener (connect4.js:47-53) and the global write `history.board = []` (connect4.js:61). They are UI wiring with no game logic.
- Player colours. They are opaque strings passed only to rendering, so a player is modelled by its number alone and the constructor takes only the dimensions.
- The constructor's default dimensions (6 x 7). The model's constructor takes both dimensions explicitly.
- Dimensions are `nat`. The source accepts negative numbers too. A negative height gives a board with no rows. A negative width gives `height` rows with no cells, because `Array.from` reads a negative length as 0.
- `makeHtmlBoard` and `placeInTable` (connect4.js:81-112, 127-135). They only build and update the DOM.
- `endGame` (connect4.js:139-145). It removes the click listener and shows a delayed alert. The model keeps only its logical effect: the terminal flag plus a `Won` or `Tied` outcome returned by `HandleClick`.
- Parsing the column from the click target's id (connect4.js:153). The column is an integer parameter.
- Connect4.Game.HandleClick: ignores a column outside `[0, width)`. The source never checks the range. For such a column it reads an undefined cell, treats it as empty, and stores the piece in a row entry outside the board's columns (connect4.js:162). Next, `placeInTable` finds no table cell with that id and throws at connect4.js:134. So the win test, the tie test and the change of turn never run, and `currPlayer` and `gameOver` stay as they were, as in the model. The stray entry is never read by the win scan, which stays inside the board. The tie test skips it too: `every` skips holes and non-index properties, and the stray entry holds a piece, so it passes. The model does not keep that stray entry.
- Connect4.Game.FindSpotForCol: requires `0 <= x < width`. Its only caller checks this first. For an out-of-range column the source's scan reports the bottom row on the first click there. Later clicks on the same column land one row higher each time, because of the stray entries above.
