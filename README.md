# Connect Four rules engine

A Dafny model of the rules engine inside `connect4.js`, a browser Connect Four
game for two players on a grid of 6 rows by 7 columns (`HEIGHT` and `WIDTH`).
The engine keeps two pieces of state: the `board` (a list of rows, each cell
empty, 1 or 2) and `currPlayer` (1 or 2). A click on a column drops the current
player's piece to the lowest empty row of that column. After the drop the whole
grid is scanned for four in a row in four orientations. A win is checked before
a tie (a full board). Either one ends the game and resets the board. Otherwise
the turn passes to the other player. When the page loads a saved board that has
pieces on it, the player may resume it. Whose turn it is then comes from the
piece counts: player 2 moves when player 1 has more pieces, otherwise player 1
moves.

The project has three modules:

- `Board` (`board.dfy`): the grid as a value. It holds the cell type, the
  gravity scan (`SpotBelow`, `Spot`), placing a piece (`Place`, `Drop`), the tie
  test (`IsFull`), the "pieces on the board" test (`IsUnfinished`) and the piece
  counts (`Flatten`, `Occurrences`, `Count`). Lemmas cover the bottom-up fill
  of a column and how a placement changes the counts.
- `Rules` (`rules.dfy`): the win scan and the turn logic. `AllMine` is the
  per-run cell test of the source. `Four` is a reference definition of four in
  a row, and `HasWin` is the scan over every anchor. The module also has the
  player toggle (`Other`) and the resumed turn (`ResumePlayer`). `Click` is one
  click of a column as a function on the (board, current player) state.
  `Replay` plays a sequence of clicks from a new game. The lemmas cover move
  ordering, permanence of wins, and the counting argument behind the resumed
  turn.
- `Connect4` (`game.dfy`): class `Game` with fields `board` and `currPlayer`,
  plus a ghost field `saved` for the persisted copy of the board. Most
  methods stand for one function of the source each, with three exceptions.
  The constructor `Game.Load` stands for the top-level statements that run at
  page load (`connect4.js:12-13`), not for a function. `Game.WinStartsAt` is
  the body of `checkForWin`'s inner loop (`connect4.js:233-261`), split out
  as a method of its own. And `_win`, `checkForTie` and `isUnfinished` only
  compute a value, so they are the predicates `Rules.AllMine`, `Board.IsFull`
  and `Board.IsUnfinished` rather than methods. Each loop is proved against the
  value-level definitions above: the descending column scan, the nested
  anchor scan, the row-building loops of `makeBoard` and the flattening loop
  of `checkCurrUser`. `HandleClick` is proved to produce exactly the state and
  outcome that `Rules.Click` gives.

`board` is a `seq<seq<Cell>>` field that the methods reassign. In the source it
is a nested array that `resetBoard` empties to `[]` and `makeBoard` refills row
by row, so it can have no rows at all between a reset and the rebuild.

## Model

| member | source | states |
|---|---|---|
| Board.SpotBelow | connect4.js:200-205 | the descending scan returns the greatest row below n whose cell in column x is empty, and returns None exactly when every such cell is taken |
| Board.Spot | connect4.js:197-206 | the landing row is the greatest empty row of the column, and there is none exactly when no cell of the column is empty |
| Board.Drop | connect4.js:155-161 | a drop into a column with room puts the piece at the gravity spot: that column gains exactly that one piece, and every other cell keeps its value and owner |
| Board.Place | connect4.js:191 | the cell (y, x) gets the player's piece, every other cell keeps its value, and the grid keeps its shape |
| Board.SpotAfterDrop | connect4.js:196-206 | after a drop, the next drop into the same column lands in the scan below the row just filled, and every other column's landing row is unchanged |
| Board.DropFillsBottomUp | connect4.js:196-206 | on a grid where pieces rest on pieces, a drop keeps that property, and the next drop into the column lands exactly one row higher (none once the top row is taken) |
| Board.IsFull | connect4.js:269-271 | the tie test: every cell of every row holds a piece |
| Board.IsUnfinished | connect4.js:31-33 | the "game in progress" test: some cell of some row holds a piece |
| Board.FullIffNoRoom | connect4.js:269-271 | the tie test holds exactly when no column has a landing row left |
| Board.EmptyGridStatus | connect4.js:83-94 | the freshly built grid is not full, has no pieces, and has no floating pieces |
| Board.EmptyGrid | connect4.js:83-94 | the grid a new game starts from has HEIGHT rows of WIDTH cells, all of them empty |
| Board.Flatten | connect4.js:51-54 | concatenating rows of WIDTH cells gives WIDTH entries per row, so a well-formed grid flattens to all HEIGHT × WIDTH cells |
| Board.Count | connect4.js:55-56 | on a well-formed grid a player has at most HEIGHT × WIDTH pieces |
| Board.Occurrences | connect4.js:55-56 | the filter count is at most the length, and is positive exactly when the value occurs |
| Board.CountPlace | connect4.js:191 | placing a piece on an empty cell adds one to the mover's count and leaves the other player's count alone |
| Board.UnfinishedIffCounted | connect4.js:31-33 | the "any piece on the board" test holds exactly when the two players' counts are not both zero |
| Rules.AllMine | connect4.js:210-223 | `_win`'s test of one run: every cell is a legal coordinate and holds a piece of the player |
| Rules.HasWin | connect4.js:209-266 | `checkForWin`'s verdict: some anchor starts four in a row for the player; a board with a win has pieces on it |
| Rules.AllMineIffFour | connect4.js:210-223 | the per-run test (every cell a legal coordinate holding the player's piece) agrees with the reference definition of four in a row |
| Rules.WinAtIffSomeRun | connect4.js:231-263 | an anchor starts four in a row exactly when one of the horizontal, vertical and two diagonal runs built from it passes the per-run test |
| Rules.WinningAnchors | connect4.js:215-222 | a run that leaves the grid never passes: a passing run's anchor leaves room for three more cells in its orientation |
| Rules.WinIffAnyLine | connect4.js:226-263 | scanning four orientations from every anchor finds a win exactly when four consecutive cells along any of the eight compass directions hold the player's pieces |
| Rules.HasWinMonotone | connect4.js:209-266 | a win for p survives any change that keeps p's pieces in place |
| Rules.PlaceAndWins | connect4.js:191 | a placement never undoes a win, and a piece of one player never creates or removes a win for the other |
| Rules.NoWinOnEmptyGrid | connect4.js:83-94 | nobody has four in a row on the fresh grid |
| Rules.ColumnOfFourWins | connect4.js:239-244 | four pieces of one player stacked in a column are a win for that player |
| Rules.StackOfFourWins | connect4.js:239-244 | placing four pieces of one player one above the other makes a win for that player |
| Rules.FourDropsWinVertically | connect4.js:155-164 | four drops of one player into a column with room for them are all legal and the fourth makes a win |
| Rules.Other | connect4.js:179-181 | the toggle always yields the other player |
| Rules.OtherInvolution | connect4.js:179-181 | toggling twice gives back the same player |
| Rules.ResumePlayer | connect4.js:57 | the resumed turn is player 2's when player 1 has strictly more pieces, and player 1's otherwise |
| Rules.ResumeOnEmptyGrid | connect4.js:50-58 | on a grid with no pieces the resumed turn is player 1's |
| Rules.ResumeOnBalanced | connect4.js:57 | when the counts are those strict alternation leaves for player p's turn, the resumed turn is p's |
| Rules.Click | connect4.js:150-177 | a click that does not end the game leaves a board of full shape |
| Rules.ClickCases | connect4.js:155-181 | a full column is a no-op; otherwise the piece lands at the gravity spot, a win is reported before a tie, only the mover can win, a finished game leaves an emptied board, and the turn passes exactly when the game goes on |
| Rules.ClickKeepsBalance | connect4.js:160-177 | a click that does not end the game keeps the piece counts in step with the turn |
| Rules.ClickKeepsInPlay | connect4.js:155-177 | a click that does not end the game keeps pieces stacked, leaves neither player with four in a row and the board not full, and keeps the counts in step with the turn |
| Rules.Replay | connect4.js:150-177 | every position reached by clicks from a new game has a board of full shape |
| Rules.ReplayInvariant | connect4.js:49-58 | in any game in progress that started from a new game, player 1 has as many pieces as player 2 or one more, and the resumed turn equals the player to move; the position is also stacked, without a four in a row and not full |
| Connect4.Game.Load | connect4.js:12-13 | at page load player 1 is active and the board is the saved grid, or no rows when nothing was saved |
| Connect4.Game.Start | connect4.js:18-29 | a saved board with pieces is resumed with the turn recomputed when the player chooses to; otherwise a new empty game starts with the saved copy emptied |
| Connect4.Game.HandleResume | connect4.js:35-40 | resuming recomputes whose turn it is from the board |
| Connect4.Game.HandleNewGame | connect4.js:42-47 | a new game leaves HEIGHT rows of WIDTH empty cells and an emptied saved copy |
| Connect4.Game.CheckCurrUser | connect4.js:50-58 | the active player becomes 2 exactly when player 1 has more pieces than player 2, and 1 otherwise |
| Connect4.Game.ResetBoard | connect4.js:60-63 | the board and its saved copy both become empty lists |
| Connect4.Game.MakeBoard | connect4.js:83-94 | called on the emptied board, it yields exactly HEIGHT rows of WIDTH empty cells |
| Connect4.Game.FindSpotForCol | connect4.js:197-206 | returns the greatest empty row of column x, and None exactly when the column has no empty cell |
| Connect4.Game.PlaceInTable | connect4.js:183-194 | the landing cell gets the current player's piece, no other cell changes, and the board is saved |
| Connect4.Game.CheckForWin | connect4.js:209-266 | true exactly when some anchor starts four in a row for the current player |
| Connect4.Game.WinStartsAt | connect4.js:233-261 | true exactly when one of the four runs from the anchor is four in a row for the current player |
| Connect4.Game.SwitchPlayers | connect4.js:179-181 | the active player becomes the other player |
| Connect4.Game.EndGame | connect4.js:274-276 | the end of a game empties the board and its saved copy |
| Connect4.Game.HandleClick | connect4.js:150-177 | the new board, the new active player and the outcome are exactly those of one click of the column; a refused click leaves the saved copy alone, and any other click leaves it equal to the board |
| Connect4.ResumedPlayer | connect4.js:35-40 | reloading in the middle of a game that started new and resuming it gives the turn to the player due to move |

## Left out

- Building the page and its table (`makeHtmlBoard`, `makeTableHeader`, `makeTableBoard`, `insertPieces`), the piece `div`s that `placeInTable` adds, hover highlighting, and reading the column index from the clicked element. These are presentation only. The column index reaches `HandleClick` as a parameter in `[0, WIDTH)`.
- `localStorage` and JSON encoding. They are foreign I/O. The "board" slot is the ghost field `Game.saved`, which is written wherever the source writes the slot. Loading it is the parameter of `Game.Load`, and an absent value is the empty list.
- The resume/new-game modal, `setTimeout`, `alert` and `window.location.reload`. The player's choice in the modal is the `resume` parameter of `Game.Start`. The reload after a game ends is another `Game.Load([])` followed by `Start`. The end-of-game message is carried only as the outcome `Won(player)` or `Tied`, not as text.
- Malformed saved data (wrong shape, values other than empty, 1 or 2). `Game.Load` requires a grid of full shape or the empty list. The source does not check a saved board whose counts are more than one apart either, so `CheckCurrUser` returns its count-based answer for it too. No fall-back to a new game is modelled for such a board.
- `checkForWin` returns `undefined` rather than `false` when nobody has won; it is modelled as a `bool`.
- `makeBoard` appends rows to whatever `board` holds and returns it. It is modelled only as called on the emptied board (its callers always reset first), and the unused return value is dropped.
- A click arriving after a game has ended but before the page reloads finds a board with no rows. The source would fail there with a type error, so `HandleClick` requires a board of full shape.
