# Connect Four rules engine

The repository implements Connect Four twice, over the same rules. The grid has
6 rows and 7 columns, and row 0 is the top row. A token dropped into a column
lands in that column's largest empty row index. A move wins when the line
through the new token holds at least four of the mover's tokens on one of four
axes: horizontal, vertical, and the two diagonals. A full board without a win is
a draw. Red starts, and the players alternate. A reset brings back the initial
position.

- The React component (`src/App.jsx`) keeps six state fields: `board`,
  `currentPlayer`, `winner`, `isDraw`, `lastMove` and `winningCells`. It finds
  the winning line itself with `gatherCells` and `getWinningCells`.
- The plain script (`script.js`) keeps a module-level `board` array, which it
  updates in place, plus `currentPlayer` and `gameOver`. It answers only
  whether a move wins (`isWinningMove` and its inner `countDirection`).

The model is organised as follows:

- `Board` (board.dfy): the grid, the cells and the players. It defines the
  empty board, the write of one cell, the landing row of a column (gravity),
  fullness, the "no floating token" shape and token counts.
- `Lines` (lines.dfy): win detection rooted at the cell just played.
  - `Run` and `Forward` are the walk away from the root.
  - `WinningLine` is the React search: the first axis whose line reaches four.
  - `IsWinning` is the script's check: some axis reaches four.
  - `HasFourThrough` is a reference definition that does not use the axis
    table: four aligned tokens of the mover, along any of the eight unit
    directions, cover the root.
  - Lemmas prove that the two checks agree with each other and with the
    reference definition.
- `ReactApp` (react_app.dfy): `GatherCells` and `GetWinningCells` are methods
  with their loops.
  - `ColumnClick` is the click as a function on the state value.
  - `Consistent` is an invariant every reachable state keeps: a stacked board,
    strict alternation of the token counts, and a recorded winning line that
    matches the last move.
  - The class `App` holds the six state fields. Its `HandleColumnClick` and
    `ResetGame` are proved against `ColumnClick` and `Initial`.
  - A ghost field records the columns clicked since the last reset. The class
    invariant says the state is the one those clicks lead to, so every
    reachable state is `Consistent`.
- `VanillaGame` (vanilla_game.dfy): the class `Game` holds the board as an
  `array2<Cell>` updated in place. Its methods `AvailableRow`,
  `CountDirection`, `IsWinningMove`, `HandleCellClick` and `ClearBoard` are
  each proved against the specification functions. Its predicate
  `IsBoardFull` reads the array and is proved equal to `IsFull`. The click
  as a function on the state value is `CellClick`.
- `Agreement` (agreement.dfy): when both front ends start together and receive
  the same clicks, they have the same board and the same player to move, and
  they agree on whether the game is over.

Throughout the model, `Empty` stands for the source's `null` and `Token(p)`
for a player id.

## Model

| member | source | states |
|---|---|---|
| Board.EmptyBoard | src/App.jsx:29-30 | the board has 6 rows of 7 cells and every cell is empty |
| Board.EmptyBoardHoldsNothing | src/App.jsx:29-30 | the empty board holds no token of either player, has no floating token and is not full |
| Board.Place | src/App.jsx:130-131 | copying the board and writing one cell sets exactly that cell to the mover's token; every other cell keeps its content |
| Board.Other | src/App.jsx:149 | the result is never the player passed in, so with two players the toggle always hands the turn to the other one |
| Board.LandingRow | src/App.jsx:128-129 | the scan from the bottom row yields an empty row with every lower row filled, and yields nothing exactly when the whole column is filled |
| Board.PlaceKeepsStacked | src/App.jsx:128-131 | dropping into the landing row keeps every cell below a token filled |
| Board.OpenColumnIffTopEmpty | src/App.jsx:128-129 | on a board with no floating token, a column accepts a token exactly when its top cell is empty |
| Board.FilledPlace | script.js:132 | writing the mover's token on an empty cell adds one token of the mover, none of the other player, and one to the total |
| Board.FullIffAllFilled | src/App.jsx:142 | the board is full exactly when it holds 6 x 7 tokens |
| Lines.Direction | src/App.jsx:47-52 | each of the four axes is a unit step with a non-negative row component |
| Lines.ForwardShape | src/App.jsx:32-44 | the walk from the root yields the consecutive cells root + k(dr, dc) for k = 1, 2, …, each on the board and holding the player; the next step does not hold the player; from a cell on the board fewer than 7 are found |
| Lines.ForwardBound | script.js:101 | from a cell on the board, the walk along any unit direction finds fewer than 7 cells |
| Lines.StreakIsRunLength | script.js:99-106 | counting the walk's steps one by one gives the length of the listed walk |
| Lines.ForwardReach | src/App.jsx:37 | the walk finds at least m cells exactly when the first m steps all hold the player |
| Lines.WinningLineShape | src/App.jsx:54-63 | the line returned is the one of the first axis, in the order (0,1), (1,0), (1,1), (1,-1), whose root + forward + backward line has at least 4 cells; every earlier axis falls short; none is returned only when all four fall short |
| Lines.LineThroughCells | src/App.jsx:57 | a line through the root starts at the root, then lists the forward run outwards, then the backward run outwards, and every cell holds the player |
| Lines.WinningLineIffIsWinning | script.js:85-114 | the component's line search finds a line exactly when the script's win check is true, on the same board, root and player |
| Lines.AxisLengthGivesFour | script.js:109-112 | when the root holds the player and 1 + both streaks on an axis reach 4, four aligned tokens of the player on that axis cover the root |
| Lines.FourGivesAxisLength | script.js:109-112 | four aligned tokens of the player on an axis covering the root make 1 + both streaks on that axis at least 4 |
| Lines.AxisLengthIffFour | script.js:109-112 | when the root holds the player, 1 + both streaks on an axis reach 4 exactly when four aligned tokens of the player on that axis cover the root |
| Lines.IsWinning | script.js:85-114 | the script's win check: some axis of the table has 1 + the forward streak + the backward streak of at least 4 |
| Lines.WinningLine | src/App.jsx:46-64 | the component's line search: the line through the root on the first axis of the table that reaches 4 cells, or none |
| Lines.AxesCoverAllDirections | src/App.jsx:47-52 | every one of the eight unit directions is one of the four axes of the table or its opposite |
| Lines.WindowReversed | script.js:109-112 | four aligned tokens read along the opposite direction are four aligned tokens along the direction |
| Lines.AxesSuffice | src/App.jsx:47-52 | a four-in-a-row through the root along some axis of the table exists exactly when one exists along some unit direction |
| Lines.WinDetectionSoundAndComplete | script.js:85-114 | when the root holds the player, the win check is true exactly when some four-in-a-row of the player, along any horizontal, vertical or diagonal direction, passes through the root |
| ReactApp.GatherCells | src/App.jsx:32-44 | the loop collects exactly the run of the player's tokens next to the root in the given direction |
| ReactApp.GetWinningCells | src/App.jsx:46-64 | the loop returns exactly the line of the first qualifying axis, or none; a returned line has at least 4 cells and starts at the root |
| ReactApp.ScanColumn | src/App.jsx:128-129 | the downward scan returns the largest row whose cell in the column is empty, or none exactly when the column is full |
| ReactApp.ColumnClick | src/App.jsx:123-153 | the click transition of the component's state keeps the board 6 x 7 |
| ReactApp.InitialConsistent | src/App.jsx:67-73 | the initial state satisfies the state invariant and holds no token |
| ReactApp.ClickIgnoredIff | src/App.jsx:124-152 | a click changes nothing exactly when a winner is set, a draw is recorded, or the column is full |
| ReactApp.ClickDropsIntoLowestEmptyRow | src/App.jsx:128-133 | an accepted click writes the mover into the largest empty row of the column and changes no other cell; the last move becomes that row, column and player; the token count grows by one |
| ReactApp.ClickOutcome | src/App.jsx:135-149 | a four-in-a-row through the new token makes the mover the winner and records a line of at least 4 cells starting at it; a full board without one is a draw with no line; in both cases the player is kept; otherwise the game goes on with the other player |
| ReactApp.ClickPreservesConsistent | src/App.jsx:123-153 | every click keeps the invariant: no floating token, never both a winner and a draw, a draw only on a full board, the recorded line is the search's line through the last move, and red has played as often as yellow or once more |
| ReactApp.TokensMatchAcceptedClicks | src/App.jsx:128-133 | after any sequence of clicks the board holds one token per accepted click |
| ReactApp.PlayKeepsConsistent | src/App.jsx:123-153 | every state reached by a sequence of clicks from a consistent state is consistent |
| ReactApp.PlayAppend | src/App.jsx:123-153 | playing one more click after a sequence applies that click to the state the sequence reached |
| ReactApp.App.constructor | src/App.jsx:67-73 | the state fields start as the initial state |
| ReactApp.App.ResetGame | src/App.jsx:113-121 | reset gives an empty board, red to move, no winner, no draw, no last move and no winning cells |
| ReactApp.App.HandleColumnClick | src/App.jsx:123-153 | the handler's new state is the click transition of the old state |
| ReactApp.App.ClickColumn | src/App.jsx:123-153 | after a click the state is still the one the recorded clicks lead to from the initial state |
| ReactApp.App.ValidIsConsistent | src/App.jsx:67-73 | every state the component reaches from its initial state satisfies the state invariant |
| VanillaGame.CellClick | script.js:120-151 | the click transition of the script's state keeps the board 6 x 7 |
| VanillaGame.CellClickIgnoredIff | script.js:121-130 | a click changes nothing exactly when the game is over or the column is full |
| VanillaGame.CellClickEffect | script.js:132-147 | an accepted click sets exactly the landing cell, the largest empty row of the column, to the mover's token and adds one token; the game ends exactly when a four-in-a-row passes through the new token or the board is full, with the mover kept; otherwise the turn passes |
| VanillaGame.Game.constructor | script.js:8-10 | the board starts as 6 x 7 empty cells, with red to move and the game not over |
| VanillaGame.Game.AvailableRow | script.js:41-48 | the result is the largest row whose cell in the column is empty, or none exactly when the column is full |
| VanillaGame.Game.CountDirection | script.js:96-107 | the streak is the number of consecutive cells beyond the root, stepping step·(dr, dc), that hold the current player; from a cell on the board it is below 7 |
| VanillaGame.Game.IsWinningMove | script.js:85-114 | the result is true exactly when some axis has 1 + the forward streak + the backward streak of at least 4 |
| VanillaGame.Game.IsBoardFull | script.js:116-118 | true exactly when no cell of the array is empty |
| VanillaGame.Game.HandleCellClick | script.js:120-151 | the array, the player and the flag after the handler are the click transition of their old values |
| VanillaGame.Game.ClearBoard | script.js:61-74 | every cell of the array becomes empty, red is to move and the game is not over |
| Agreement.StartsAgree | script.js:8-10 | the script's initial state and the component's initial state describe the same position, and the game is not over |
| Agreement.ClickAgree | script.js:120-151 | one click on corresponding states gives corresponding states: the same board, the same player to move, and the script's flag set exactly when the component has a winner or a draw; on an accepted click the component records the mover as winner exactly when the script's win check is true |
| Agreement.PlaysAgree | script.js:120-151 | any sequence of clicks keeps the two front ends in step |
| Agreement.SameClicksSameBoard | src/App.jsx:123-153 | from the start, the same clicks give the same board and the same game-over status in both front ends |

## Left out

- Rendering: the JSX markup, the CSS classes, the player labels and styling table, and the status, tone and info strings. These only present the state.
- The celebration effect (`showCelebration`), the hover preview (`hoverColumn`, which `resetGame` also clears) and the `winningCellKeys` string set. They drive animation and highlighting only.
- The script's DOM code. This covers building the cells, painting tokens, the status text, the keyboard handler, the event listeners and the DOM part of `clearBoard`.
- Reading the clicked column from the cell's `dataset`. Every handler takes the column as a parameter, and `0 <= column < 7` is a precondition. The rendered buttons only ever pass such columns, and neither source file checks the range itself.
- React's asynchronous state updates. Each click is one atomic transition over the six state fields, which matches a render between clicks.
- tailwind.config.js, which is styling configuration.
- ReactApp.GatherCells and VanillaGame.Game.CountDirection: both require a unit direction `(dr, dc)`. Every caller passes one of the four axes or its opposite. A zero direction would make the source loop forever.
- ReactApp.GatherCells: its contract states only that the result is the run `Lines.Forward`. The run's shape (consecutive in-bounds cells holding the player, stopping at the first edge or mismatch) is proved once about `Forward` in Lines.ForwardShape.
- VanillaGame.Game.CountDirection: the step vector step·(dr, dc) is formed by cases on the sign of `step` rather than by multiplying, which is the same for the only steps used, 1 and -1.
- VanillaGame.Game.CountDirection: `countDirection` is a closure over `dr`, `dc` and `row`/`col` inside `isWinningMove`. Here it is a method that takes them as parameters.
- The script's `directions.some(...)` is a `while` loop that stops at the first axis reaching four.
