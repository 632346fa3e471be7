# Connect Four engine — a verified Dafny model

This project models the game-state engine of a small Connect Four program
and the win/loss/tie record of its players.

The engine keeps a 6 × 7 grid of characters (row 0 at the top, row 5 at the
bottom), the number of moves played and the symbol to move next (`'X'` or
`'O'`). It answers bounds-checked cell probes, detects four in a row, reports
whether the board is full, whether the game is over and whether a column is a
valid move. It drops pieces under gravity, resets, and draws the board as
text. Every operation is total: a probe off the board answers `'\0'`, and an
invalid move answers `false` and changes nothing.

Layout, one module per concern:

- `board.dfy` (`Board`): the grid as a value. It covers the shape, the count
  of occupied cells, and gravity: every column is a stack standing on row 5.
  It also defines the landing row of a dropped piece and the drop itself.
- `runs.dfy` (`Runs`): runs of four and the fixed scan order. That order is
  horizontal, vertical, down-right, then down-left; each direction goes row by
  row, then column by column. `Winner` is the scan as a recursive function.
  The lemmas show it returns the owner of the first run in that order, and
  `' '` exactly when there is no run.
- `render.dfy` (`Render`): the text picture as a pure function. The lemmas
  show where each cell appears in it and that it determines the grid.
- `rules.dfy` (`Rules`): the whole engine state as a value, the pure queries,
  the move `Play`, and the invariant every reachable state keeps.
- `connect_four.dfy` (`Game`): the engine object. It holds an `array2<char>`
  board plus the two counters, updated in place. The constructor and `Reset`
  clear the array with nested loops. `GetWinner` runs the four nested scans.
  `MakeMove` scans a column from row 5 upward. A ghost grid mirrors the array.
  Each method is proved against a pure definition: the queries and
  `MakeMove` against the `Rules` functions, `GetWinner` against
  `Runs.Winner`, `ToString` against `Render.Render`, and the clearing loops
  against "every cell is `' '`".
- `player.dfy` (`Players`): a player's name, strategy and record.

The invariant (`Rules.Invariant`) has five parts:

- every cell is `' '`, `'X'` or `'O'`;
- each column's pieces form a contiguous run ending at row 5;
- `moveCount` equals the number of occupied cells;
- `currentPlayer` is `'X'` exactly when `moveCount` is even;
- all runs of four on the board belong to the same player, because no move is
  valid once a four exists.

`GetWinner` and `ToString` only read the array, so they require no more than
the array agreeing with the ghost grid; they hold on any board, reachable or
not.

Under this invariant, the `return false` after the loop of `makeMove` can
never be reached. `MakeMove` proves this with `assert false` at that point.

## Model

| member | source | states |
|---|---|---|
| `Game.ConnectFour.constructor` | ConnectFour.cpp:4-10 | all 42 cells are `' '`, `moveCount` is 0, `currentPlayer` is `'X'`, and the invariant holds |
| `Game.ConnectFour.ClearBoard` | ConnectFour.cpp:117-121 | after the nested loops every cell of the 6 × 7 array is `' '` |
| `Game.ConnectFour.GetCell` | ConnectFour.cpp:12-17 | answers `'\0'` exactly when row ∉ [0,6) or col ∉ [0,7); otherwise it answers the cell's contents; it changes nothing |
| `Game.ConnectFour.GetCurrentPlayer` | ConnectFour.cpp:19-21 | the symbol to move is `'X'` or `'O'`, and it is `'X'` exactly when an even number of moves has been played |
| `Game.ConnectFour.GetMoveCount` | ConnectFour.cpp:83-85 | the move count equals the number of occupied cells, between 0 and 42 |
| `Game.ConnectFour.IsFull` | ConnectFour.cpp:23-25 | true exactly when no cell is empty, which is exactly when `moveCount == 42` |
| `Game.ConnectFour.GetWinner` | ConnectFour.cpp:27-77 | the four nested scans return the owner of the first run in scan order, or `' '` (equal to `Runs.Winner` of the board) |
| `Game.ConnectFour.IsGameOver` | ConnectFour.cpp:79-81 | true exactly when some run of four exists or no cell is empty |
| `Game.ConnectFour.IsValidMove` | ConnectFour.cpp:87-96 | true exactly when col ∈ [0,7), nobody has four in a row, and the column holds fewer than 6 pieces |
| `Game.ConnectFour.MakeMove` | ConnectFour.cpp:98-114 | returns whether the move was valid. An invalid move changes no cell, count or turn. A valid move drops the mover's symbol onto the column's stack, adds 1 to the count and flips the turn. The invariant is kept and the fallback `return false` is unreachable |
| `Game.ConnectFour.Reset` | ConnectFour.cpp:116-124 | from any state with a 6 × 7 board, restores exactly the state of a new game |
| `Game.ConnectFour.ToString` | ConnectFour.cpp:126-138 | the loops build exactly `Render.Render` of the board: header, six framed rows, divider |
| `Game.ConnectFour.Snapshot` | ConnectFour.h:8-10 | a value copy of the board, count and turn, equal to the object's abstract state |
| `Rules.CellAt` | ConnectFour.cpp:12-17 | `'\0'` for any row ∉ [0,6) or col ∉ [0,7), the cell's contents otherwise; on a board of legal cells `'\0'` is answered exactly off the board |
| `Rules.IsFull` | ConnectFour.cpp:23-25 | full means 42 moves played; while the count equals the pieces on the board, that is exactly when no cell is empty |
| `Rules.IsGameOver` | ConnectFour.cpp:79-81 | over exactly when some run of four exists or the board is full |
| `Rules.IsValidMove` | ConnectFour.cpp:87-96 | valid exactly when col ∈ [0,7), no run of four exists, the board is not full and the column's top cell is empty |
| `Rules.Play` | ConnectFour.cpp:98-110 | an invalid move leaves the state as it was; a valid one adds 1 to the count and passes the turn to the opponent; a drop by a player symbol keeps the columns stacked and adds exactly one piece |
| `Rules.Opponent` | ConnectFour.cpp:108 | `'X'` passes to `'O'` and anything else to `'X'`; for a player symbol the result is the other player symbol |
| `Rules.Initial` | ConnectFour.cpp:4-10 | a new game: every cell `' '`, count 0, `'X'` to move; it satisfies the invariant and has no winner |
| `Rules.FullMeansPacked` | ConnectFour.cpp:23-25 | the move count lies in [0,42], and "full" holds exactly when no cell is empty |
| `Rules.GameOverMeaning` | ConnectFour.cpp:79-81 | the game is over exactly when a run of four exists or no cell is empty |
| `Rules.ValidMoveMeaning` | ConnectFour.cpp:87-96 | a move is valid exactly when the column exists, no run of four exists and the column has room |
| `Rules.InProgressHasMove` | ConnectFour.cpp:87-96 | while the game is not over, some column is a valid move |
| `Rules.PlayEffect` | ConnectFour.cpp:98-110 | an invalid move leaves the state equal to the old state. A valid move writes the mover's symbol into the column's lowest empty row (all rows under it occupied) and changes no other cell. It adds exactly 1 to the count and passes the turn to the other symbol |
| `Rules.OpponentIsNext` | ConnectFour.cpp:108 | flipping the mover gives the symbol due after one more move, and it differs from the mover |
| `Rules.PlayKeepsInvariant` | ConnectFour.cpp:98-114 | every move keeps the invariant: legal cells, stacked columns, count = occupied cells, turn parity, and runs of a single owner |
| `Rules.PlayAllKeepsInvariant` | ConnectFour.cpp:98-114 | any sequence of moves keeps the invariant; the count never falls, and it rises by exactly one per valid move |
| `Rules.ValidGameCounts` | ConnectFour.cpp:98-110 | after N valid moves from a new game, the count is N ≤ 42, and `'X'` is to move exactly when N is even |
| `Rules.ReachableWinnerIsAnyRun` | ConnectFour.cpp:27-77 | on any board reached by play, the winner is the owner of any run present, so the scan order does not decide it |
| `Runs.ScanFrom` | ConnectFour.cpp:27-77 | the rest of the scan from a cursor; on a board of legal cells it answers `' '`, `'X'` or `'O'` |
| `Runs.Winner` | ConnectFour.cpp:27-77 | the whole scan answers a symbol other than `' '` exactly when some run of four exists; on a board of legal cells the answer is `' '`, `'X'` or `'O'` |
| `Runs.ScanStep` | ConnectFour.cpp:30-36 | one step of the scan: a run starting at the cursor answers its owner; otherwise the scan continues at the next column |
| `Runs.ScanTurn` | ConnectFour.cpp:29-76 | past the last column the scan resumes at the next row; past the last row it resumes at the next direction's first start, and after the down-left rows it answers `' '` |
| `Runs.RunAtRow` | ConnectFour.cpp:31-34 | a horizontal run at (row, col) is exactly: cell occupied and equal to the three cells to its right |
| `Runs.RunAtColumn` | ConnectFour.cpp:43-46 | a vertical run at (row, col) is exactly: cell occupied and equal to the three cells below it |
| `Runs.RunAtDownRight` | ConnectFour.cpp:55-58 | a down-right run at (row, col) is exactly: cell occupied and equal to the cells at (+1,+1), (+2,+2), (+3,+3) |
| `Runs.RunAtDownLeft` | ConnectFour.cpp:67-70 | a down-left run at (row, col) is exactly: cell occupied and equal to the cells at (+1,-1), (+2,-2), (+3,-3) |
| `Runs.ScanFromBlank` | ConnectFour.cpp:27-77 | when the scan from a cursor answers `' '`, no run starts at or after the cursor in scan order |
| `Runs.ScanFromFirst` | ConnectFour.cpp:27-77 | when the scan from a cursor answers a symbol, some run at or after the cursor is owned by it and no run lies between the cursor and that run |
| `Runs.WinnerIsFirstRun` | ConnectFour.cpp:27-77 | the winner is non-blank exactly when some run of four exists; it is then the owner of the first run in scan order |
| `Runs.EmptyGridNoWinner` | ConnectFour.cpp:76 | the empty board has no winner |
| `Runs.WinnerOfAnyRun` | ConnectFour.cpp:27-77 | when all runs have one owner, any run names the winner |
| `Runs.PutMakesOnlyOwnRuns` | ConnectFour.cpp:106 | writing p into one cell of a board without runs creates only runs owned by p |
| `Board.FullIffPacked` | ConnectFour.cpp:24 | 42 occupied cells is the same as no empty cell |
| `Board.FilledPut` | ConnectFour.cpp:106-107 | filling one empty cell raises the occupied count by exactly one |
| `Board.EmptyGridFilled` | ConnectFour.cpp:5-9 | the cleared board has no occupied cell |
| `Board.ColumnShape` | ConnectFour.cpp:103-105 | on a stacked board, the occupied cells of a column are exactly its lowest `Height` rows |
| `Board.LandingRow` | ConnectFour.cpp:103-106 | the row the scan from row 5 upward stops at: on a stacked board it is on the board exactly when the top cell is empty, and then it is an empty cell on the floor or on a piece |
| `Board.LandingRowIsLowestBlank` | ConnectFour.cpp:103-106 | when the top cell is empty, the landing row is on the board and empty; every row under it is occupied and every row above it is empty |
| `Board.Drop` | ConnectFour.cpp:103-106 | the dropped symbol lands in the landing row of its column, and every other cell keeps its contents |
| `Board.DropSettles` | ConnectFour.cpp:103-110 | a drop keeps columns stacked, adds one occupied cell, raises its column by one and leaves other columns' heights unchanged |
| `Render.Render` | ConnectFour.cpp:126-138 | the picture is eight lines of 16 characters, starting with the column header and ending with the divider |
| `Render.RenderShowsCells` | ConnectFour.cpp:126-138 | the picture is 8 lines of 16 characters; cell (r,c) appears at line r+1, position 1+2c |
| `Render.RenderInjective` | ConnectFour.cpp:126-138 | two boards with the same picture are equal |
| `Players.Player.constructor` | Player.cpp:3-4 | stores the name and strategy; wins, losses and ties start at 0 |
| `Players.Player.GetMove` | Player.cpp:6-8 | the strategy's answer for a copy of the game's state and the acting symbol |
| `Players.Player.GetName` | Player.cpp:10-12 | returns the stored name |
| `Players.Player.GetWins` | Player.cpp:14-16 | returns the stored win count, changing nothing |
| `Players.Player.GetLosses` | Player.cpp:18-20 | returns the stored loss count, changing nothing |
| `Players.Player.GetTies` | Player.cpp:22-24 | returns the stored tie count, changing nothing |
| `Players.Player.RecordWin` | Player.cpp:26-28 | wins + 1; losses and ties unchanged; games recorded + 1 |
| `Players.Player.RecordLoss` | Player.cpp:30-32 | losses + 1; wins and ties unchanged; games recorded + 1 |
| `Players.Player.RecordTie` | Player.cpp:34-36 | ties + 1; wins and losses unchanged; games recorded + 1 |
| `Players.Player.ResetStats` | Player.cpp:38-42 | all three counters are 0; the name and strategy are constant and stay |

## Left out

- strategies.cpp is not part of this model. It holds the game loop
  `playGame`, `runTournament`, `main` and the strategy lambdas. They are
  console I/O and calls into user-supplied strategies. The loop need not
  terminate when a strategy keeps choosing invalid columns.
- Players.Player.GetMove: a strategy is modelled as a pure function of a
  value copy of the game and the acting symbol. Strategies that read the
  console, keep their own state between calls, draw random numbers or call
  `exit` are not captured.
- Players.Player.RecordWin: the counters are unbounded integers. Incrementing
  a C++ `int` past its maximum (2^31 - 1 on common platforms) is undefined
  behaviour, which the model does not capture. The same holds for RecordLoss
  and RecordTie.
- Game.ConnectFour.ToString: `std::ostringstream` is modelled as string
  concatenation of the cell characters; no stream state or encoding is modelled.
- Players.Player.GetMove: in the source a strategy receives a
  `const ConnectFour&`, a read-only reference to the live engine
  (Player.h:11, Player.cpp:6-8). The model passes a value copy made by
  `Snapshot` instead. The two are equivalent here: the strategy can only read
  the engine, and it returns before the next change to the engine is made.
- The compiler-generated copy constructor and assignment of the engine are not
  in the source files and are not modelled.
- `moveCount` is an `int` in the source. It never exceeds 42, which
  `GetMoveCount` proves, so overflow cannot arise.
- `getCell` can only separate off-board probes from cells by its `'\0'` answer
  because no cell ever holds `'\0'`. `GetCell` and `Rules.CellAt` rely
  on the invariant for that.
