/// The game state as a value and the rules of play: the queries a strategy
/// may ask, the move, and the invariants every reachable state keeps.
module Rules {
  import opened Board
  import opened Runs

  /// What a cell probe returns for coordinates off the board.
  const NoCell: char := '\0'

  /// The engine's whole state: the grid, the number of moves played and the
  /// symbol to move next.
  datatype State = State(cells: Grid, moveCount: int, currentPlayer: char)

  /// The symbol that moves after p.
  function Opponent(p: char): (q: char)
    ensures p == X ==> q == O
    ensures p != X ==> q == X
    ensures (p == X || p == O) ==> q != p && (q == X || q == O)
  {
    if p == X then O else X
  }

  /// The symbol to move once n moves have been played.
  function PlayerFor(n: int): char {
    if n % 2 == 0 then X else O
  }

  /// Turns alternate: the symbol after the n-th move's mover is the one
  /// for move n + 1.
  lemma OpponentIsNext(n: int)
    ensures Opponent(PlayerFor(n)) == PlayerFor(n + 1)
    ensures PlayerFor(n) != PlayerFor(n + 1)
  {
    assert (n + 1) % 2 == (if n % 2 == 0 then 1 else 0);
  }

  /// A new game: empty grid, no moves, X to move. It satisfies the
  /// invariant and nobody has won.
  function Initial(): (s: State)
    ensures forall r, c :: 0 <= r < |s.cells| && 0 <= c < |s.cells[r]| ==> s.cells[r][c] == Blank
    ensures s.moveCount == 0 && s.currentPlayer == X
    ensures Invariant(s)
    ensures Winner(s.cells) == Blank
  {
    EmptyGridFilled();
    EmptyGridNoWinner();
    State(EmptyGrid(), 0, X)
  }

  /// What holds of every state a game can reach: the grid holds only blanks
  /// and the two symbols, every column is a stack on row 5, the move count is
  /// the number of pieces, X moves exactly after an even number of moves,
  /// and all runs on the board belong to one player.
  ghost predicate Invariant(s: State) {
    WellFormed(s.cells) && CellsLegal(s.cells) && Settled(s.cells) &&
    s.moveCount == Filled(s.cells) &&
    s.currentPlayer == PlayerFor(s.moveCount) &&
    RunsAgree(s.cells)
  }

  /// The bounds-checked cell probe. On a grid of legal cells the sentinel
  /// NoCell is answered exactly off the board.
  function CellAt(s: State, row: int, col: int): (ch: char)
    requires WellFormed(s.cells)
    ensures !(0 <= row < Rows && 0 <= col < Cols) ==> ch == NoCell
    ensures 0 <= row < Rows && 0 <= col < Cols ==> ch == s.cells[row][col]
    ensures CellsLegal(s.cells) ==> (ch == NoCell <==> !(0 <= row < Rows && 0 <= col < Cols))
  {
    if row < 0 || row >= Rows || col < 0 || col >= Cols then NoCell else s.cells[row][col]
  }

  /// The board is full when 42 moves have been played; while the count
  /// matches the pieces on the board, that is when no cell is empty.
  function IsFull(s: State): (full: bool)
    requires WellFormed(s.cells)
    ensures s.moveCount == Filled(s.cells) ==> (full <==> Packed(s.cells))
  {
    FullIffPacked(s.cells);
    s.moveCount == Size
  }

  /// The game is over when the scan finds a winner or the board is full,
  /// that is, when some run of four exists or the board is full.
  function IsGameOver(s: State): (over: bool)
    requires WellFormed(s.cells)
    ensures over <==> HasRun(s.cells) || IsFull(s)
  {
    WinnerIsFirstRun(s.cells);
    Winner(s.cells) != Blank || IsFull(s)
  }

  /// A move is valid when the column exists, the game is not over and the
  /// column's top cell is empty.
  function IsValidMove(s: State, col: int): (valid: bool)
    requires WellFormed(s.cells)
    ensures valid <==> 0 <= col < Cols && !HasRun(s.cells) && !IsFull(s) && s.cells[0][col] == Blank
  {
    if col < 0 || col >= Cols then false
    else if IsGameOver(s) then false
    else s.cells[0][col] == Blank
  }

  /// The state after a move into col: unchanged when the move is invalid;
  /// otherwise the mover's symbol is dropped into the column, the count goes
  /// up and the turn passes.
  function Play(s: State, col: int): (t: State)
    requires WellFormed(s.cells) && Settled(s.cells)
    ensures WellFormed(t.cells)
    ensures !IsValidMove(s, col) ==> t == s
    ensures IsValidMove(s, col) ==> t.moveCount == s.moveCount + 1 && t.currentPlayer == Opponent(s.currentPlayer)
    ensures s.currentPlayer != Blank ==> Settled(t.cells)
    ensures IsValidMove(s, col) && s.currentPlayer != Blank ==> Filled(t.cells) == Filled(s.cells) + 1
  {
    if !IsValidMove(s, col) then s
    else
      LandingRowIsLowestBlank(s.cells, col);
      var t := State(Drop(s.cells, col, s.currentPlayer), s.moveCount + 1, Opponent(s.currentPlayer));
      if s.currentPlayer == Blank then t
      else
        DropSettles(s.cells, col, s.currentPlayer);
        t
  }

  /// The board is full exactly when no cell is empty.
  lemma FullMeansPacked(s: State)
    requires Invariant(s)
    ensures 0 <= s.moveCount <= Size
    ensures IsFull(s) <==> Packed(s.cells)
  {
    FullIffPacked(s.cells);
  }

  /// The game is over exactly when some run exists or no cell is empty.
  lemma GameOverMeaning(s: State)
    requires Invariant(s)
    ensures IsGameOver(s) <==> HasRun(s.cells) || Packed(s.cells)
  {
    WinnerIsFirstRun(s.cells);
    FullIffPacked(s.cells);
  }

  /// A move is valid exactly when the column exists, nobody has four in a
  /// row, and the column holds fewer than six pieces (so the board is not
  /// full either).
  lemma ValidMoveMeaning(s: State, col: int)
    requires Invariant(s)
    ensures IsValidMove(s, col) <==> 0 <= col < Cols && !HasRun(s.cells) && Height(s.cells, col) < Rows
  {
    WinnerIsFirstRun(s.cells);
    FullIffPacked(s.cells);
    if 0 <= col < Cols {
      ColumnShape(s.cells, col);
      if Height(s.cells, col) < Rows {
        assert s.cells[0][col] == Blank;
      }
    }
  }

  /// A game in progress always offers a valid move.
  lemma InProgressHasMove(s: State)
    requires Invariant(s) && !IsGameOver(s)
    ensures exists col :: 0 <= col < Cols && IsValidMove(s, col)
  {
    FullIffPacked(s.cells);
    var r, c :| 0 <= r < Rows && 0 <= c < Cols && s.cells[r][c] == Blank;
    assert s.cells[0][c] == Blank;
    assert IsValidMove(s, c);
  }

  /// What a move does. An invalid move changes nothing. A valid one writes
  /// the mover's symbol into the lowest empty cell of the column (every cell
  /// under it is occupied), changes no other cell, adds one to the count and
  /// hands the turn to the other symbol.
  lemma PlayEffect(s: State, col: int)
    requires Invariant(s)
    ensures !IsValidMove(s, col) ==> Play(s, col) == s
    ensures IsValidMove(s, col) ==>
      var t, r := Play(s, col), LandingRow(s.cells, col);
      0 <= r < Rows && s.cells[r][col] == Blank &&
      (forall r' :: r < r' < Rows ==> s.cells[r'][col] != Blank) &&
      WellFormed(t.cells) && t.cells[r][col] == s.currentPlayer &&
      (forall r', c' :: 0 <= r' < Rows && 0 <= c' < Cols && (r', c') != (r, col) ==> t.cells[r'][c'] == s.cells[r'][c']) &&
      t.moveCount == s.moveCount + 1 &&
      t.currentPlayer != s.currentPlayer && (t.currentPlayer == X || t.currentPlayer == O)
  {
    if IsValidMove(s, col) {
      LandingRowIsLowestBlank(s.cells, col);
    }
  }

  /// Every move keeps the invariant; in particular the second piece of a
  /// four can never be the opponent's once a four exists, because no move is
  /// valid after one.
  lemma PlayKeepsInvariant(s: State, col: int)
    requires Invariant(s)
    ensures Invariant(Play(s, col))
  {
    if IsValidMove(s, col) {
      var g, p, n := s.cells, s.currentPlayer, s.moveCount;
      var r := LandingRow(g, col);
      DropSettles(g, col, p);
      LandingRowIsLowestBlank(g, col);
      WinnerIsFirstRun(g);
      var h := Drop(g, col, p);
      assert h == Put(g, r, col, p);
      PutMakesOnlyOwnRuns(g, r, col, p);
      PutKeepsLegal(g, r, col, p);
      var t := Play(s, col);
      assert t.cells == h;
      assert t.moveCount == n + 1;
      OpponentIsNext(n);
      assert t.currentPlayer == PlayerFor(n + 1);
      assert WellFormed(h);
      assert CellsLegal(h);
      assert Settled(h);
      assert n + 1 == Filled(h);
      assert RunsAgree(h);
    }
  }

  /// The state after a sequence of moves.
  function PlayAll(s: State, cols: seq<int>): State
    requires Invariant(s)
    decreases |cols|
  {
    if cols == [] then s
    else
      PlayKeepsInvariant(s, cols[0]);
      PlayAll(Play(s, cols[0]), cols[1..])
  }

  /// Every move of the sequence is valid when it is made.
  ghost predicate AllValid(s: State, cols: seq<int>)
    requires Invariant(s)
    decreases |cols|
  {
    cols == [] ||
    (IsValidMove(s, cols[0]) && (PlayKeepsInvariant(s, cols[0]); AllValid(Play(s, cols[0]), cols[1..])))
  }

  /// Any sequence of moves keeps the invariant, never lowers the count and
  /// raises it by one per valid move.
  lemma {:induction false} PlayAllKeepsInvariant(s: State, cols: seq<int>)
    requires Invariant(s)
    ensures Invariant(PlayAll(s, cols))
    ensures s.moveCount <= PlayAll(s, cols).moveCount <= s.moveCount + |cols|
    ensures AllValid(s, cols) ==> PlayAll(s, cols).moveCount == s.moveCount + |cols|
    decreases |cols|
  {
    if cols != [] {
      PlayKeepsInvariant(s, cols[0]);
      PlayEffect(s, cols[0]);
      PlayAllKeepsInvariant(Play(s, cols[0]), cols[1..]);
    }
  }

  /// After N valid moves from a new game the count is N, X is to move
  /// exactly when N is even, and the count never passes 42.
  lemma ValidGameCounts(cols: seq<int>)
    requires AllValid(Initial(), cols)
    ensures PlayAll(Initial(), cols).moveCount == |cols| <= Size
    ensures PlayAll(Initial(), cols).currentPlayer == X <==> |cols| % 2 == 0
  {
    PlayAllKeepsInvariant(Initial(), cols);
    FullMeansPacked(PlayAll(Initial(), cols));
  }

  /// In every reachable state the winner does not depend on the scan order:
  /// any run on the board names it.
  lemma ReachableWinnerIsAnyRun(cols: seq<int>, st: Start)
    requires var g := PlayAll(Initial(), cols).cells; WellFormed(g) && IsStart(st) && RunAt(g, st)
    ensures var g := PlayAll(Initial(), cols).cells; Winner(g) == Owner(g, st)
  {
    PlayAllKeepsInvariant(Initial(), cols);
    WinnerOfAnyRun(PlayAll(Initial(), cols).cells, st);
  }
}
