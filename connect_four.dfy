/// The game engine object: a 6 x 7 character array, the move count and the
/// symbol to move, updated in place. The ghost field `cells` mirrors the
/// array as a grid value so that every operation can be stated against the
/// pure rules.
module Game {
  import opened Board
  import opened Runs
  import Render
  import Rules

  class ConnectFour {
    const board: array2<char>
    var moveCount: int
    var currentPlayer: char
    ghost var cells: Grid

    /// The object invariant: the array is 6 x 7 and agrees with `cells`, and
    /// the state satisfies the invariant of the rules.
    ghost predicate Valid()
      reads this, board
    {
      Mirrors() && Rules.Invariant(State())
    }

    /// The array is 6 x 7 and agrees cell by cell with `cells`.
    ghost predicate Mirrors()
      reads this, board
    {
      board.Length0 == Rows && board.Length1 == Cols &&
      WellFormed(cells) &&
      forall r, c :: 0 <= r < Rows && 0 <= c < Cols ==> board[r, c] == cells[r][c]
    }

    /// The abstract value of the object.
    ghost function State(): Rules.State
      reads this
    {
      Rules.State(cells, moveCount, currentPlayer)
    }

    /// A copy of the whole state as a value, which no later update of this
    /// object can change: what a strategy is shown of the game.
    function Snapshot(): (s: Rules.State)
      reads this, board
      requires Valid()
      ensures s == State()
    {
      var grid := seq(Rows, r requires 0 <= r < Rows reads board =>
        seq(Cols, c requires 0 <= c < Cols reads board => board[r, c]));
      assert grid == cells by {
        forall r | 0 <= r < Rows
          ensures grid[r] == cells[r]
        {
        }
      }
      Rules.State(grid, moveCount, currentPlayer)
    }

    /// A new game: every cell blank, no moves played, X to move.
    constructor ()
      ensures Valid() && fresh(board)
      ensures State() == Rules.Initial()
    {
      board := new char[Rows, Cols];
      moveCount := 0;
      currentPlayer := X;
      new;
      ClearBoard();
      cells := EmptyGrid();
      assert Mirrors();
      assert State() == Rules.Initial();
    }

    /// The nested loops that blank every cell of the array.
    method ClearBoard()
      requires board.Length0 == Rows && board.Length1 == Cols
      modifies board
      ensures forall r, c :: 0 <= r < Rows && 0 <= c < Cols ==> board[r, c] == Blank
    {
      for i := 0 to Rows
        invariant forall r, c :: 0 <= r < i && 0 <= c < Cols ==> board[r, c] == Blank
      {
        for j := 0 to Cols
          invariant forall r, c :: 0 <= r < i && 0 <= c < Cols ==> board[r, c] == Blank
          invariant forall c :: 0 <= c < j ==> board[i, c] == Blank
        {
          board[i, j] := Blank;
        }
      }
    }

    /// The bounds-checked probe: NoCell exactly off the board, the cell's
    /// contents on it.
    function GetCell(row: int, col: int): (ch: char)
      reads this, board
      requires Valid()
      ensures ch == Rules.NoCell <==> !(0 <= row < Rows && 0 <= col < Cols)
      ensures 0 <= row < Rows && 0 <= col < Cols ==> ch == cells[row][col]
      ensures ch == Rules.CellAt(State(), row, col)
    {
      if row < 0 || row >= Rows || col < 0 || col >= Cols then Rules.NoCell else board[row, col]
    }

    /// The symbol to move: X exactly after an even number of moves.
    function GetCurrentPlayer(): (p: char)
      reads this, board
      requires Valid()
      ensures p == X <==> moveCount % 2 == 0
      ensures p == X || p == O
    {
      currentPlayer
    }

    /// The number of moves played, which is the number of pieces on the
    /// board and at most 42.
    function GetMoveCount(): (n: int)
      reads this, board
      requires Valid()
      ensures n == Filled(cells)
      ensures 0 <= n <= Size
    {
      moveCount
    }

    /// The board is full exactly when no cell is empty.
    function IsFull(): (full: bool)
      reads this, board
      requires Valid()
      ensures full <==> Packed(cells)
      ensures full == Rules.IsFull(State())
    {
      FullIffPacked(cells);
      moveCount == Size
    }

    /// The four-in-a-row scan: horizontal, vertical, down-right and down-left
    /// starts, each row by row and column by column, returning the owner of
    /// the first run found, or Blank.
    method GetWinner() returns (w: char)
      requires Mirrors()
      ensures w == Winner(cells)
    {
      for row := 0 to 6
        invariant ScanFrom(cells, Horizontal, row, 0) == Winner(cells)
      {
        for col := 0 to 4
          invariant ScanFrom(cells, Horizontal, row, col) == Winner(cells)
        {
          ScanStep(cells, Horizontal, row, col);
          RunAtRow(cells, row, col);
          if board[row, col] != Blank &&
             board[row, col] == board[row, col + 1] &&
             board[row, col] == board[row, col + 2] &&
             board[row, col] == board[row, col + 3] {
            return board[row, col];
          }
        }
        ScanTurn(cells, Horizontal, row);
      }
      ScanTurn(cells, Horizontal, RowLimit(Horizontal));

      for row := 0 to 3
        invariant ScanFrom(cells, Vertical, row, 0) == Winner(cells)
      {
        for col := 0 to 7
          invariant ScanFrom(cells, Vertical, row, col) == Winner(cells)
        {
          ScanStep(cells, Vertical, row, col);
          RunAtColumn(cells, row, col);
          if board[row, col] != Blank &&
             board[row, col] == board[row + 1, col] &&
             board[row, col] == board[row + 2, col] &&
             board[row, col] == board[row + 3, col] {
            return board[row, col];
          }
        }
        ScanTurn(cells, Vertical, row);
      }
      ScanTurn(cells, Vertical, RowLimit(Vertical));

      for row := 0 to 3
        invariant ScanFrom(cells, DownRight, row, 0) == Winner(cells)
      {
        for col := 0 to 4
          invariant ScanFrom(cells, DownRight, row, col) == Winner(cells)
        {
          ScanStep(cells, DownRight, row, col);
          RunAtDownRight(cells, row, col);
          if board[row, col] != Blank &&
             board[row, col] == board[row + 1, col + 1] &&
             board[row, col] == board[row + 2, col + 2] &&
             board[row, col] == board[row + 3, col + 3] {
            return board[row, col];
          }
        }
        ScanTurn(cells, DownRight, row);
      }
      ScanTurn(cells, DownRight, RowLimit(DownRight));

      for row := 0 to 3
        invariant ScanFrom(cells, DownLeft, row, 3) == Winner(cells)
      {
        for col := 3 to 7
          invariant ScanFrom(cells, DownLeft, row, col) == Winner(cells)
        {
          ScanStep(cells, DownLeft, row, col);
          RunAtDownLeft(cells, row, col);
          if board[row, col] != Blank &&
             board[row, col] == board[row + 1, col - 1] &&
             board[row, col] == board[row + 2, col - 2] &&
             board[row, col] == board[row + 3, col - 3] {
            return board[row, col];
          }
        }
        ScanTurn(cells, DownLeft, row);
      }
      ScanTurn(cells, DownLeft, RowLimit(DownLeft));

      return Blank;
    }

    /// The game is over when somebody has four in a row or the board is full.
    method IsGameOver() returns (over: bool)
      requires Valid()
      ensures over == Rules.IsGameOver(State())
      ensures over <==> HasRun(cells) || Packed(cells)
    {
      var w := GetWinner();
      over := w != Blank || IsFull();
      Rules.GameOverMeaning(State());
    }

    /// A move is valid when the column exists, the game is not over and the
    /// column has room at the top.
    method IsValidMove(col: int) returns (valid: bool)
      requires Valid()
      ensures valid == Rules.IsValidMove(State(), col)
      ensures valid <==> 0 <= col < Cols && !HasRun(cells) && Height(cells, col) < Rows
    {
      Rules.ValidMoveMeaning(State(), col);
      if col < 0 || col >= Cols {
        return false;
      }
      var over := IsGameOver();
      if over {
        return false;
      }
      return board[0, col] == Blank;
    }

    /// Drops the current player's symbol into col when the move is valid:
    /// the lowest empty cell of the column is filled, the count goes up and
    /// the turn passes. An invalid move changes nothing and reports false.
    method MakeMove(col: int) returns (ok: bool)
      requires Valid()
      modifies this, board
      ensures Valid()
      ensures ok == Rules.IsValidMove(old(State()), col)
      ensures State() == Rules.Play(old(State()), col)
      ensures !ok ==> cells == old(cells) && moveCount == old(moveCount) && currentPlayer == old(currentPlayer)
      ensures ok ==> cells == Drop(old(cells), col, old(currentPlayer))
      ensures ok ==> moveCount == old(moveCount) + 1 && currentPlayer != old(currentPlayer)
    {
      var valid := IsValidMove(col);
      if !valid {
        return false;
      }
      ghost var before := State();
      LandingRowIsLowestBlank(cells, col);
      Rules.PlayKeepsInvariant(before, col);
      Rules.OpponentIsNext(moveCount);
      var row := 5;
      while row >= 0
        invariant LandingRow(cells, col) <= row < Rows
        invariant State() == before
        decreases row
      {
        if board[row, col] == Blank {
          board[row, col] := currentPlayer;
          cells := Put(cells, row, col, currentPlayer);
          moveCount := moveCount + 1;
          currentPlayer := if currentPlayer == X then O else X;
          return true;
        }
        row := row - 1;
      }
      assert false;
      return false;
    }

    /// Back to a new game from any state.
    method Reset()
      requires board.Length0 == Rows && board.Length1 == Cols
      modifies this, board
      ensures Valid()
      ensures State() == Rules.Initial()
    {
      ClearBoard();
      currentPlayer := X;
      moveCount := 0;
      cells := EmptyGrid();
      assert Mirrors();
      assert State() == Rules.Initial();
    }

    /// The text picture of the board.
    method ToString() returns (text: string)
      requires Mirrors()
      ensures text == Render.Render(cells)
    {
      text := Render.Header;
      for i := 0 to Rows
        invariant text == Render.Header + Render.RowsText(cells[..i])
      {
        text := text + "|";
        for j := 0 to Cols
          invariant text == Render.Header + Render.RowsText(cells[..i]) + "|" + Render.CellsText(cells[i][..j])
        {
          text := text + [board[i, j]] + "|";
          assert cells[i][..j + 1][..j] == cells[i][..j];
        }
        text := text + "\n";
        assert cells[i][..Cols] == cells[i];
        assert cells[..i + 1][..i] == cells[..i];
      }
      text := text + Render.Divider;
      assert cells[..Rows] == cells;
    }
  }
}
