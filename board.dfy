/// The Connect Four grid as a value: six rows of seven cells, row 0 at the
/// top and row 5 at the bottom. This module holds what is true of any grid:
/// its shape, how many cells are occupied, the gravity rule that keeps every
/// column a stack standing on row 5, and the row a dropped piece lands on.
module Board {

  const Rows: int := 6
  const Cols: int := 7
  const Size: int := 42

  /// The three symbols a cell can hold.
  const Blank: char := ' '
  const X: char := 'X'
  const O: char := 'O'

  type Grid = seq<seq<char>>

  predicate RowsOfWidth(g: Grid) {
    forall r :: 0 <= r < |g| ==> |g[r]| == Cols
  }

  /// Six rows of seven cells, as the fixed `char board[6][7]` is.
  predicate WellFormed(g: Grid) {
    |g| == Rows && RowsOfWidth(g)
  }

  /// Every cell is empty or holds one of the two player symbols.
  predicate CellsLegal(g: Grid)
    requires WellFormed(g)
  {
    forall r, c :: 0 <= r < Rows && 0 <= c < Cols ==> g[r][c] == Blank || g[r][c] == X || g[r][c] == O
  }

  /// Gravity: every cell below an occupied cell is occupied, so the pieces
  /// of each column form a contiguous run ending at row 5.
  predicate Settled(g: Grid)
    requires WellFormed(g)
  {
    forall r, r', c :: 0 <= r <= r' < Rows && 0 <= c < Cols && g[r][c] != Blank ==> g[r'][c] != Blank
  }

  /// No cell is empty.
  predicate Packed(g: Grid)
    requires WellFormed(g)
  {
    forall r, c :: 0 <= r < Rows && 0 <= c < Cols ==> g[r][c] != Blank
  }

  function EmptyRow(): (row: seq<char>)
    ensures |row| == Cols && forall c :: 0 <= c < Cols ==> row[c] == Blank
  {
    seq(Cols, _ => Blank)
  }

  /// The grid of a new game: all 42 cells empty.
  function EmptyGrid(): (g: Grid)
    ensures WellFormed(g)
    ensures forall r, c :: 0 <= r < Rows && 0 <= c < Cols ==> g[r][c] == Blank
  {
    seq(Rows, _ => EmptyRow())
  }

  /// The grid with the single cell (r, c) replaced by p.
  function Put(g: Grid, r: int, c: int, p: char): (h: Grid)
    requires WellFormed(g) && 0 <= r < Rows && 0 <= c < Cols
    ensures WellFormed(h)
    ensures h[r][c] == p
    ensures forall r', c' :: 0 <= r' < Rows && 0 <= c' < Cols && (r', c') != (r, c) ==> h[r'][c'] == g[r'][c']
  {
    g[r := g[r][c := p]]
  }

  /// Writing a player symbol keeps every cell legal.
  lemma PutKeepsLegal(g: Grid, r: int, c: int, p: char)
    requires WellFormed(g) && CellsLegal(g) && 0 <= r < Rows && 0 <= c < Cols && (p == X || p == O)
    ensures CellsLegal(Put(g, r, c, p))
  {
  }

  // ---------------------------------------------------------------------
  // Counting occupied cells

  /// The number of occupied cells of one row.
  function RowFilled(row: seq<char>): (n: int)
    ensures 0 <= n <= |row|
  {
    if row == [] then 0 else (if row[0] != Blank then 1 else 0) + RowFilled(row[1..])
  }

  /// The number of occupied cells of a grid.
  function Filled(g: Grid): (n: int)
    requires RowsOfWidth(g)
    ensures 0 <= n <= Cols * |g|
  {
    if g == [] then 0 else RowFilled(g[0]) + Filled(g[1..])
  }

  /// A row has as many occupied cells as it is long exactly when none is empty.
  lemma {:induction false} RowFilledAll(row: seq<char>)
    ensures RowFilled(row) == |row| <==> forall c :: 0 <= c < |row| ==> row[c] != Blank
  {
    if row != [] {
      RowFilledAll(row[1..]);
      assert forall c :: 1 <= c < |row| ==> row[c] == row[1..][c - 1];
    }
  }

  lemma {:induction false} FilledAll(g: Grid)
    requires RowsOfWidth(g)
    ensures Filled(g) == Cols * |g| <==> forall r, c :: 0 <= r < |g| && 0 <= c < Cols ==> g[r][c] != Blank
  {
    if g != [] {
      FilledAll(g[1..]);
      RowFilledAll(g[0]);
      assert forall r :: 1 <= r < |g| ==> g[r] == g[1..][r - 1];
    }
  }

  /// 42 occupied cells is the same as no empty cell.
  lemma FullIffPacked(g: Grid)
    requires WellFormed(g)
    ensures Filled(g) == Size <==> Packed(g)
  {
    FilledAll(g);
  }

  lemma {:induction false} RowFilledPut(row: seq<char>, c: int, p: char)
    requires 0 <= c < |row| && row[c] == Blank && p != Blank
    ensures RowFilled(row[c := p]) == RowFilled(row) + 1
  {
    if c > 0 {
      RowFilledPut(row[1..], c - 1, p);
      assert row[c := p][1..] == row[1..][c - 1 := p];
    } else {
      assert row[c := p][1..] == row[1..];
    }
  }

  lemma {:induction false} FilledPutRows(g: Grid, r: int, c: int, p: char)
    requires RowsOfWidth(g) && 0 <= r < |g| && 0 <= c < Cols && g[r][c] == Blank && p != Blank
    ensures RowsOfWidth(g[r := g[r][c := p]])
    ensures Filled(g[r := g[r][c := p]]) == Filled(g) + 1
  {
    var h := g[r := g[r][c := p]];
    if r > 0 {
      FilledPutRows(g[1..], r - 1, c, p);
      assert h[1..] == g[1..][r - 1 := g[1..][r - 1][c := p]];
    } else {
      RowFilledPut(g[0], c, p);
      assert h[1..] == g[1..];
    }
  }

  /// Writing a symbol into an empty cell adds exactly one occupied cell.
  lemma FilledPut(g: Grid, r: int, c: int, p: char)
    requires WellFormed(g) && 0 <= r < Rows && 0 <= c < Cols && g[r][c] == Blank && p != Blank
    ensures Filled(Put(g, r, c, p)) == Filled(g) + 1
  {
    FilledPutRows(g, r, c, p);
  }

  lemma {:induction false} FilledEmptyRows(g: Grid)
    requires RowsOfWidth(g)
    requires forall r, c :: 0 <= r < |g| && 0 <= c < Cols ==> g[r][c] == Blank
    ensures Filled(g) == 0
  {
    if g != [] {
      FilledEmptyRows(g[1..]);
      RowFilledAll(g[0]);
      RowFilledNone(g[0]);
    }
  }

  lemma {:induction false} RowFilledNone(row: seq<char>)
    requires forall c :: 0 <= c < |row| ==> row[c] == Blank
    ensures RowFilled(row) == 0
  {
    if row != [] {
      RowFilledNone(row[1..]);
    }
  }

  /// A new game has no piece on the board.
  lemma EmptyGridFilled()
    ensures Filled(EmptyGrid()) == 0
  {
    FilledEmptyRows(EmptyGrid());
  }

  // ---------------------------------------------------------------------
  // Column heights and the landing row

  /// The number of occupied cells of column c among rows from..5.
  function StackFrom(g: Grid, c: int, from: int): (n: int)
    requires WellFormed(g) && 0 <= c < Cols && 0 <= from <= Rows
    ensures 0 <= n <= Rows - from
    decreases Rows - from
  {
    if from == Rows then 0
    else (if g[from][c] != Blank then 1 else 0) + StackFrom(g, c, from + 1)
  }

  /// How many pieces column c holds.
  function Height(g: Grid, c: int): (n: int)
    requires WellFormed(g) && 0 <= c < Cols
    ensures 0 <= n <= Rows
  {
    StackFrom(g, c, 0)
  }

  lemma {:induction false} StackFromShape(g: Grid, c: int, from: int)
    requires WellFormed(g) && Settled(g) && 0 <= c < Cols && 0 <= from <= Rows
    ensures forall r :: from <= r < Rows ==> (g[r][c] != Blank <==> r >= Rows - StackFrom(g, c, from))
    decreases Rows - from
  {
    if from < Rows {
      StackFromShape(g, c, from + 1);
    }
  }

  /// In a settled grid the occupied cells of column c are exactly its lowest
  /// Height(g, c) rows.
  lemma ColumnShape(g: Grid, c: int)
    requires WellFormed(g) && 0 <= c < Cols
    ensures Settled(g) ==> forall r :: 0 <= r < Rows ==> (g[r][c] != Blank <==> r >= Rows - Height(g, c))
  {
    if Settled(g) {
      StackFromShape(g, c, 0);
    }
  }

  /// The row a piece dropped into column c comes to rest on: the one just
  /// above the column's stack.
  /// On a settled grid it is on the board exactly when the top cell is
  /// empty, and it is an empty cell resting on the floor or on a piece.
  function LandingRow(g: Grid, c: int): (r: int)
    requires WellFormed(g) && 0 <= c < Cols
    ensures -1 <= r < Rows
    ensures Settled(g) ==> (0 <= r <==> g[0][c] == Blank)
    ensures Settled(g) && 0 <= r ==> g[r][c] == Blank
    ensures Settled(g) && r + 1 < Rows ==> g[r + 1][c] != Blank
  {
    ColumnShape(g, c);
    Rows - 1 - Height(g, c)
  }

  /// When the top cell of a column of a settled grid is empty, the landing
  /// row is on the board, is empty, and is the lowest empty cell of the
  /// column: everything under it is occupied and everything above it empty.
  lemma LandingRowIsLowestBlank(g: Grid, c: int)
    requires WellFormed(g) && Settled(g) && 0 <= c < Cols && g[0][c] == Blank
    ensures 0 <= LandingRow(g, c) < Rows
    ensures g[LandingRow(g, c)][c] == Blank
    ensures forall r :: LandingRow(g, c) < r < Rows ==> g[r][c] != Blank
    ensures forall r :: 0 <= r < LandingRow(g, c) ==> g[r][c] == Blank
  {
    ColumnShape(g, c);
  }

  /// Dropping p into column c of a settled grid with room in that column.
  function Drop(g: Grid, c: int, p: char): (h: Grid)
    requires WellFormed(g) && 0 <= c < Cols && Height(g, c) < Rows
    ensures WellFormed(h)
    ensures h[LandingRow(g, c)][c] == p
    ensures forall r, c' :: 0 <= r < Rows && 0 <= c' < Cols && (r, c') != (LandingRow(g, c), c) ==> h[r][c'] == g[r][c']
  {
    Put(g, LandingRow(g, c), c, p)
  }

  /// A drop keeps the grid settled, raises the column by one piece and leaves
  /// every other column as it was.
  lemma DropSettles(g: Grid, c: int, p: char)
    requires WellFormed(g) && Settled(g) && 0 <= c < Cols && g[0][c] == Blank && p != Blank
    ensures Height(g, c) < Rows
    ensures Settled(Drop(g, c, p))
    ensures Filled(Drop(g, c, p)) == Filled(g) + 1
    ensures Height(Drop(g, c, p), c) == Height(g, c) + 1
    ensures forall c' :: 0 <= c' < Cols && c' != c ==> Height(Drop(g, c, p), c') == Height(g, c')
  {
    LandingRowIsLowestBlank(g, c);
    var r := LandingRow(g, c);
    var h := Drop(g, c, p);
    assert Settled(h);
    FilledPut(g, r, c, p);
    ColumnShape(h, c);
    HeightAgrees(g, h, c, 0);
    forall c' | 0 <= c' < Cols && c' != c
      ensures Height(h, c') == Height(g, c')
    {
      SameColumnSameStack(g, h, c', 0);
    }
  }

  lemma {:induction false} SameColumnSameStack(g: Grid, h: Grid, c: int, from: int)
    requires WellFormed(g) && WellFormed(h) && 0 <= c < Cols && 0 <= from <= Rows
    requires forall r :: 0 <= r < Rows ==> g[r][c] == h[r][c]
    ensures StackFrom(g, c, from) == StackFrom(h, c, from)
    decreases Rows - from
  {
    if from < Rows {
      SameColumnSameStack(g, h, c, from + 1);
    }
  }

  /// The column c of h is that of g with the one empty cell at row
  /// LandingRow(g, c) filled, so its stack is one higher.
  lemma {:induction false} HeightAgrees(g: Grid, h: Grid, c: int, from: int)
    requires WellFormed(g) && WellFormed(h) && Settled(g) && 0 <= c < Cols && 0 <= from <= Rows
    requires 0 <= LandingRow(g, c) < Rows && g[LandingRow(g, c)][c] == Blank
    requires h[LandingRow(g, c)][c] != Blank
    requires forall r :: 0 <= r < Rows && r != LandingRow(g, c) ==> h[r][c] == g[r][c]
    ensures StackFrom(h, c, from) == StackFrom(g, c, from) + (if from <= LandingRow(g, c) then 1 else 0)
    decreases Rows - from
  {
    if from < Rows {
      HeightAgrees(g, h, c, from + 1);
    }
  }
}
