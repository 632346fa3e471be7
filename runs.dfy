/// Four-in-a-row detection. A run is four equal occupied cells along a row,
/// a column, or one of the two diagonals; it is identified by the cell it
/// starts from and its direction. The winner is the owner of the first run
/// met by a fixed scan: horizontal starts, then vertical, then down-right,
/// then down-left, each direction row by row and, within a row, column by
/// column.
module Runs {
  import opened Board

  datatype Direction = Horizontal | Vertical | DownRight | DownLeft

  /// A candidate start of a run.
  datatype Start = Start(dir: Direction, row: int, col: int)

  /// Position of a direction in the scan.
  function Rank(d: Direction): int {
    match d
    case Horizontal => 0
    case Vertical => 1
    case DownRight => 2
    case DownLeft => 3
  }

  /// The direction scanned after d.
  function Succ(d: Direction): (e: Direction)
    requires d != DownLeft
    ensures Rank(e) == Rank(d) + 1
  {
    match d
    case Horizontal => Vertical
    case Vertical => DownRight
    case DownRight => DownLeft
  }

  /// Start rows are 0 <= row < RowLimit(d); start columns are
  /// ColFirst(d) <= col < ColLimit(d): exactly the starts whose four cells
  /// lie on the board.
  function RowLimit(d: Direction): int {
    if d == Horizontal then Rows else Rows - 3
  }

  function ColFirst(d: Direction): int {
    if d == DownLeft then 3 else 0
  }

  function ColLimit(d: Direction): int {
    if d == Vertical || d == DownLeft then Cols else Cols - 3
  }

  predicate IsStart(s: Start) {
    0 <= s.row < RowLimit(s.dir) && ColFirst(s.dir) <= s.col < ColLimit(s.dir)
  }

  /// The k-th cell (k = 0..3) of the run that starts at s.
  function RunCell(s: Start, k: int): (rc: (int, int))
    requires IsStart(s) && 0 <= k < 4
    ensures 0 <= rc.0 < Rows && 0 <= rc.1 < Cols
  {
    match s.dir
    case Horizontal => (s.row, s.col + k)
    case Vertical => (s.row + k, s.col)
    case DownRight => (s.row + k, s.col + k)
    case DownLeft => (s.row + k, s.col - k)
  }

  function CellOf(g: Grid, s: Start, k: int): char
    requires WellFormed(g) && IsStart(s) && 0 <= k < 4
  {
    var rc := RunCell(s, k);
    g[rc.0][rc.1]
  }

  /// The four cells starting at s are occupied and equal.
  predicate RunAt(g: Grid, s: Start)
    requires WellFormed(g) && IsStart(s)
  {
    g[s.row][s.col] != Blank &&
    g[s.row][s.col] == CellOf(g, s, 1) &&
    g[s.row][s.col] == CellOf(g, s, 2) &&
    g[s.row][s.col] == CellOf(g, s, 3)
  }

  /// The symbol a run belongs to.
  function Owner(g: Grid, s: Start): char
    requires WellFormed(g) && IsStart(s)
  {
    g[s.row][s.col]
  }

  /// a is met before b by the scan.
  predicate Precedes(a: Start, b: Start) {
    Rank(a.dir) < Rank(b.dir) ||
    (a.dir == b.dir && (a.row < b.row || (a.row == b.row && a.col < b.col)))
  }

  /// s is met by the scan at or after the cursor (d, row, col).
  predicate NotBefore(s: Start, d: Direction, row: int, col: int) {
    Rank(s.dir) > Rank(d) ||
    (s.dir == d && (s.row > row || (s.row == row && s.col >= col)))
  }

  /// The owner of the first run met from the cursor (d, row, col) on, or
  /// Blank when there is none: the remainder of the scan the nested loops
  /// perform. A cursor may sit one past the last column of its row or one
  /// past the last row of its direction.
  function ScanFrom(g: Grid, d: Direction, row: int, col: int): (w: char)
    requires WellFormed(g)
    requires 0 <= row <= RowLimit(d) && ColFirst(d) <= col <= ColLimit(d)
    ensures CellsLegal(g) ==> w == Blank || w == X || w == O
    decreases 3 - Rank(d), RowLimit(d) - row, ColLimit(d) - col
  {
    if row == RowLimit(d) then
      if d == DownLeft then Blank else ScanFrom(g, Succ(d), 0, ColFirst(Succ(d)))
    else if col == ColLimit(d) then ScanFrom(g, d, row + 1, ColFirst(d))
    else if RunAt(g, Start(d, row, col)) then g[row][col]
    else ScanFrom(g, d, row, col + 1)
  }

  /// One step of the scan: the run starting at the cursor, if any, answers;
  /// otherwise the scan goes on at the next column.
  lemma ScanStep(g: Grid, d: Direction, row: int, col: int)
    requires WellFormed(g) && 0 <= row < RowLimit(d) && ColFirst(d) <= col < ColLimit(d)
    ensures ScanFrom(g, d, row, col) ==
      if RunAt(g, Start(d, row, col)) then g[row][col] else ScanFrom(g, d, row, col + 1)
  {
  }

  /// The run test along a row, cell by cell as the scanning loop writes it.
  lemma RunAtRow(g: Grid, row: int, col: int)
    requires WellFormed(g) && IsStart(Start(Horizontal, row, col))
    ensures RunAt(g, Start(Horizontal, row, col)) <==>
      g[row][col] != Blank && g[row][col] == g[row][col + 1] && g[row][col] == g[row][col + 2] && g[row][col] == g[row][col + 3]
  {
  }

  /// The run test along a column, cell by cell as the scanning loop writes it.
  lemma RunAtColumn(g: Grid, row: int, col: int)
    requires WellFormed(g) && IsStart(Start(Vertical, row, col))
    ensures RunAt(g, Start(Vertical, row, col)) <==>
      g[row][col] != Blank && g[row][col] == g[row + 1][col] && g[row][col] == g[row + 2][col] && g[row][col] == g[row + 3][col]
  {
  }

  /// The run test along a down-right diagonal, cell by cell as the scanning loop writes it.
  lemma RunAtDownRight(g: Grid, row: int, col: int)
    requires WellFormed(g) && IsStart(Start(DownRight, row, col))
    ensures RunAt(g, Start(DownRight, row, col)) <==>
      g[row][col] != Blank && g[row][col] == g[row + 1][col + 1] && g[row][col] == g[row + 2][col + 2] && g[row][col] == g[row + 3][col + 3]
  {
  }

  /// The run test along a down-left diagonal, cell by cell as the scanning loop writes it.
  lemma RunAtDownLeft(g: Grid, row: int, col: int)
    requires WellFormed(g) && IsStart(Start(DownLeft, row, col))
    ensures RunAt(g, Start(DownLeft, row, col)) <==>
      g[row][col] != Blank && g[row][col] == g[row + 1][col - 1] && g[row][col] == g[row + 2][col - 2] && g[row][col] == g[row + 3][col - 3]
  {
  }

  /// The scan moves from the end of a row to the start of the next, and
  /// from the last row of a direction to the first start of the next one.
  lemma ScanTurn(g: Grid, d: Direction, row: int)
    requires WellFormed(g) && 0 <= row <= RowLimit(d)
    ensures row < RowLimit(d) ==> ScanFrom(g, d, row, ColLimit(d)) == ScanFrom(g, d, row + 1, ColFirst(d))
    ensures row == RowLimit(d) && d != DownLeft ==> ScanFrom(g, d, row, ColFirst(d)) == ScanFrom(g, Succ(d), 0, ColFirst(Succ(d)))
    ensures row == RowLimit(d) && d == DownLeft ==> ScanFrom(g, d, row, ColFirst(d)) == Blank
  {
  }

  /// The winner: the owner of the first run in scan order, Blank if none.
  function Winner(g: Grid): (w: char)
    requires WellFormed(g)
    ensures w != Blank <==> HasRun(g)
    ensures CellsLegal(g) ==> w == Blank || w == X || w == O
  {
    ScanFromBlank(g, Horizontal, 0, 0);
    ScanFromFirst(g, Horizontal, 0, 0);
    assert forall t :: IsStart(t) ==> NotBefore(t, Horizontal, 0, 0);
    ScanFrom(g, Horizontal, 0, 0)
  }

  /// s is a run and no run is met before it.
  ghost predicate IsFirstRun(g: Grid, s: Start)
    requires WellFormed(g)
  {
    IsStart(s) && RunAt(g, s) &&
    forall t :: IsStart(t) && Precedes(t, s) ==> !RunAt(g, t)
  }

  /// Some run exists anywhere on the grid.
  ghost predicate HasRun(g: Grid)
    requires WellFormed(g)
  {
    exists s :: IsStart(s) && RunAt(g, s)
  }

  /// Past the last row of a direction, the scan admits exactly the starts
  /// of the later directions.
  lemma CursorTurn(d: Direction, col: int)
    requires d != DownLeft
    ensures forall t :: IsStart(t) ==>
      (NotBefore(t, d, RowLimit(d), col) <==> NotBefore(t, Succ(d), 0, ColFirst(Succ(d))))
  {
  }

  /// Past the last column of a row, the scan admits exactly the starts from
  /// the next row on.
  lemma CursorNextRow(d: Direction, row: int)
    ensures forall t :: IsStart(t) ==>
      (NotBefore(t, d, row, ColLimit(d)) <==> NotBefore(t, d, row + 1, ColFirst(d)))
  {
  }

  /// From a start, the scan admits that start and the starts admitted from
  /// the next column.
  lemma CursorNextCol(d: Direction, row: int, col: int)
    ensures forall t :: NotBefore(t, d, row, col) ==> t == Start(d, row, col) || NotBefore(t, d, row, col + 1)
  {
  }

  /// When the scan from a cursor answers Blank, no run starts at or after
  /// the cursor.
  lemma {:induction false} ScanFromBlank(g: Grid, d: Direction, row: int, col: int)
    requires WellFormed(g)
    requires 0 <= row <= RowLimit(d) && ColFirst(d) <= col <= ColLimit(d)
    ensures ScanFrom(g, d, row, col) == Blank ==>
      forall t :: IsStart(t) && NotBefore(t, d, row, col) ==> !RunAt(g, t)
    decreases 3 - Rank(d), RowLimit(d) - row, ColLimit(d) - col
  {
    if row == RowLimit(d) {
      if d != DownLeft {
        ScanFromBlank(g, Succ(d), 0, ColFirst(Succ(d)));
        CursorTurn(d, col);
      }
    } else if col == ColLimit(d) {
      ScanFromBlank(g, d, row + 1, ColFirst(d));
      CursorNextRow(d, row);
    } else if !RunAt(g, Start(d, row, col)) {
      ScanFromBlank(g, d, row, col + 1);
      CursorNextCol(d, row, col);
    }
  }

  /// s is the first run met by the scan from the cursor (d, row, col).
  ghost predicate FirstFrom(g: Grid, s: Start, d: Direction, row: int, col: int)
    requires WellFormed(g)
  {
    IsStart(s) && NotBefore(s, d, row, col) && RunAt(g, s) &&
    forall t :: IsStart(t) && NotBefore(t, d, row, col) && Precedes(t, s) ==> !RunAt(g, t)
  }

  /// Some run owned by w is the first one met from the cursor.
  ghost predicate FirstOwnedFrom(g: Grid, w: char, d: Direction, row: int, col: int)
    requires WellFormed(g)
  {
    exists s :: FirstFrom(g, s, d, row, col) && w == Owner(g, s)
  }

  /// What the scan from a cursor promises: a symbol it answers owns the
  /// first run met from the cursor on.
  ghost predicate ScanFindsFirst(g: Grid, d: Direction, row: int, col: int)
    requires WellFormed(g)
    requires 0 <= row <= RowLimit(d) && ColFirst(d) <= col <= ColLimit(d)
  {
    ScanFrom(g, d, row, col) != Blank ==> FirstOwnedFrom(g, ScanFrom(g, d, row, col), d, row, col)
  }

  /// Two cursors that admit the same starts meet the same first run.
  lemma FirstFromMove(g: Grid, w: char, d: Direction, row: int, col: int, d': Direction, row': int, col': int)
    requires WellFormed(g) && FirstOwnedFrom(g, w, d', row', col')
    requires forall t :: IsStart(t) ==> (NotBefore(t, d, row, col) <==> NotBefore(t, d', row', col'))
    ensures FirstOwnedFrom(g, w, d, row, col)
  {
    var s :| FirstFrom(g, s, d', row', col') && w == Owner(g, s);
    assert FirstFrom(g, s, d, row, col);
  }

  /// The promise carries over from the first start of the next direction to
  /// the end of this one.
  lemma FirstAtTurn(g: Grid, d: Direction, col: int)
    requires WellFormed(g) && d != DownLeft && ColFirst(d) <= col <= ColLimit(d)
    requires ScanFindsFirst(g, Succ(d), 0, ColFirst(Succ(d)))
    ensures ScanFindsFirst(g, d, RowLimit(d), col)
  {
    var w := ScanFrom(g, d, RowLimit(d), col);
    if w != Blank {
      CursorTurn(d, col);
      FirstFromMove(g, w, d, RowLimit(d), col, Succ(d), 0, ColFirst(Succ(d)));
    }
  }

  /// The promise carries over from the start of the next row to the end of
  /// this one.
  lemma FirstAtRowEnd(g: Grid, d: Direction, row: int)
    requires WellFormed(g) && 0 <= row < RowLimit(d)
    requires ScanFindsFirst(g, d, row + 1, ColFirst(d))
    ensures ScanFindsFirst(g, d, row, ColLimit(d))
  {
    var w := ScanFrom(g, d, row, ColLimit(d));
    if w != Blank {
      CursorNextRow(d, row);
      FirstFromMove(g, w, d, row, ColLimit(d), d, row + 1, ColFirst(d));
    }
  }

  /// A run at the cursor is the first run met from it.
  lemma FirstAtRun(g: Grid, d: Direction, row: int, col: int)
    requires WellFormed(g) && IsStart(Start(d, row, col)) && RunAt(g, Start(d, row, col))
    ensures ScanFindsFirst(g, d, row, col)
  {
    assert FirstFrom(g, Start(d, row, col), d, row, col);
  }

  /// With no run at the cursor, the promise carries over from the next
  /// column.
  lemma FirstAtStep(g: Grid, d: Direction, row: int, col: int)
    requires WellFormed(g) && IsStart(Start(d, row, col)) && !RunAt(g, Start(d, row, col))
    requires ScanFindsFirst(g, d, row, col + 1)
    ensures ScanFindsFirst(g, d, row, col)
  {
    var w := ScanFrom(g, d, row, col);
    if w != Blank {
      var s :| FirstFrom(g, s, d, row, col + 1) && w == Owner(g, s);
      CursorNextCol(d, row, col);
      assert FirstFrom(g, s, d, row, col);
    }
  }

  /// When the scan from a cursor answers a symbol, that symbol owns the
  /// first run met from the cursor on.
  lemma {:induction false} ScanFromFirst(g: Grid, d: Direction, row: int, col: int)
    requires WellFormed(g)
    requires 0 <= row <= RowLimit(d) && ColFirst(d) <= col <= ColLimit(d)
    ensures ScanFindsFirst(g, d, row, col)
    decreases 3 - Rank(d), RowLimit(d) - row, ColLimit(d) - col
  {
    if row == RowLimit(d) {
      if d != DownLeft {
        ScanFromFirst(g, Succ(d), 0, ColFirst(Succ(d)));
        FirstAtTurn(g, d, col);
      }
    } else if col == ColLimit(d) {
      ScanFromFirst(g, d, row + 1, ColFirst(d));
      FirstAtRowEnd(g, d, row);
    } else if RunAt(g, Start(d, row, col)) {
      FirstAtRun(g, d, row, col);
    } else {
      ScanFromFirst(g, d, row, col + 1);
      FirstAtStep(g, d, row, col);
    }
  }

  /// The winner is Blank exactly when the grid holds no run; otherwise it is
  /// the owner of the first run in scan order.
  lemma WinnerIsFirstRun(g: Grid)
    requires WellFormed(g)
    ensures Winner(g) != Blank <==> HasRun(g)
    ensures Winner(g) != Blank ==> exists s :: IsFirstRun(g, s) && Winner(g) == Owner(g, s)
  {
    ScanFromBlank(g, Horizontal, 0, 0);
    ScanFromFirst(g, Horizontal, 0, 0);
    assert forall t :: NotBefore(t, Horizontal, 0, 0) <== IsStart(t);
  }

  /// A grid with no piece has no winner.
  lemma EmptyGridNoWinner()
    ensures Winner(EmptyGrid()) == Blank
  {
    WinnerIsFirstRun(EmptyGrid());
  }

  /// All runs on the grid belong to the same player.
  ghost predicate RunsAgree(g: Grid)
    requires WellFormed(g)
  {
    forall s, t :: IsStart(s) && IsStart(t) && RunAt(g, s) && RunAt(g, t) ==> Owner(g, s) == Owner(g, t)
  }

  /// When all runs agree, the scan order does not matter: any run names the
  /// winner.
  lemma WinnerOfAnyRun(g: Grid, s: Start)
    requires WellFormed(g) && RunsAgree(g) && IsStart(s) && RunAt(g, s)
    ensures Winner(g) == Owner(g, s)
  {
    WinnerIsFirstRun(g);
  }

  /// Writing p into one empty cell of a grid without runs creates only runs
  /// of p: every run through the new cell is p's, and a run not through it
  /// would have been there before.
  lemma PutMakesOnlyOwnRuns(g: Grid, r: int, c: int, p: char)
    requires WellFormed(g) && 0 <= r < Rows && 0 <= c < Cols && p != Blank
    requires !HasRun(g)
    ensures forall s :: IsStart(s) && RunAt(Put(g, r, c, p), s) ==> Owner(Put(g, r, c, p), s) == p
    ensures RunsAgree(Put(g, r, c, p))
  {
    var h := Put(g, r, c, p);
    forall s | IsStart(s) && RunAt(h, s)
      ensures Owner(h, s) == p
    {
      assert !RunAt(g, s);
    }
  }
}
