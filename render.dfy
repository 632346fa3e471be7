/// The text picture of a grid: a header naming the columns 0 to 6, one line
/// per row with every cell framed by `|`, and a closing divider. Every line
/// is sixteen characters long, newline included.
module Render {
  import opened Board

  const Header: string := " 0 1 2 3 4 5 6 \n"
  const Divider: string := "---------------\n"
  const LineLength: int := 16

  /// Each cell followed by a `|`.
  function CellsText(row: seq<char>): string {
    if row == [] then "" else CellsText(row[..|row| - 1]) + [row[|row| - 1], '|']
  }

  /// One board line: a leading `|`, the framed cells and a newline.
  function RowText(row: seq<char>): string {
    "|" + CellsText(row) + "\n"
  }

  /// The lines of the given rows, top row first.
  function RowsText(g: Grid): string {
    if g == [] then "" else RowsText(g[..|g| - 1]) + RowText(g[|g| - 1])
  }

  /// The whole picture: eight lines of sixteen characters, the column
  /// header first and the divider last.
  function Render(g: Grid): (text: string)
    requires WellFormed(g)
    ensures |text| == LineLength * (Rows + 2)
    ensures text[..LineLength] == Header && text[|text| - LineLength..] == Divider
  {
    RowsTextAt(g);
    Header + RowsText(g) + Divider
  }

  lemma {:induction false} CellsTextAt(row: seq<char>)
    ensures |CellsText(row)| == 2 * |row|
    ensures forall c :: 0 <= c < |row| ==> CellsText(row)[2 * c] == row[c] && CellsText(row)[2 * c + 1] == '|'
  {
    if row != [] {
      CellsTextAt(row[..|row| - 1]);
    }
  }

  lemma {:induction false} RowsTextAt(g: Grid)
    requires RowsOfWidth(g)
    ensures |RowsText(g)| == LineLength * |g|
    ensures forall r, c :: 0 <= r < |g| && 0 <= c < Cols ==> RowsText(g)[LineLength * r + 1 + 2 * c] == g[r][c]
  {
    if g != [] {
      var init := g[..|g| - 1];
      RowsTextAt(init);
      CellsTextAt(g[|g| - 1]);
      forall r, c | 0 <= r < |g| && 0 <= c < Cols
        ensures RowsText(g)[LineLength * r + 1 + 2 * c] == g[r][c]
      {
        if r < |g| - 1 {
          assert init[r] == g[r];
        }
      }
    }
  }

  /// The picture has eight lines of sixteen characters, and cell (r, c)
  /// appears on line r + 1 (after the header) at position 1 + 2c.
  lemma RenderShowsCells(g: Grid)
    requires WellFormed(g)
    ensures |Render(g)| == LineLength * (Rows + 2)
    ensures forall r, c :: 0 <= r < Rows && 0 <= c < Cols ==> Render(g)[LineLength * (r + 1) + 1 + 2 * c] == g[r][c]
  {
    RowsTextAt(g);
    var body := RowsText(g);
    assert Render(g) == Header + body + Divider;
    forall r, c | 0 <= r < Rows && 0 <= c < Cols
      ensures Render(g)[LineLength * (r + 1) + 1 + 2 * c] == g[r][c]
    {
      assert Render(g)[LineLength * (r + 1) + 1 + 2 * c] == body[LineLength * r + 1 + 2 * c];
    }
  }

  /// Distinct grids have distinct pictures: the picture can be read back.
  lemma RenderInjective(g: Grid, h: Grid)
    requires WellFormed(g) && WellFormed(h) && Render(g) == Render(h)
    ensures g == h
  {
    RenderShowsCells(g);
    RenderShowsCells(h);
    forall r | 0 <= r < Rows
      ensures g[r] == h[r]
    {
      assert forall c :: 0 <= c < Cols ==> g[r][c] == Render(g)[LineLength * (r + 1) + 1 + 2 * c];
    }
  }
}
