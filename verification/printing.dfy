/** The TEXT mode of the sheet's printer: the printable box written row by
    row, fields separated by tabs, each row ended by a newline. */
module Printing {
  import opened Common
  import opened Cells
  import opened Spreadsheet

  /** A count of rows or columns, with a negative one read as zero, as the
      printer's loops do. */
  function Extent(n: int): nat {
    if n < 0 then 0 else n
  }

  /** What is printed for one position: the text of a non-empty cell,
      nothing for a missing or empty one. */
  function Field(cells: CellMap, row: int, col: int): string {
    match NonEmptyAt(cells, Position(row, col))
    case Some(c) => c.text
    case None => ""
  }

  /** The fields of the printable box, row by row. */
  function Grid(cells: CellMap, size: Size): (g: seq<seq<string>>)
    ensures |g| == Extent(size.rows)
    ensures forall i :: 0 <= i < |g| ==> |g[i]| == Extent(size.cols)
    ensures forall i, j :: 0 <= i < |g| && 0 <= j < |g[i]| ==> g[i][j] == Field(cells, i, j)
  {
    seq(Extent(size.rows), i => seq(Extent(size.cols), j => Field(cells, i, j)))
  }

  /** Fields joined by tabs, with no tab after the last. */
  function JoinTabs(fields: seq<string>): string {
    if |fields| == 0 then ""
    else if |fields| == 1 then fields[0]
    else JoinTabs(fields[..|fields| - 1]) + "\t" + fields[|fields| - 1]
  }

  /** Each row joined by tabs and ended by a newline. */
  function Render(grid: seq<seq<string>>): string {
    if grid == [] then ""
    else Render(grid[..|grid| - 1]) + JoinTabs(grid[|grid| - 1]) + "\n"
  }

  /** The sheet's PrintTexts: for every row of the printable box, for every
      column, the field, then a tab unless it is the last column; then a
      newline. */
  method PrintTexts(s: Sheet) returns (out: string)
    requires PrintBoxInGrid(s)
    ensures out == Render(Grid(s.cells, GetPrintableSize(s)))
  {
    var size := GetPrintableSize(s);
    ghost var grid := Grid(s.cells, size);
    out := "";
    var row := 0;
    while row < size.rows
      invariant 0 <= row <= |grid|
      invariant out == Render(grid[..row])
    {
      var line := PrintRow(s, row, size.cols);
      assert line == JoinTabs(grid[row]);
      out := out + line + "\n";
      assert grid[..row + 1][..row] == grid[..row];
      row := row + 1;
    }
    assert grid[..row] == grid;
  }

  /** One printed row without its newline: the fields of columns 0 to
      cols - 1 separated by tabs. */
  method PrintRow(s: Sheet, row: int, cols: int) returns (line: string)
    ensures line == JoinTabs(seq(Extent(cols), j => Field(s.cells, row, j)))
  {
    ghost var fields := seq(Extent(cols), j => Field(s.cells, row, j));
    line := "";
    var col := 0;
    while col < cols
      invariant 0 <= col <= |fields|
      invariant line == JoinTabs(fields[..col]) + (if 0 < col < cols then "\t" else "")
    {
      var cell := NonEmptyAt(s.cells, Position(row, col));
      if cell.Some? {
        line := line + cell.value.text;
      }
      JoinTabsSnoc(fields, col);
      if col + 1 != cols {
        line := line + "\t";
      }
      col := col + 1;
    }
    assert fields[..col] == fields;
  }

  /** The pieces so far, extended by one more character: a separator opens
      a new, empty piece, any other character ends the last piece. */
  function AddChar(pieces: seq<string>, c: char, sep: char): (r: seq<string>)
    requires |pieces| >= 1
    ensures |r| >= 1
  {
    if c == sep then pieces + [""]
    else pieces[..|pieces| - 1] + [pieces[|pieces| - 1] + [c]]
  }

  /** Joining one more field adds a tab (unless it is the first) and the
      field. */
  lemma JoinTabsSnoc(fields: seq<string>, k: nat)
    requires k < |fields|
    ensures JoinTabs(fields[..k + 1]) == JoinTabs(fields[..k]) + (if k > 0 then "\t" else "") + fields[k]
  {
    assert fields[..k + 1][..k] == fields[..k];
  }

  /** Splits s at every sep; there is always one more piece than separators. */
  function Split(s: string, sep: char): (r: seq<string>)
    ensures |r| >= 1
  {
    if s == [] then [""]
    else AddChar(Split(s[..|s| - 1], sep), s[|s| - 1], sep)
  }

  lemma AddCharAfter(front: seq<string>, back: seq<string>, c: char, sep: char)
    requires |back| >= 1
    ensures AddChar(front + back, c, sep) == front + AddChar(back, c, sep)
  {
    if c != sep {
      assert (front + back)[..|front + back| - 1] == front + back[..|back| - 1];
    }
  }

  /** Reads printed text back: newline-ended lines, each split at tabs. */
  function ParseTexts(out: string): seq<seq<string>> {
    var lines := Split(out, '\n');
    seq(|lines| - 1, i requires 0 <= i < |lines| - 1 => Split(lines[i], '\t'))
  }

  lemma {:induction false} SplitPlain(s: string, sep: char)
    requires sep !in s
    ensures Split(s, sep) == [s]
  {
    if s != [] {
      SplitPlain(s[..|s| - 1], sep);
      assert s[..|s| - 1] + [s[|s| - 1]] == s;
    }
  }

  /** Splitting at a separator splits each side on its own. */
  lemma {:induction false} SplitAt(x: string, y: string, sep: char)
    ensures Split(x + [sep] + y, sep) == Split(x, sep) + Split(y, sep)
    decreases |y|
  {
    var whole := x + [sep] + y;
    if y == [] {
      assert whole[..|whole| - 1] == x;
      assert Split(y, sep) == [""];
    } else {
      var y' := y[..|y| - 1];
      var c := y[|y| - 1];
      assert whole[..|whole| - 1] == x + [sep] + y';
      assert whole[|whole| - 1] == c;
      calc {
        Split(whole, sep);
        AddChar(Split(x + [sep] + y', sep), c, sep);
        { SplitAt(x, y', sep); }
        AddChar(Split(x, sep) + Split(y', sep), c, sep);
        { AddCharAfter(Split(x, sep), Split(y', sep), c, sep); }
        Split(x, sep) + AddChar(Split(y', sep), c, sep);
        Split(x, sep) + Split(y, sep);
      }
    }
  }

  lemma {:induction false} JoinTabsPlain(fields: seq<string>, c: char)
    requires c != '\t'
    requires forall i :: 0 <= i < |fields| ==> c !in fields[i]
    ensures c !in JoinTabs(fields)
  {
    if |fields| > 1 {
      JoinTabsPlain(fields[..|fields| - 1], c);
    }
  }

  /** Fields without tabs come back from their tab-joined line. */
  lemma {:induction false} JoinTabsRoundTrip(fields: seq<string>)
    requires |fields| >= 1
    requires forall i :: 0 <= i < |fields| ==> '\t' !in fields[i]
    ensures Split(JoinTabs(fields), '\t') == fields
  {
    if |fields| == 1 {
      SplitPlain(fields[0], '\t');
    } else {
      var front := fields[..|fields| - 1];
      JoinTabsRoundTrip(front);
      SplitAt(JoinTabs(front), fields[|fields| - 1], '\t');
      SplitPlain(fields[|fields| - 1], '\t');
      assert JoinTabs(fields) == JoinTabs(front) + ['\t'] + fields[|fields| - 1];
    }
  }

  /** No field of the row holds a tab or a newline. */
  ghost predicate PlainRow(fields: seq<string>) {
    forall j :: 0 <= j < |fields| ==> '\t' !in fields[j] && '\n' !in fields[j]
  }

  /** No field of the grid holds a tab or a newline. */
  ghost predicate PlainGrid(grid: seq<seq<string>>) {
    forall i :: 0 <= i < |grid| ==> PlainRow(grid[i])
  }

  /** The printed lines of the grid, newlines left off. */
  function RowLines(grid: seq<seq<string>>): (r: seq<string>)
    ensures |r| == |grid|
    ensures forall i :: 0 <= i < |grid| ==> r[i] == JoinTabs(grid[i])
  {
    if grid == [] then []
    else RowLines(grid[..|grid| - 1]) + [JoinTabs(grid[|grid| - 1])]
  }

  /** Printed rows, followed by a line without newline, split back into the
      rows' lines plus that last line. */
  lemma {:induction false} RenderLines(grid: seq<seq<string>>, last: string)
    requires PlainGrid(grid) && '\n' !in last
    ensures Split(Render(grid) + last, '\n') == RowLines(grid) + [last]
  {
    if grid == [] {
      SplitPlain(last, '\n');
      assert Render(grid) + last == last;
    } else {
      var front := grid[..|grid| - 1];
      var line := JoinTabs(grid[|grid| - 1]);
      assert PlainGrid(front) by {
        forall i | 0 <= i < |front|
          ensures PlainRow(front[i])
        {
          assert front[i] == grid[i];
        }
      }
      JoinTabsPlain(grid[|grid| - 1], '\n');
      calc {
        Split(Render(grid) + last, '\n');
        { assert Render(grid) + last == (Render(front) + line) + ['\n'] + last; }
        Split((Render(front) + line) + ['\n'] + last, '\n');
        { SplitAt(Render(front) + line, last, '\n'); }
        Split(Render(front) + line, '\n') + Split(last, '\n');
        { RenderLines(front, line); SplitPlain(last, '\n'); }
        RowLines(front) + [line] + [last];
      }
    }
  }

  /** When no printed text holds a tab or a newline and every row has at
      least one column, the printed text reads back as the grid: one line
      per row, one field per column, in order. */
  lemma PrintRoundTrip(grid: seq<seq<string>>)
    requires PlainGrid(grid)
    requires forall i :: 0 <= i < |grid| ==> |grid[i]| >= 1
    ensures ParseTexts(Render(grid)) == grid
  {
    RenderLines(grid, "");
    assert Render(grid) + "" == Render(grid);
    var lines := RowLines(grid) + [""];
    forall i | 0 <= i < |grid|
      ensures Split(lines[i], '\t') == grid[i]
    {
      assert PlainRow(grid[i]);
      JoinTabsRoundTrip(grid[i]);
    }
  }

  /** The printed sheet reads back as its printable box: rows lines, cols
      fields each, the text of each non-empty cell in its place and an empty
      field for every other position. */
  lemma PrintTextsReadsBack(s: Sheet)
    requires s.printSize.cols >= 1 || s.printSize.rows <= 0
    requires forall p :: p in s.cells && !IsEmpty(s.cells[p]) ==> '\t' !in s.cells[p].text && '\n' !in s.cells[p].text
    ensures var back := ParseTexts(Render(Grid(s.cells, GetPrintableSize(s))));
            && |back| == Extent(s.printSize.rows)
            && (forall i :: 0 <= i < |back| ==> |back[i]| == Extent(s.printSize.cols))
            && (forall i, j :: 0 <= i < |back| && 0 <= j < |back[i]| ==> back[i][j] == Field(s.cells, i, j))
  {
    var grid := Grid(s.cells, GetPrintableSize(s));
    assert PlainGrid(grid);
    PrintRoundTrip(grid);
  }

  /** A 2 by 2 sheet holding "1", "2", "3", "4" prints as "1\t2\n3\t4\n". */
  lemma PrintExample()
    ensures var cells := map[Position(0, 0) := Cell("1", [], None, {}), Position(0, 1) := Cell("2", [], None, {}),
                             Position(1, 0) := Cell("3", [], None, {}), Position(1, 1) := Cell("4", [], None, {})];
            Render(Grid(cells, Size(2, 2))) == "1\t2\n3\t4\n"
  {
    var cells := map[Position(0, 0) := Cell("1", [], None, {}), Position(0, 1) := Cell("2", [], None, {}),
                     Position(1, 0) := Cell("3", [], None, {}), Position(1, 1) := Cell("4", [], None, {})];
    var grid := Grid(cells, Size(2, 2));
    assert grid[0][0] == "1" && grid[0][1] == "2" && grid[1][0] == "3" && grid[1][1] == "4";
    assert grid[0] == ["1", "2"] && grid[1] == ["3", "4"];
    assert grid == [["1", "2"], ["3", "4"]];
    assert grid[..1] == [["1", "2"]];
    assert grid[..1][..0] == [];
    assert [["1", "2"]][0][..1] == ["1"];
    assert [["3", "4"]][0][..1] == ["3"];
  }
}
