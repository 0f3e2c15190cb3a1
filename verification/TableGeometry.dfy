/** What the table layout of src/tui/table.cpp looks like on the terminal: aligned pipes, and column widths that
    share out the terminal width. */
module TableGeometry {
  import opened Ansi
  import opened Inline
  import opened Table

  // ----- shared-out widths -----

  ghost function Sum(ws: seq<nat>): nat {
    if ws == [] then 0 else Sum(ws[..|ws| - 1]) + ws[|ws| - 1]
  }

  /** The column widths before the minimum is applied. */
  ghost function Share(rows: seq<string>, c: nat, total: nat, available: nat, color: bool): nat
    requires total > 0
  {
    Content(rows, c, color) * available / total
  }

  ghost function ShareSum(rows: seq<string>, k: nat, total: nat, available: nat, color: bool): nat
    requires total > 0
  {
    if k == 0 then 0 else ShareSum(rows, k - 1, total, available, color) + Share(rows, k - 1, total, available, color)
  }

  lemma DivBounds(x: nat, d: nat)
    requires d > 0
    ensures d * (x / d) <= x < d * (x / d) + d
  {
  }

  lemma Distributes(a: int, b: int, c: int)
    ensures (a + b) * c == a * c + b * c && c * (a + b) == c * a + c * b
  {
  }

  /** Rounding down loses less than one for every column. */
  lemma {:induction false} ShareSumBounds(rows: seq<string>, k: nat, total: nat, available: nat, color: bool)
    requires total > 0
    ensures total * ShareSum(rows, k, total, available, color) <= TotalContent(rows, k, color) * available
            <= total * ShareSum(rows, k, total, available, color) + k * (total - 1)
  {
    if k > 0 {
      ShareSumBounds(rows, k - 1, total, available, color);
      var c := Content(rows, k - 1, color);
      var before, share := ShareSum(rows, k - 1, total, available, color), Share(rows, k - 1, total, available, color);
      var content := TotalContent(rows, k - 1, color);
      hide Content;
      DivBounds(c * available, total);
      Distributes(content, c, available);
      Distributes(before, share, total);
      Distributes(k - 1, 1, total - 1);
      assert TotalContent(rows, k, color) == content + c
             && ShareSum(rows, k, total, available, color) == before + share;
      hide TotalContent, ShareSum, Share;
      assert (k - 1 + 1) * (total - 1) == k * (total - 1);
    }
  }

  /** When the contents fit, the widths add up to the available width, less than one short for every column. */
  lemma WidthsFillAvailable(rows: seq<string>, termWidth: int, color: bool)
    requires NumCols(rows) > 0
    requires TotalContent(rows, NumCols(rows), color) <= Available(NumCols(rows), termWidth)
    ensures Available(NumCols(rows), termWidth) - NumCols(rows) < Sum(ColWidths(rows, termWidth, color))
            <= Available(NumCols(rows), termWidth)
  {
    hide Content, NumCols, Available;
    var n := NumCols(rows);
    var total: nat, available: nat := TotalContent(rows, n, color), Available(n, termWidth);
    var ws := ColWidths(rows, termWidth, color);
    forall c | 0 <= c < n ensures ws[c] == Share(rows, c, total, available, color) {
      ShareAtLeast(Content(rows, c, color), available, total);
    }
    SharesAreWidths(rows, ws, n, total, available, color);
    assert ws[..n] == ws;
    ShareSumBounds(rows, n, total, available, color);
    Squeeze(Sum(ws), available, total, n);
  }

  lemma ShareAtLeast(c: nat, available: nat, total: nat)
    requires 0 < total <= available
    ensures c * available / total >= c
  {
    assert c * available >= c * total by { Distributes(total, available - total, c); MulNonNeg(c, available - total); }
    DivBounds(c * available, total);
    var q := c * available / total;
    if q < c {
      Distributes(q + 1, c - (q + 1), total);
      MulNonNeg(c - (q + 1), total);
    }
  }

  lemma MulNonNeg(a: nat, b: nat)
    ensures a * b >= 0
  {
  }

  lemma Squeeze(sum: nat, available: nat, total: nat, n: nat)
    requires total > 0 && n > 0
    requires total * sum <= total * available <= total * sum + n * (total - 1)
    ensures available - n < sum <= available
  {
    if sum > available {
      Distributes(available, sum - available, total);
      MulNonNeg(sum - available - 1, total);
      Distributes(sum - available - 1, 1, total);
    }
    if sum <= available - n {
      Distributes(sum + n, available - n - sum, total);
      MulNonNeg(available - n - sum, total);
      Distributes(sum, n, total);
      Distributes(total - 1, 1, n);
    }
  }

  lemma {:induction false} SharesAreWidths(rows: seq<string>, ws: seq<nat>, k: nat, total: nat, available: nat,
                                           color: bool)
    requires total > 0 && k <= |ws| && forall c :: 0 <= c < k ==> ws[c] == Share(rows, c, total, available, color)
    ensures Sum(ws[..k]) == ShareSum(rows, k, total, available, color)
  {
    hide Share;
    if k > 0 {
      SharesAreWidths(rows, ws, k - 1, total, available, color);
      assert ws[..k][..k - 1] == ws[..k - 1];
    }
  }

  /** When the contents do not fit, every column gets exactly what its content needs. */
  lemma WidthsAreContents(rows: seq<string>, termWidth: int, color: bool, c: nat)
    requires NumCols(rows) > 0 && c < NumCols(rows)
    requires TotalContent(rows, NumCols(rows), color) > Available(NumCols(rows), termWidth)
    ensures ColWidths(rows, termWidth, color)[c] == Content(rows, c, color)
  {
    hide NumCols, Content;
    var n := NumCols(rows);
    ShareAtMost(Content(rows, c, color), Available(n, termWidth), TotalContent(rows, n, color));
  }

  lemma ShareAtMost(c: nat, available: nat, total: nat)
    requires available < total
    ensures c * available / total <= c
  {
    assert c * available <= c * total by {
      Distributes(available, total - available, c);
      MulNonNeg(c, total - available);
    }
    DivBounds(c * available, total);
    var q := c * available / total;
    if q > c {
      Distributes(c, q - c, total);
      MulNonNeg(q - c - 1, total);
      Distributes(q - c - 1, 1, total);
    }
  }

  /** When the contents fit, a column gets its share of the available width in proportion to its content, rounded
      down. */
  lemma WidthsAreProportional(rows: seq<string>, termWidth: int, color: bool, c: nat)
    requires NumCols(rows) > 0 && c < NumCols(rows)
    requires TotalContent(rows, NumCols(rows), color) <= Available(NumCols(rows), termWidth)
    ensures var n := NumCols(rows);
            var total, part := TotalContent(rows, n, color), Content(rows, c, color) * Available(n, termWidth);
            var w := ColWidths(rows, termWidth, color)[c];
            total * w <= part < total * w + total
  {
    hide NumCols, Content, Available, TotalContent;
    var n := NumCols(rows);
    var total: nat, available: nat := TotalContent(rows, n, color), Available(n, termWidth);
    ShareAtLeast(Content(rows, c, color), available, total);
    DivBounds(Content(rows, c, color) * available, total);
  }

  /** The room for the contents: what pipes and blanks leave of the terminal, but at least one column each. */
  lemma AvailableIs(n: nat, termWidth: int)
    ensures Available(n, termWidth) >= n
    ensures termWidth >= 4 * n + 1 ==> Available(n, termWidth) == termWidth - (3 * n + 1)
    ensures termWidth < 4 * n + 1 ==> Available(n, termWidth) == n
  {
  }

  /** The width of a separator line: within the terminal, and less than one column short for every column. */
  lemma SeparatorFillsTerminal(rows: seq<string>, termWidth: int, color: bool)
    requires NumCols(rows) > 0 && Available(NumCols(rows), termWidth) == termWidth - Overhead(NumCols(rows))
    requires TotalContent(rows, NumCols(rows), color) <= Available(NumCols(rows), termWidth)
    ensures var n, ws := NumCols(rows), ColWidths(rows, termWidth, color);
            termWidth - n < 1 + PipeAt(ws, n) <= termWidth
  {
    hide NumCols, ColWidths, TotalContent;
    var n, ws := NumCols(rows), ColWidths(rows, termWidth, color);
    WidthsFillAvailable(rows, termWidth, color);
    PipeAtIsSum(ws, n);
    assert ws[..n] == ws;
  }

  // ----- aligned pipes -----

  /** Where the pipe after the first `c` columns stands. */
  ghost function PipeAt(ws: seq<nat>, c: nat): nat
    requires c <= |ws|
  {
    if c == 0 then 0 else PipeAt(ws, c - 1) + ws[c - 1] + 3
  }

  lemma {:induction false} PipeAtIsSum(ws: seq<nat>, c: nat)
    requires c <= |ws|
    ensures PipeAt(ws, c) == Sum(ws[..c]) + 3 * c
  {
    if c > 0 {
      PipeAtIsSum(ws, c - 1);
      assert ws[..c][..c - 1] == ws[..c - 1];
    }
  }

  /** A line on which the pipes of the given columns stand where they belong. */
  ghost predicate Aligned(line: string, ws: seq<nat>) {
    forall c :: 0 <= c <= |ws| ==> PipeAt(ws, c) < |line| && line[PipeAt(ws, c)] == '|'
  }

  lemma {:induction false} RepeatShows(c: char, n: nat)
    requires c != ESC
    ensures Shows(Repeat(c, n), Repeat(c, n))
  {
    ShowsItself(Repeat(c, n)) by { RepeatIs(c, n); }
  }

  lemma {:induction false} RepeatIs(c: char, n: nat)
    requires c != ESC
    ensures EscapeFree(Repeat(c, n))
  {
    if n > 0 {
      RepeatIs(c, n - 1);
    }
  }

  // separators

  /** The line as built column by column from the left. */
  ghost function SeparatorTo(ws: seq<nat>, c: nat): string
    requires c <= |ws|
  {
    if c == 0 then "|" else SeparatorTo(ws, c - 1) + (Repeat('-', ws[c - 1] + 2) + "|")
  }

  lemma {:induction false} SeparatorIs(ws: seq<nat>, c: nat)
    requires c <= |ws|
    ensures "|" + SeparatorFrom(ws, 0) == SeparatorTo(ws, c) + SeparatorFrom(ws, c)
  {
    hide Repeat;
    if c > 0 {
      SeparatorIs(ws, c - 1);
      var cell := Repeat('-', ws[c - 1] + 2) + "|";
      assert SeparatorTo(ws, c - 1) + (cell + SeparatorFrom(ws, c))
             == (SeparatorTo(ws, c - 1) + cell) + SeparatorFrom(ws, c);
    }
  }

  lemma {:induction false} SeparatorPipes(ws: seq<nat>, c: nat, k: nat)
    requires k <= c <= |ws|
    ensures |SeparatorTo(ws, c)| == PipeAt(ws, c) + 1
    ensures PipeAt(ws, k) <= PipeAt(ws, c) && SeparatorTo(ws, c)[PipeAt(ws, k)] == '|'
    ensures EscapeFree(SeparatorTo(ws, c))
  {
    if c > 0 {
      RepeatIs('-', ws[c - 1] + 2);
      hide Repeat;
      SeparatorPipes(ws, c - 1, if k < c then k else 0);
    }
  }

  lemma SeparatorLine(ws: seq<nat>) returns (line: string)
    ensures line == "|" + SeparatorFrom(ws, 0) && EscapeFree(line)
    ensures Aligned(line, ws) && |line| == PipeAt(ws, |ws|) + 1 && DashesIn(line, ws)
  {
    var n := |ws|;
    line := "|" + SeparatorFrom(ws, 0);
    SeparatorIs(ws, n);
    hide SeparatorTo, PipeAt, Repeat;
    assert line == SeparatorTo(ws, n) + "" == SeparatorTo(ws, n);
    forall c | 0 <= c <= n ensures PipeAt(ws, c) < |line| && line[PipeAt(ws, c)] == '|' {
      SeparatorPipes(ws, n, c);
    }
    SeparatorPipes(ws, n, n);
    forall c: nat | c < n ensures AllDashes(line, PipeAt(ws, c), PipeAt(ws, c + 1)) {
      forall i: nat | PipeAt(ws, c) < i < PipeAt(ws, c + 1) ensures i < |line| && line[i] == '-' {
        SeparatorDashes(ws, n, c, i);
      }
    }
  }

  ghost predicate AllDashes(line: string, a: nat, b: nat) {
    forall i: nat :: a < i < b ==> i < |line| && line[i] == '-'
  }

  /** Between the pipes there are dashes only. */
  ghost predicate DashesIn(line: string, ws: seq<nat>) {
    forall c: nat :: c < |ws| ==> AllDashes(line, PipeAt(ws, c), PipeAt(ws, c + 1))
  }

  lemma {:induction false} SeparatorDashes(ws: seq<nat>, c: nat, k: nat, i: nat)
    requires k < c <= |ws| && PipeAt(ws, k) < i < PipeAt(ws, k + 1)
    ensures i < |SeparatorTo(ws, c)| && SeparatorTo(ws, c)[i] == '-'
  {
    SeparatorPipes(ws, c - 1, 0);
    hide Repeat;
    if k < c - 1 {
      SeparatorDashes(ws, c - 1, k, i);
    } else {
      RepeatAll('-', ws[c - 1] + 2);
    }
  }

  lemma {:induction false} RepeatAll(c: char, n: nat)
    ensures forall i :: 0 <= i < n ==> Repeat(c, n)[i] == c
  {
    if n > 0 {
      RepeatAll(c, n - 1);
    }
  }

  /** A separator line shows a line with aligned pipes, one column wider than its last pipe. */
  lemma SeparatorIsAligned(ws: seq<nat>, color: bool) returns (line: string)
    ensures Shows(Separator(ws, color), line + "\n") && Aligned(line, ws) && |line| == PipeAt(ws, |ws|) + 1
    ensures DashesIn(line, ws)
  {
    line := SeparatorLine(ws);
    Codes();
    ShowsItself("\n");
    ShowsItself(line);
    ShowsStyled(DIM, line);
    hide SeparatorFrom, Shows, Aligned, PipeAt, DashesIn;
    ShowsConcat(line, line, "\n", "\n");
    ShowsConcat(DIM + line + RESET, line, "\n", "\n");
  }

  // data rows

  /** A cell that holds no link and no escape sequence and fits its column. */
  ghost predicate Fits(cell: string, w: nat, color: bool) {
    EscapeFree(cell) && (color ==> Links(cell) == 0) && Width(cell, color) <= w
  }

  ghost function CellAt(cells: seq<string>, c: nat): string {
    if c < |cells| then cells[c] else ""
  }

  /** What a terminal shows of a cell. */
  ghost function CellText(cell: string, color: bool): string {
    if color then StripAnsi(RenderInline(cell, true)) else cell
  }

  ghost function Blanks(n: int): string {
    if n <= 0 then "" else Blanks(n - 1) + " "
  }

  /** The text of a cell, and blanks up to the width of the column. */
  ghost function Padded(cell: string, w: nat, color: bool): string {
    CellText(cell, color) + Blanks(w - |CellText(cell, color)|)
  }

  lemma {:induction false} BlanksRepeat(n: nat)
    ensures Blanks(n) == Repeat(' ', n)
    ensures Repeat(' ', n) + " " == " " + Repeat(' ', n)
  {
    if n > 0 {
      BlanksRepeat(n - 1);
      assert Repeat(' ', n) == " " + Repeat(' ', n - 1);
    }
  }

  lemma CellShows(cell: string, w: nat, color: bool) returns (text: string)
    requires Fits(cell, w, color)
    ensures Shows(PaddedCell(cell, w, color), text + " | ") && |text| == w && EscapeFree(text)
    ensures text == Padded(cell, w, color)
  {
    var inner := RenderInline(cell, color);
    if color {
      VisibleLengthIsShownLength(cell);
      ShowsEscapeFree(inner);
    } else {
      ShowsItself(cell);
    }
    var shown := StripAnsi(inner);
    var pad := w - Width(cell, color);
    text := shown + Repeat(' ', pad);
    BlanksRepeat(pad);
    RepeatShows(' ', pad);
    RepeatIs(' ', pad);
    ShowsItself(" | ");
    assert CellText(cell, color) == shown && |shown| == Width(cell, color);
    hide Shows, RenderInline, Width, Repeat, StripAnsi, CellText;
    ShowsConcat(inner, shown, Repeat(' ', pad), Repeat(' ', pad));
    ShowsConcat(inner + Repeat(' ', pad), text, " | ", " | ");
  }

  lemma {:induction false} ShowsEscapeFree(s: string)
    ensures EscapeFree(StripAnsi(s))
  {
    VisibleEscapeFree(s, false);
  }

  lemma {:induction false} VisibleEscapeFree(s: string, inEscape: bool)
    ensures EscapeFree(Visible(s, inEscape))
  {
    if s != "" {
      VisibleEscapeFree(s[1..], if s[0] == ESC then true else inEscape && !IsLetter(s[0]));
    }
  }

  /** The first pipes of a row are in their places, and the row ends just behind the last of them. */
  ghost predicate RowSoFar(ws: seq<nat>, c: nat, row: string)
    requires c <= |ws|
  {
    && |row| == PipeAt(ws, c) + 2 && row[|row| - 1] == ' '
    && forall k :: 0 <= k <= c ==> PipeAt(ws, k) < |row| && row[PipeAt(ws, k)] == '|'
  }

  lemma NextCell(ws: seq<nat>, c: nat, before: string, text: string)
    requires c < |ws| && |text| == ws[c] && RowSoFar(ws, c, before)
    ensures RowSoFar(ws, c + 1, before + (text + " | "))
  {
    var next := before + (text + " | ");
    assert next[PipeAt(ws, c + 1)] == '|';
    forall k | 0 <= k <= c + 1 ensures PipeAt(ws, k) < |next| && next[PipeAt(ws, k)] == '|' {
      if k <= c {
        assert next[PipeAt(ws, k)] == before[PipeAt(ws, k)];
      }
    }
  }

  /** Between the first pipes stand the texts of the cells. */
  ghost predicate CellsIn(row: string, cells: seq<string>, ws: seq<nat>, c: nat, color: bool)
    requires c <= |ws|
  {
    forall k :: 0 <= k < c ==> CellIn(row, CellAt(cells, k), ws, k, color)
  }

  /** Between its pipes a cell stands with a blank on both sides, and a blank follows the second pipe. */
  ghost predicate CellIn(row: string, cell: string, ws: seq<nat>, k: nat, color: bool)
    requires k < |ws|
  {
    var a, b := PipeAt(ws, k), PipeAt(ws, k + 1);
    && b + 2 <= |row| && row[a + 1] == row[b - 1] == row[b + 1] == ' '
    && row[a + 2..b - 1] == Padded(cell, ws[k], color)
  }

  lemma CellAdded(ws: seq<nat>, c: nat, before: string, cells: seq<string>, color: bool)
    requires c < |ws| && RowSoFar(ws, c, before) && CellsIn(before, cells, ws, c, color)
    requires |Padded(CellAt(cells, c), ws[c], color)| == ws[c]
    ensures CellsIn(before + (Padded(CellAt(cells, c), ws[c], color) + " | "), cells, ws, c + 1, color)
  {
    hide Padded, CellAt;
    var text := Padded(CellAt(cells, c), ws[c], color);
    var next := before + (text + " | ");
    assert RowSoFar(ws, c + 1, next) by { NextCell(ws, c, before, text); }
    forall k: nat | k < c + 1 ensures CellIn(next, CellAt(cells, k), ws, k, color) {
      if k < c {
        assert CellIn(before, CellAt(cells, k), ws, k, color);
        CellStays(before, text + " | ", CellAt(cells, k), ws, k, color);
      } else {
        assert next[PipeAt(ws, c) + 2..PipeAt(ws, c + 1) - 1] == text;
      }
    }
  }

  lemma CellStays(before: string, more: string, cell: string, ws: seq<nat>, k: nat, color: bool)
    requires k < |ws| && CellIn(before, cell, ws, k, color)
    ensures CellIn(before + more, cell, ws, k, color)
  {
    hide Padded;
    var i, j := PipeAt(ws, k) + 2, PipeAt(ws, k + 1) - 1;
    assert (before + more)[i..j] == before[i..j];
  }

  lemma WholeRow(ws: seq<nat>, row: string)
    requires RowSoFar(ws, |ws|, row)
    ensures Aligned(row, ws) && |row| == PipeAt(ws, |ws|) + 2
  {
  }

  lemma DataUnfold(cells: seq<string>, ws: seq<nat>, c: nat, color: bool)
    requires c <= |ws|
    ensures c == |ws| ==> DataFrom(cells, ws, c, color) == ""
    ensures c < |ws| ==> DataFrom(cells, ws, c, color)
                         == PaddedCell(CellAt(cells, c), ws[c], color) + DataFrom(cells, ws, c + 1, color)
  {
    hide PaddedCell;
  }

  lemma EscapeFreeAppend(before: string, text: string)
    requires EscapeFree(before) && EscapeFree(text)
    ensures EscapeFree(before + (text + " | "))
  {
  }

  lemma PrefixSplit(before: string, cell: string, line: string)
    requires before + cell <= line
    ensures before <= line && line[|before|..] == cell + line[|before + cell|..]
  {
  }

  lemma {:induction false} DataShows(cells: seq<string>, ws: seq<nat>, c: nat, color: bool, before: string)
    returns (line: string)
    requires c <= |ws| && forall k :: 0 <= k < |ws| ==> Fits(CellAt(cells, k), ws[k], color)
    requires RowSoFar(ws, c, before) && EscapeFree(before) && CellsIn(before, cells, ws, c, color)
    ensures CellsIn(line, cells, ws, |ws|, color)
    ensures EscapeFree(line) && before <= line && Shows(DataFrom(cells, ws, c, color), line[|before|..])
    ensures Aligned(line, ws) && |line| == PipeAt(ws, |ws|) + 2
    decreases |ws| - c
  {
    hide *;
    DataUnfold(cells, ws, c, color);
    if c == |ws| {
      line := before;
      ShowsItself("");
      assert line[|before|..] == "";
      WholeRow(ws, line);
    } else {
      var text := CellShows(CellAt(cells, c), ws[c], color);
      var next := before + (text + " | ");
      NextCell(ws, c, before, text);
      CellAdded(ws, c, before, cells, color);
      EscapeFreeAppend(before, text);
      line := DataShows(cells, ws, c + 1, color, next);
      ShowsConcat(PaddedCell(CellAt(cells, c), ws[c], color), text + " | ",
                  DataFrom(cells, ws, c + 1, color), line[|next|..]);
      PrefixSplit(before, text + " | ", line);
    }
  }

  /** A data row whose cells fit shows a line with aligned pipes, one column longer than a separator. */
  lemma DataRowIsAligned(cells: seq<string>, ws: seq<nat>, color: bool) returns (line: string)
    requires forall k :: 0 <= k < |ws| ==> Fits(CellAt(cells, k), ws[k], color)
    ensures Shows(DataRow(cells, ws, color) + "\n", line + "\n") && Aligned(line, ws) && |line| == PipeAt(ws, |ws|) + 2
    ensures CellsIn(line, cells, ws, |ws|, color)
  {
    assert RowSoFar(ws, 0, "| ") && CellsIn("| ", cells, ws, 0, color);
    line := DataShows(cells, ws, 0, color, "| ");
    ShowsItself("| ");
    ShowsItself("\n");
    hide Shows, Aligned, Fits, PipeAt, DataFrom, CellsIn;
    assert "| " + line[2..] == line;
    ShowsConcat("| ", "| ", DataFrom(cells, ws, 0, color), line[2..]);
    ShowsConcat(DataRow(cells, ws, color), line, "\n", "\n");
  }

  // ----- whole tables -----

  /** Every cell of a table fits its column. */
  lemma {:induction false} CellFits(rows: seq<string>, r: nat, c: nat, color: bool)
    requires r < |rows| && c < |Cells(rows[r])|
    ensures Width(Cells(rows[r])[c], color) <= MaxWidth(rows, c, color)
  {
    hide Cells, Width;
    if r > 0 {
      CellFits(rows[1..], r - 1, c, color);
    }
  }

  /** The rows of a table: no escape sequence, and no link where links are rendered. */
  ghost predicate PlainTable(rows: seq<string>, color: bool) {
    forall r, c :: 0 <= r < |rows| && 0 <= c < |Cells(rows[r])| ==>
      EscapeFree(Cells(rows[r])[c]) && (color ==> Links(Cells(rows[r])[c]) == 0)
  }

  lemma EmptyCell(color: bool)
    ensures Fits("", 0, color)
  {
  }

  /** In every line of a table, separator or data, the pipes stand at the same places; data lines are one column
      longer than separators. Between the pipes of a separator are dashes, between those of a data row the texts of
      its cells, filled up with blanks. */
  lemma TableIsAligned(rows: seq<string>, r: nat, termWidth: int, color: bool) returns (line: string)
    requires NumCols(rows) > 0 && r < |rows| && PlainTable(rows, color)
    ensures var ws := ColWidths(rows, termWidth, color);
            && Shows(RowText(rows[r], ws, color), line + "\n") && Aligned(line, ws)
            && |line| == PipeAt(ws, |ws|) + (if IsTableSeparator(rows[r]) then 1 else 2)
            && if IsTableSeparator(rows[r]) then DashesIn(line, ws) else CellsIn(line, Cells(rows[r]), ws, |ws|, color)
  {
    var ws := ColWidths(rows, termWidth, color);
    if IsTableSeparator(rows[r]) {
      line := SeparatorIsAligned(ws, color);
    } else {
      hide Shows, Aligned, IsTableSeparator, Cells, NumCols, Width, EscapeFree, Links;
      forall k | 0 <= k < |ws| ensures Fits(CellAt(Cells(rows[r]), k), ws[k], color) {
        if k < |Cells(rows[r])| {
          CellFits(rows, r, k, color);
        } else {
          EmptyCell(color);
        }
      }
      hide Fits, CellsIn;
      line := DataRowIsAligned(Cells(rows[r]), ws, color);
    }
  }
}
