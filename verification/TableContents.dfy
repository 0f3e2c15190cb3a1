/** What a table of src/tui/table.cpp shows, cell by cell, and how its cells are read from the lines. */
module TableContents {
  import opened Ansi
  import opened Inline
  import opened Table
  import opened TableGeometry
  import Text

  // ----- what a table shows, links included -----

  /** The text of a cell and its padding. The layout does not count one column of every link. */
  ghost function Filled(cell: string, w: nat, color: bool): string {
    CellText(cell, color) + Blanks(w - |CellText(cell, color)| + if color then Links(cell) else 0)
  }

  /** A data row up to its pipe number `c`, and the blank behind it. */
  ghost function RowLine(cells: seq<string>, ws: seq<nat>, c: nat, color: bool): string
    requires c <= |ws|
  {
    if c == 0 then "| " else RowLine(cells, ws, c - 1, color) + (Filled(CellAt(cells, c - 1), ws[c - 1], color) + " | ")
  }

  ghost function SeparatorText(ws: seq<nat>, c: nat): string
    requires c <= |ws|
  {
    if c == 0 then "|" else SeparatorText(ws, c - 1) + (Dashes(ws[c - 1] + 2) + "|")
  }

  ghost function Dashes(n: nat): string {
    if n == 0 then "" else Dashes(n - 1) + "-"
  }

  /** A row of pipes, dashes, colons and blanks. */
  ghost predicate IsRuler(row: string) {
    row != "" && row[0] == '|' && forall k :: 0 <= k < |row| ==> row[k] in "|-: "
  }

  lemma RulerIs(row: string)
    ensures IsTableSeparator(row) <==> IsRuler(row)
  {
  }

  ghost function LineOf(row: string, ws: seq<nat>, color: bool): string {
    if IsRuler(row) then SeparatorText(ws, |ws|) else RowLine(Cells(row), ws, |ws|, color)
  }

  ghost function LinesOf(rows: seq<string>, ws: seq<nat>, color: bool): string {
    if rows == [] then "" else LineOf(rows[0], ws, color) + "\n" + LinesOf(rows[1..], ws, color)
  }

  lemma {:induction false} BlanksOfNone(n: int)
    ensures n <= 0 ==> Blanks(n) == ""
  {
  }

  lemma FilledShows(cell: string, w: nat, color: bool)
    requires EscapeFree(cell)
    ensures Shows(PaddedCell(cell, w, color), Filled(cell, w, color) + " | ")
  {
    var inner := RenderInline(cell, color);
    if color {
      VisibleLengthIsShownLength(cell);
    } else {
      ShowsItself(cell);
    }
    var shown, vis := CellText(cell, color), Width(cell, color);
    var pad: nat := if vis < w then w - vis else 0;
    assert Shows(inner, shown);
    BlanksRepeat(pad);
    BlanksOfNone(w - vis);
    RepeatShows(' ', pad);
    ShowsItself(" | ");
    assert w - |shown| + (if color then Links(cell) else 0) == w - vis;
    hide Shows, RenderInline, Width, Repeat, CellText, Blanks, VisibleLength, Links;
    ShowsConcat(inner, shown, Repeat(' ', pad), Repeat(' ', pad));
    ShowsConcat(inner + Repeat(' ', pad), shown + Repeat(' ', pad), " | ", " | ");
  }

  ghost predicate CellsEscapeFree(cells: seq<string>) {
    forall k :: 0 <= k < |cells| ==> EscapeFree(cells[k])
  }

  /** The rest of the row, from column `c` on, completes what stands before it. */
  lemma {:induction false} DataShowsFilled(cells: seq<string>, ws: seq<nat>, c: nat, color: bool, out: string)
    requires c <= |ws| && CellsEscapeFree(cells) && Shows(out, RowLine(cells, ws, c, color))
    ensures Shows(out + DataFrom(cells, ws, c, color), RowLine(cells, ws, |ws|, color))
    decreases |ws| - c
  {
    hide Shows, Filled, PaddedCell, EscapeFree;
    DataUnfold(cells, ws, c, color);
    if c == |ws| {
      assert out + "" == out;
    } else {
      var cell, line := CellAt(cells, c), RowLine(cells, ws, c, color);
      EmptyIsFree();
      FilledShows(cell, ws[c], color);
      ShowsConcat(out, line, PaddedCell(cell, ws[c], color), Filled(cell, ws[c], color) + " | ");
      DataShowsFilled(cells, ws, c + 1, color, out + PaddedCell(cell, ws[c], color));
      assert out + PaddedCell(cell, ws[c], color) + DataFrom(cells, ws, c + 1, color)
          == out + (PaddedCell(cell, ws[c], color) + DataFrom(cells, ws, c + 1, color));
    }
  }

  lemma EmptyIsFree()
    ensures EscapeFree("")
  {
  }

  lemma {:induction false} SeparatorTextIs(ws: seq<nat>, c: nat)
    requires c <= |ws|
    ensures SeparatorText(ws, c) == SeparatorTo(ws, c)
  {
    hide Repeat;
    if c > 0 {
      SeparatorTextIs(ws, c - 1);
      DashesRepeat(ws[c - 1] + 2);
    }
  }

  lemma {:induction false} DashesRepeat(n: nat)
    ensures Dashes(n) == Repeat('-', n)
    ensures Repeat('-', n) + "-" == "-" + Repeat('-', n)
  {
    if n > 0 {
      DashesRepeat(n - 1);
      assert Repeat('-', n) == "-" + Repeat('-', n - 1);
    }
  }

  lemma RowShows(row: string, ws: seq<nat>, color: bool)
    requires CellsEscapeFree(Cells(row))
    ensures Shows(RowText(row, ws, color), LineOf(row, ws, color) + "\n")
  {
    hide Shows, Cells, IsTableSeparator, IsRuler, CellsEscapeFree, RowLine, DataFrom;
    RulerIs(row);
    if IsTableSeparator(row) {
      var line := SeparatorIsAligned(ws, color);
      SeparatorShows(ws, color);
    } else {
      FrontShown(Cells(row), ws, color);
      DataShowsFilled(Cells(row), ws, 0, color, "| ");
      NewlineShown();
      ShowsConcat(DataRow(Cells(row), ws, color), RowLine(Cells(row), ws, |ws|, color), "\n", "\n");
    }
  }

  lemma FrontShown(cells: seq<string>, ws: seq<nat>, color: bool)
    ensures Shows("| ", RowLine(cells, ws, 0, color))
  {
    ShowsItself("| ");
  }

  lemma NewlineShown()
    ensures Shows("\n", "\n")
  {
    ShowsItself("\n");
  }

  lemma SeparatorShows(ws: seq<nat>, color: bool)
    ensures Shows(Separator(ws, color), SeparatorText(ws, |ws|) + "\n")
  {
    var line := SeparatorLine(ws);
    var n := |ws|;
    SeparatorIs(ws, n);
    SeparatorTextIs(ws, n);
    hide SeparatorTo, SeparatorText;
    assert SeparatorTo(ws, n) + "" == SeparatorTo(ws, n);
    Codes();
    NewlineShown();
    ShowsItself(line);
    ShowsStyled(DIM, line);
    hide SeparatorFrom, Shows, Aligned, PipeAt, DashesIn;
    ShowsConcat(line, line, "\n", "\n");
    ShowsConcat(DIM + line + RESET, line, "\n", "\n");
  }

  lemma {:induction false} RowsShow(rows: seq<string>, ws: seq<nat>, color: bool)
    requires forall r :: 0 <= r < |rows| ==> CellsEscapeFree(Cells(rows[r]))
    ensures Shows(RowTexts(rows, ws, color), LinesOf(rows, ws, color))
    decreases |rows|
  {
    hide Shows, Cells, RowText, LineOf, CellsEscapeFree;
    if rows == [] {
      ShowsItself("") by { EmptyIsFree(); }
    } else {
      RowShows(rows[0], ws, color);
      RowsShow(rows[1..], ws, color);
      ShowsConcat(RowText(rows[0], ws, color), LineOf(rows[0], ws, color) + "\n", RowTexts(rows[1..], ws, color),
                  LinesOf(rows[1..], ws, color));
    }
  }

  /** What a table shows: line by line its separators as dashes and its data rows as their cells' texts, each filled up
      to the width of its column. */
  lemma TableShows(rows: seq<string>, termWidth: int, color: bool)
    requires NumCols(rows) > 0 && forall r :: 0 <= r < |rows| ==> CellsEscapeFree(Cells(rows[r]))
    ensures Shows(RenderTable(rows, termWidth, color), LinesOf(rows, ColWidths(rows, termWidth, color), color))
  {
    hide Shows, RowTexts, LinesOf, Cells, NumCols;
    RowsShow(rows, ColWidths(rows, termWidth, color), color);
  }

  // ----- what the widths are taken from -----

  /** The content width of a column: that of its widest cell, and at least 1. */
  lemma {:induction false} ContentIsGreatest(rows: seq<string>, c: nat, color: bool)
    ensures forall r :: 0 <= r < |rows| && c < |Cells(rows[r])| ==>
              Width(Cells(rows[r])[c], color) <= Content(rows, c, color)
    ensures || Content(rows, c, color) == 1
            || exists r :: 0 <= r < |rows| && c < |Cells(rows[r])| &&
                 Width(Cells(rows[r])[c], color) == Content(rows, c, color)
  {
    forall r | 0 <= r < |rows| && c < |Cells(rows[r])|
      ensures Width(Cells(rows[r])[c], color) <= Content(rows, c, color)
    {
      CellFits(rows, r, c, color);
    }
    if MaxWidth(rows, c, color) > 0 {
      var r := WidestRow(rows, c, color);
    }
  }

  lemma {:induction false} WidestRow(rows: seq<string>, c: nat, color: bool) returns (r: nat)
    requires MaxWidth(rows, c, color) > 0
    ensures r < |rows| && c < |Cells(rows[r])| && Width(Cells(rows[r])[c], color) == MaxWidth(rows, c, color)
    decreases |rows|
  {
    hide Cells, Width;
    if c < |Cells(rows[0])| && Width(Cells(rows[0])[c], color) == MaxWidth(rows, c, color) {
      r := 0;
    } else {
      r := WidestRow(rows[1..], c, color);
      r := r + 1;
    }
  }

  /** The number of columns is the greatest number of cells of a row. */
  lemma {:induction false} ColumnsAreGreatest(rows: seq<string>)
    ensures forall r :: 0 <= r < |rows| ==> |Cells(rows[r])| <= NumCols(rows)
    ensures rows != [] ==> exists r :: 0 <= r < |rows| && |Cells(rows[r])| == NumCols(rows)
    decreases |rows|
  {
    hide Cells;
    if rows != [] {
      ColumnsAreGreatest(rows[1..]);
      forall r | 0 <= r < |rows| ensures |Cells(rows[r])| <= NumCols(rows) {
        assert r > 0 ==> rows[r] == rows[1..][r - 1];
      }
      if |Cells(rows[0])| != NumCols(rows) {
        var r :| 0 <= r < |rows[1..]| && |Cells(rows[1..][r])| == NumCols(rows[1..]);
        assert rows[r + 1] == rows[1..][r];
      }
    }
  }

  // ----- what the cells are -----

  ghost predicate AllBlank(s: string) {
    forall k :: 0 <= k < |s| ==> s[k] == ' '
  }

  ghost predicate Bare(s: string) {
    s != "" ==> s[0] != ' ' && s[|s| - 1] != ' '
  }

  /** A cell as it is written: blanks, its text, blanks. */
  datatype Cell = Cell(left: string, text: string, right: string)

  ghost predicate LegalCell(c: Cell) {
    AllBlank(c.left) && AllBlank(c.right) && Bare(c.text) && '|' !in c.text
  }

  /** The cells of a row, each with its pipe. */
  ghost function CellsText(cells: seq<Cell>): string {
    if cells == [] then "" else cells[0].left + cells[0].text + cells[0].right + "|" + CellsText(cells[1..])
  }

  ghost function Texts(cells: seq<Cell>): seq<string> {
    seq(|cells|, k requires 0 <= k < |cells| => cells[k].text)
  }

  lemma {:induction false} TrimLeftIs(left: string, s: string)
    requires AllBlank(left) && (s == "" || s[0] != ' ')
    ensures TrimLeft(left + s) == s
    decreases |left|
  {
    if left == "" {
      assert left + s == s;
    } else {
      assert (left + s)[1..] == left[1..] + s;
      TrimLeftIs(left[1..], s);
    }
  }

  lemma {:induction false} TrimRightIs(s: string, right: string)
    requires AllBlank(right) && (s == "" || s[|s| - 1] != ' ')
    ensures TrimRight(s + right) == s
    decreases |right|
  {
    if right == "" {
      assert s + right == s;
    } else {
      var t := s + right;
      assert t[..|t| - 1] == s + right[..|right| - 1];
      TrimRightIs(s, right[..|right| - 1]);
    }
  }

  lemma TrimIs(left: string, s: string, right: string)
    requires AllBlank(left) && AllBlank(right) && Bare(s)
    ensures Trim(left + s + right) == s
  {
    hide TrimLeft, TrimRight;
    if s == "" {
      var all := left + s + right;
      assert all + "" == all;
      TrimLeftIs(all, "");
      TrimRightIs("", "");
    } else {
      assert left + s + right == left + (s + right);
      TrimLeftIs(left, s + right);
      TrimRightIs(s, right);
    }
  }

  lemma CellEnds(pre: string, c: Cell, rest: string)
    requires LegalCell(c)
    ensures var piece := c.left + c.text + c.right;
            var line := pre + (piece + "|" + rest);
            Text.Find(line, "|", |pre|) == |pre + piece| && |pre + piece| < |line|
            && line[|pre|..|pre + piece|] == piece && line == pre + piece + "|" + rest
  {
    var piece := c.left + c.text + c.right;
    var line := pre + (piece + "|" + rest);
    var at := |pre + piece|;
    assert line[at] == '|' && line[|pre|..at] == piece;
    forall k | |pre| <= k < at ensures line[k] != '|' {
      assert line[k] == piece[k - |pre|];
      NoPipeIn(c, k - |pre|);
    }
    Text.FindChar(line, '|', |pre|, at);
    assert ['|'] == "|";
  }

  lemma NoPipeIn(c: Cell, i: nat)
    requires LegalCell(c) && i < |c.left + c.text + c.right|
    ensures (c.left + c.text + c.right)[i] != '|'
  {
    var j := i - |c.left|;
    if i < |c.left| {
      assert (c.left + c.text + c.right)[i] == c.left[i];
    } else if j < |c.text| {
      assert (c.left + c.text + c.right)[i] == c.text[j];
    } else {
      assert (c.left + c.text + c.right)[i] == c.right[j - |c.text|];
    }
  }

  lemma CellsUnfold(cells: seq<Cell>)
    ensures cells == [] ==> CellsText(cells) == "" && Texts(cells) == []
    ensures cells != [] ==>
              var c, more := cells[0], cells[1..];
              && CellsText(cells) == c.left + c.text + c.right + "|" + CellsText(more)
              && Texts(cells) == [c.text] + Texts(more)
  {
  }

  lemma {:induction false} CellsReadFrom(pre: string, cells: seq<Cell>, last: Cell)
    requires (forall k :: 0 <= k < |cells| ==> LegalCell(cells[k])) && LegalCell(last)
    ensures var tail := last.left + last.text + last.right;
            CellsFrom(pre + (CellsText(cells) + tail), |pre|)
            == Texts(cells) + (if last.text == "" then [] else [last.text])
    decreases |cells|
  {
    hide Trim, Text.Find, LegalCell, CellsFrom, CellsText, Texts;
    CellsUnfold(cells);
    var tail := last.left + last.text + last.right;
    var texts := Texts(cells);
    if cells == [] {
      assert CellsText(cells) + tail == tail;
      LastCell(pre, last);
    } else {
      var c, more := cells[0], cells[1..];
      var piece, rest := c.left + c.text + c.right, CellsText(more) + tail;
      var line := pre + (CellsText(cells) + tail);
      assert CellsText(cells) + tail == piece + "|" + rest;
      CellEnds(pre, c, rest);
      LegalTrim(c);
      CellsReadFrom(pre + piece + "|", more, last);
      FirstCell(line, |pre|, |pre + piece|);
    }
  }

  lemma LegalTrim(c: Cell)
    requires LegalCell(c)
    ensures Trim(c.left + c.text + c.right) == c.text
  {
    TrimIs(c.left, c.text, c.right);
  }

  lemma FirstCell(line: string, start: nat, pipe: nat)
    requires start <= pipe < |line| && Text.Find(line, "|", start) == pipe
    ensures CellsFrom(line, start) == [Trim(line[start..pipe])] + CellsFrom(line, pipe + 1)
  {
    hide Trim, Text.Find;
  }

  lemma LastCell(pre: string, last: Cell)
    requires LegalCell(last)
    ensures CellsFrom(pre + (last.left + last.text + last.right), |pre|) == if last.text == "" then [] else [last.text]
  {
    hide Trim, Text.Find, CellsFrom, LegalCell, Text.OccursAt;
    var tail := last.left + last.text + last.right;
    var line := pre + tail;
    LegalTrim(last);
    NoPipeAfter(pre, last);
    assert line[|pre|..] == tail;
    LastUnfold(line, |pre|);
    EmptyTrim();
  }

  lemma EmptyTrim()
    ensures Trim("") == ""
  {
  }

  lemma LastUnfold(line: string, start: nat)
    requires start <= |line| && Text.Find(line, "|", start) == -1
    ensures CellsFrom(line, start) == if start == |line| || Trim(line[start..]) == "" then [] else [Trim(line[start..])]
  {
    hide Trim, Text.Find;
  }

  lemma NoPipeAfter(pre: string, c: Cell)
    requires LegalCell(c)
    ensures Text.Find(pre + (c.left + c.text + c.right), "|", |pre|) == -1
  {
    hide Text.OccursAt, LegalCell;
    var tail := c.left + c.text + c.right;
    var line := pre + tail;
    forall k: nat | |pre| <= k ensures !Text.OccursAt(line, "|", k) {
      NoPipeHere(pre, c, k);
    }
    Text.NotFound(line, "|", |pre|);
  }

  lemma NoPipeHere(pre: string, c: Cell, k: nat)
    requires LegalCell(c) && |pre| <= k
    ensures !Text.OccursAt(pre + (c.left + c.text + c.right), "|", k)
  {
    hide LegalCell;
    var tail := c.left + c.text + c.right;
    if k < |pre + tail| {
      NoPipeIn(c, k - |pre|);
      assert (pre + tail)[k] == tail[k - |pre|];
    }
  }

  /** The cells of a written row are read back, an empty cell too if a pipe follows it. */
  lemma CellsRead(cells: seq<Cell>, last: Cell)
    requires (forall k :: 0 <= k < |cells| ==> LegalCell(cells[k])) && LegalCell(last)
    ensures Cells("|" + (CellsText(cells) + (last.left + last.text + last.right)))
            == Texts(cells) + (if last.text == "" then [] else [last.text])
  {
    hide CellsFrom, CellsText, LegalCell;
    CellsReadFrom("|", cells, last);
  }
}
