/** Table parsing and layout (src/tui/table.cpp). The terminal width is a parameter. */
module Table {
  import opened Ansi
  import opened Inline
  import opened Text

  predicate IsTableRow(line: string) {
    line != "" && line[0] == '|'
  }

  predicate IsTableSeparator(line: string) {
    IsTableRow(line) && forall k :: 0 <= k < |line| ==> line[k] in {'|', '-', ':', ' '}
  }

  // ----- cells -----

  function TrimLeft(s: string): (r: string)
    ensures |r| <= |s|
  {
    if s != "" && s[0] == ' ' then TrimLeft(s[1..]) else s
  }

  function TrimRight(s: string): (r: string)
    ensures |r| <= |s|
  {
    if s != "" && s[|s| - 1] == ' ' then TrimRight(s[..|s| - 1]) else s
  }

  function Trim(s: string): string {
    TrimRight(TrimLeft(s))
  }

  /** The cells from `start` on. A blank piece is an empty cell when a pipe ends it and no cell otherwise. */
  function CellsFrom(line: string, start: nat): seq<string>
    decreases |line| - start
  {
    if start >= |line| then []
    else
      var pipe := Find(line, "|", start);
      if pipe < 0 then (if Trim(line[start..]) == "" then [] else [Trim(line[start..])])
      else [Trim(line[start..pipe])] + CellsFrom(line, pipe + 1)
  }

  function Cells(line: string): seq<string> {
    CellsFrom(line, if IsTableRow(line) then 1 else 0)
  }

  method ParseTableCells(line: string) returns (cells: seq<string>)
    ensures cells == Cells(line)
  {
    hide CellsFrom, Trim, Find;
    cells := [];
    var start := if IsTableRow(line) then 1 else 0;
    while start < |line|
      invariant cells + CellsFrom(line, start) == Cells(line)
      decreases |line| - start
    {
      NextCell(line, start, cells);
      var pipe := Find(line, "|", start);
      var cell := if pipe < 0 then line[start..] else line[start..pipe];
      var trimmed := Trim(cell);
      if trimmed != "" {
        cells := cells + [trimmed];
      } else if pipe >= 0 {
        cells := cells + [""];
      }
      if pipe < 0 { return; }
      start := pipe + 1;
    }
    NoCell(line, start, cells);
  }

  lemma NextCell(line: string, start: nat, cells: seq<string>)
    requires start < |line|
    ensures var pipe := Find(line, "|", start);
            && (pipe < 0 ==> cells + CellsFrom(line, start)
                             == if Trim(line[start..]) == "" then cells else cells + [Trim(line[start..])])
            && (pipe >= 0 ==> cells + CellsFrom(line, start)
                              == (cells + [Trim(line[start..pipe])]) + CellsFrom(line, pipe + 1))
  {
    hide Trim, Find;
    var pipe := Find(line, "|", start);
    if pipe >= 0 {
      var trimmed := Trim(line[start..pipe]);
      assert CellsFrom(line, start) == [trimmed] + CellsFrom(line, pipe + 1);
      hide CellsFrom;
      assert cells + ([trimmed] + CellsFrom(line, pipe + 1)) == (cells + [trimmed]) + CellsFrom(line, pipe + 1);
    } else {
      assert cells + [] == cells;
    }
  }

  lemma NoCell(line: string, start: nat, cells: seq<string>)
    requires start >= |line|
    ensures cells + CellsFrom(line, start) == cells
  {
  }

  // ----- widths -----

  function Width(cell: string, color: bool): nat {
    if color then VisibleLength(cell) else |cell|
  }

  function Max(a: int, b: int): int {
    if a < b then b else a
  }

  /** The number of columns: the most cells of any row. */
  function NumCols(rows: seq<string>): nat {
    if rows == [] then 0 else Max(|Cells(rows[0])|, NumCols(rows[1..]))
  }

  /** The widest cell of column `c`. */
  function MaxWidth(rows: seq<string>, c: nat, color: bool): nat {
    if rows == [] then 0
    else Max(if c < |Cells(rows[0])| then Width(Cells(rows[0])[c], color) else 0, MaxWidth(rows[1..], c, color))
  }

  /** The width a column needs: at least 1. */
  function Content(rows: seq<string>, c: nat, color: bool): (w: nat)
    ensures w >= 1
  {
    Max(MaxWidth(rows, c, color), 1)
  }

  function TotalContent(rows: seq<string>, k: nat, color: bool): (t: nat)
    ensures t >= k
  {
    if k == 0 then 0 else TotalContent(rows, k - 1, color) + Content(rows, k - 1, color)
  }

  function Overhead(cols: nat): nat {
    cols + 1 + cols * 2
  }

  function Available(cols: nat, termWidth: int): int {
    Max(cols, termWidth - Overhead(cols))
  }

  function ColWidth(rows: seq<string>, c: nat, cols: nat, termWidth: int, color: bool): (w: nat)
    requires cols > 0
    ensures w >= Content(rows, c, color)
  {
    Max(Content(rows, c, color), Content(rows, c, color) * Available(cols, termWidth) / TotalContent(rows, cols, color))
  }

  function ColWidths(rows: seq<string>, termWidth: int, color: bool): (ws: seq<nat>)
    ensures |ws| == NumCols(rows)
    ensures forall c :: 0 <= c < |ws| ==> ws[c] == ColWidth(rows, c, |ws|, termWidth, color)
  {
    seq(NumCols(rows), c requires 0 <= c < NumCols(rows) => ColWidth(rows, c, NumCols(rows), termWidth, color))
  }

  // ----- rows -----

  function Repeat(c: char, n: nat): (s: string)
    ensures |s| == n
  {
    if n == 0 then "" else [c] + Repeat(c, n - 1)
  }

  function SeparatorFrom(ws: seq<nat>, c: nat): string
    requires c <= |ws|
    decreases |ws| - c
  {
    if c == |ws| then "" else Repeat('-', ws[c] + 2) + "|" + SeparatorFrom(ws, c + 1)
  }

  function Separator(ws: seq<nat>, color: bool): string {
    if color then DIM + ("|" + SeparatorFrom(ws, 0)) + RESET + "\n" else "|" + SeparatorFrom(ws, 0) + "\n"
  }

  function PaddedCell(cell: string, w: nat, color: bool): string {
    var vis := Width(cell, color);
    RenderInline(cell, color) + Repeat(' ', if vis < w then w - vis else 0) + " | "
  }

  function DataFrom(cells: seq<string>, ws: seq<nat>, c: nat, color: bool): string
    requires c <= |ws|
    decreases |ws| - c
  {
    if c == |ws| then ""
    else PaddedCell(if c < |cells| then cells[c] else "", ws[c], color) + DataFrom(cells, ws, c + 1, color)
  }

  function DataRow(cells: seq<string>, ws: seq<nat>, color: bool): string {
    "| " + DataFrom(cells, ws, 0, color)
  }

  function RowText(row: string, ws: seq<nat>, color: bool): string {
    if IsTableSeparator(row) then Separator(ws, color) else DataRow(Cells(row), ws, color) + "\n"
  }

  function RowTexts(rows: seq<string>, ws: seq<nat>, color: bool): string {
    if rows == [] then "" else RowText(rows[0], ws, color) + RowTexts(rows[1..], ws, color)
  }

  function RenderTable(rows: seq<string>, termWidth: int, color: bool): string {
    if NumCols(rows) == 0 then "" else RowTexts(rows, ColWidths(rows, termWidth, color), color)
  }

  // ----- the imperative code -----

  /** The widths of all columns, filled in row by row. */
  method FillMaxWidths(rows: seq<string>, parsed: seq<seq<string>>, numCols: nat, color: bool)
    returns (maxWidths: array<nat>)
    requires |parsed| == |rows| && numCols == NumCols(rows)
    requires forall r :: 0 <= r < |rows| ==> parsed[r] == Cells(rows[r])
    ensures fresh(maxWidths) && maxWidths.Length == numCols
    ensures forall c :: 0 <= c < numCols ==> maxWidths[c] == MaxWidth(rows, c, color)
  {
    hide Cells, NumCols;
    maxWidths := new nat[numCols](_ => 0);
    MaxWidthOfNone(numCols, color);
    for r := 0 to |rows|
      invariant forall c :: 0 <= c < numCols ==> maxWidths[c] == MaxWidth(rows[..r], c, color)
    {
      RowFits(rows, r);
      ghost var before := maxWidths[..];
      for c := 0 to |parsed[r]|
        invariant forall k :: 0 <= k < numCols ==>
          maxWidths[k] == if k < c then Max(before[k], Width(parsed[r][k], color)) else before[k]
      {
        var w := Width(parsed[r][c], color);
        maxWidths[c] := Max(maxWidths[c], w);
      }
      forall c | 0 <= c < numCols ensures maxWidths[c] == MaxWidth(rows[..r + 1], c, color) {
        MaxWidthSnoc(rows[..r], rows[r], c, color);
        assert rows[..r + 1] == rows[..r] + [rows[r]];
      }
    }
    assert rows[..|rows|] == rows;
  }

  lemma MaxWidthOfNone(n: nat, color: bool)
    ensures forall c :: 0 <= c < n ==> MaxWidth([], c, color) == 0
  {
  }

  lemma {:induction false} MaxWidthSnoc(rows: seq<string>, row: string, c: nat, color: bool)
    ensures MaxWidth(rows + [row], c, color)
            == Max(MaxWidth(rows, c, color), if c < |Cells(row)| then Width(Cells(row)[c], color) else 0)
  {
    hide Cells, Width;
    if rows == [] {
      assert [] + [row] == [row] && [row][1..] == [];
      assert MaxWidth([], c, color) == 0;
    } else {
      assert (rows + [row])[1..] == rows[1..] + [row];
      MaxWidthSnoc(rows[1..], row, c, color);
    }
  }

  lemma {:induction false} RowFits(rows: seq<string>, r: nat)
    requires r < |rows|
    ensures |Cells(rows[r])| <= NumCols(rows)
  {
    hide Cells;
    if r > 0 {
      RowFits(rows[1..], r - 1);
    }
  }

  lemma {:induction false} NumColsSnoc(rows: seq<string>, row: string)
    ensures NumCols(rows + [row]) == Max(NumCols(rows), |Cells(row)|)
  {
    hide Cells;
    if rows == [] {
      assert [] + [row] == [row] && [row][1..] == [];
    } else {
      assert (rows + [row])[1..] == rows[1..] + [row];
      NumColsSnoc(rows[1..], row);
    }
  }

  method RenderTableLoop(rows: seq<string>, termWidth: int, color: bool) returns (result: string)
    ensures result == RenderTable(rows, termWidth, color)
  {
    hide Cells, NumCols, MaxWidth, RowTexts, RowText, TotalContent;
    var parsed: seq<seq<string>>, numCols := [], 0;
    NoRows();
    for r := 0 to |rows|
      invariant |parsed| == r && forall k :: 0 <= k < r ==> parsed[k] == Cells(rows[k])
      invariant numCols == NumCols(rows[..r])
    {
      var cells := ParseTableCells(rows[r]);
      numCols := Max(numCols, |cells|);
      parsed := parsed + [cells];
      NumColsSnoc(rows[..r], rows[r]);
      assert rows[..r + 1] == rows[..r] + [rows[r]];
    }
    assert rows[..|rows|] == rows;
    if numCols == 0 { return ""; }
    var maxWidths := FillMaxWidths(rows, parsed, numCols, color);
    var ws := Distribute(rows, maxWidths, termWidth, color);
    result := "";
    for r := 0 to |rows|
      invariant result + RowTexts(rows[r..], ws, color) == RowTexts(rows, ws, color)
    {
      RowTextsStep(rows, r, ws, color, result);
      result := result + RowText(rows[r], ws, color);
    }
    RowTextsEnd(rows, ws, color, result);
  }

  lemma NoRows()
    ensures NumCols([]) == 0
  {
  }

  lemma RowTextsStep(rows: seq<string>, r: nat, ws: seq<nat>, color: bool, result: string)
    requires r < |rows|
    ensures result + RowTexts(rows[r..], ws, color)
            == (result + RowText(rows[r], ws, color)) + RowTexts(rows[r + 1..], ws, color)
    ensures "" + RowTexts(rows, ws, color) == RowTexts(rows, ws, color)
  {
    hide RowText;
    assert rows[r..][1..] == rows[r + 1..];
  }

  lemma RowTextsEnd(rows: seq<string>, ws: seq<nat>, color: bool, result: string)
    ensures result + RowTexts(rows[|rows|..], ws, color) == result
  {
  }

  /** The terminal width shared out in proportion to the contents. */
  method Distribute(ghost rows: seq<string>, maxWidths: array<nat>, termWidth: int, color: bool) returns (ws: seq<nat>)
    requires maxWidths.Length == NumCols(rows) > 0
    requires forall c :: 0 <= c < maxWidths.Length ==> maxWidths[c] == MaxWidth(rows, c, color)
    ensures ws == ColWidths(rows, termWidth, color)
  {
    hide NumCols, MaxWidth;
    var numCols := maxWidths.Length;
    var available := Available(numCols, termWidth);
    var totalContent := 0;
    for c := 0 to numCols
      invariant totalContent == TotalContent(rows, c, color)
    {
      totalContent := totalContent + Max(maxWidths[c], 1);
    }
    ws := [];
    for c := 0 to numCols
      invariant |ws| == c
      invariant forall k :: 0 <= k < c ==> ws[k] == ColWidth(rows, k, numCols, termWidth, color)
    {
      var content: nat := Max(maxWidths[c], 1);
      assert content == Content(rows, c, color);
      ws := ws + [Max(content, content * available / totalContent)];
    }
  }
}
