/** What the batch renderer (`render_lines`, src/tui/markdown.cpp) makes of a document given as a list of blocks:
    lines, tables, code blocks and diagrams. */
module MarkdownDocument {
  import opened Ansi
  import Highlight
  import opened Inline
  import opened Markdown
  import opened MarkdownBlocks
  import Table
  import opened Text

  /** A line of its own, the rows of a table, and blocks between fences: the tag, anything that follows the tag's
      blanks, the lines, and what stands behind the closing fence. */
  datatype Block =
    | Single(line: string)
    | Rows(rows: seq<string>)
    | Code(tag: string, blanks: string, lines: seq<string>, after: string)
    | Diagram(blanks: string, lines: seq<string>, after: string)

  /** How a document may end: with a block that is not closed. */
  datatype Ending =
    | Closed
    | OpenCode(tag: string, blanks: string, lines: seq<string>)
    | OpenDiagram(blanks: string, lines: seq<string>)

  ghost predicate AllBlank(s: string) {
    forall k :: 0 <= k < |s| ==> s[k] == ' '
  }

  ghost predicate IsTag(tag: string) {
    tag != "" ==> tag[|tag| - 1] != ' '
  }

  ghost predicate NoFences(lines: seq<string>) {
    forall k :: 0 <= k < |lines| ==> !("```" <= lines[k])
  }

  ghost predicate LegalBlock(b: Block) {
    match b
    case Single(line) => !("```" <= line) && (line == "" || line[0] != '|')
    case Rows(rows) => rows != [] && forall k :: 0 <= k < |rows| ==> rows[k] != "" && rows[k][0] == '|'
    case Code(tag, blanks, lines, _) => IsTag(tag) && tag != "mermaid" && AllBlank(blanks) && NoFences(lines)
    case Diagram(blanks, lines, _) => AllBlank(blanks) && NoFences(lines)
  }

  ghost predicate LegalEnding(e: Ending) {
    match e
    case Closed => true
    case OpenCode(tag, blanks, lines) => IsTag(tag) && tag != "mermaid" && AllBlank(blanks) && NoFences(lines)
    case OpenDiagram(blanks, lines) => AllBlank(blanks) && NoFences(lines)
  }

  ghost predicate LegalDocument(blocks: seq<Block>) {
    && (forall k :: 0 <= k < |blocks| ==> LegalBlock(blocks[k]))
    && forall k :: 0 < k < |blocks| ==> !(blocks[k - 1].Rows? && blocks[k].Rows?)
  }

  ghost function BlockLines(b: Block): seq<string> {
    match b
    case Single(line) => [line]
    case Rows(rows) => rows
    case Code(tag, blanks, lines, after) => ["```" + tag + blanks] + lines + ["```" + after]
    case Diagram(blanks, lines, after) => ["```mermaid" + blanks] + lines + ["```" + after]
  }

  ghost function EndingLines(e: Ending): seq<string> {
    match e
    case Closed => []
    case OpenCode(tag, blanks, lines) => ["```" + tag + blanks] + lines
    case OpenDiagram(blanks, lines) => ["```mermaid" + blanks] + lines
  }

  ghost function DocumentLines(blocks: seq<Block>): seq<string> {
    if blocks == [] then [] else BlockLines(blocks[0]) + DocumentLines(blocks[1..])
  }

  ghost function FenceText(line: string): string {
    "\U{1B}[2m" + line + "\U{1B}[0m" + "\n"
  }

  ghost function CodeText(lines: seq<string>, tag: string, cfg: Config): string
    decreases |lines|
  {
    if lines == [] then ""
    else Highlight.HighlightLine(lines[0], cfg.language(tag)) + "\n" + CodeText(lines[1..], tag, cfg)
  }

  /** What is written for a block. A diagram that no renderer accepts is written as a block. */
  ghost function BlockText(b: Block, cfg: Config, color: bool): string {
    match b
    case Single(line) => RenderLine(line, color)
    case Rows(rows) => Table.RenderTable(rows, cfg.width, color)
    case Code(tag, blanks, lines, after) =>
      FenceText("```" + tag + blanks) + CodeText(lines, tag, cfg) + FenceText("```" + after)
    case Diagram(_, lines, _) =>
      match cfg.diagram(Unlines(lines))
      case Drawn(output) => output
      case NotDrawn => FenceText("```mermaid") + Unlines(lines) + FenceText("```")
  }

  /** A diagram that is not closed is lost. */
  ghost function EndingText(e: Ending, cfg: Config): string {
    match e
    case Closed => ""
    case OpenCode(tag, blanks, lines) => FenceText("```" + tag + blanks) + CodeText(lines, tag, cfg)
    case OpenDiagram(_, _) => ""
  }

  ghost function DocumentText(blocks: seq<Block>, cfg: Config, color: bool): string {
    if blocks == [] then "" else BlockText(blocks[0], cfg, color) + DocumentText(blocks[1..], cfg, color)
  }

  // ----- fences -----

  lemma {:induction false} TagFound(tag: string, blanks: string)
    requires IsTag(tag) && AllBlank(blanks)
    ensures DropTrailing(tag + blanks) == tag
    decreases |blanks|
  {
    var s := tag + blanks;
    if blanks == "" {
      assert s == tag;
    } else {
      assert s[..|s| - 1] == tag + blanks[..|blanks| - 1];
      TagFound(tag, blanks[..|blanks| - 1]);
    }
  }

  lemma FenceParts(tag: string, blanks: string)
    requires IsTag(tag) && AllBlank(blanks)
    ensures var line := "```" + tag + blanks;
            IsFence(line) && |line| >= 3 && DropTrailing(line[3..]) == tag && !Table.IsTableRow(line)
  {
    var line := "```" + tag + blanks;
    TagFound(tag, blanks);
    assert line[3..] == tag + blanks;
  }

  ghost function Flushed(b: Batch, cfg: Config, color: bool): string {
    b.result + (if b.table == [] then "" else Table.RenderTable(b.table, cfg.width, color))
  }

  lemma Opens(b: Batch, tag: string, blanks: string, cfg: Config, color: bool)
    requires !b.inCode && IsTag(tag) && AllBlank(blanks)
    ensures var line := "```" + tag + blanks;
            BatchLine(b, line, cfg, color) ==
            if tag == "mermaid" then Batch(Flushed(b, cfg, color), true, tag, "", [])
            else Batch(Flushed(b, cfg, color) + FenceText(line), true, tag, b.mermaid, [])
  {
    hide DropTrailing, RenderLine, Draw;
    FenceParts(tag, blanks);
    assert b.result + "" == b.result;
  }

  lemma {:induction false} CodeWritten(b: Batch, lines: seq<string>, cfg: Config, color: bool)
    requires b.inCode && b.lang != "mermaid" && b.table == [] && NoFences(lines)
    ensures BatchLines(b, lines, cfg, color) == b.(result := b.result + CodeText(lines, b.lang, cfg))
    decreases |lines|
  {
    hide Highlight.HighlightLine, RenderLine, Draw, DropTrailing;
    if lines == [] {
      assert b.result + "" == b.result;
    } else {
      var shown := Highlight.HighlightLine(lines[0], cfg.language(b.lang)) + "\n";
      var b' := b.(result := b.result + shown);
      assert BatchLine(b, lines[0], cfg, color) == b';
      CodeWritten(b', lines[1..], cfg, color);
      var rest := CodeText(lines[1..], b.lang, cfg);
      assert b.result + shown + rest == b.result + (shown + rest);
    }
  }

  lemma {:induction false} DiagramRead(b: Batch, lines: seq<string>, cfg: Config, color: bool)
    requires b.inCode && b.lang == "mermaid" && b.table == [] && NoFences(lines)
    ensures BatchLines(b, lines, cfg, color) == b.(mermaid := b.mermaid + Unlines(lines))
    decreases |lines|
  {
    hide Highlight.HighlightLine, RenderLine, Draw, DropTrailing;
    if lines == [] {
      assert b.mermaid + "" == b.mermaid;
    } else {
      var b' := b.(mermaid := b.mermaid + lines[0] + "\n");
      assert BatchLine(b, lines[0], cfg, color) == b';
      DiagramRead(b', lines[1..], cfg, color);
      assert b.mermaid + lines[0] + "\n" + Unlines(lines[1..]) == b.mermaid + (lines[0] + "\n" + Unlines(lines[1..]));
    }
  }

  lemma FenceAfter(after: string)
    ensures IsFence("```" + after) && |"```" + after| >= 3
  {
  }

  lemma CodeCloses(b: Batch, after: string, cfg: Config, color: bool)
    requires b.inCode && b.lang != "mermaid" && b.table == []
    ensures BatchLine(b, "```" + after, cfg, color)
            == b.(result := b.result + FenceText("```" + after), inCode := false, lang := "")
  {
    hide RenderLine, Draw, DropTrailing;
    FenceAfter(after);
  }

  lemma DiagramCloses(b: Batch, after: string, cfg: Config, color: bool)
    requires b.inCode && b.lang == "mermaid" && b.table == []
    ensures BatchLine(b, "```" + after, cfg, color) == Batch(b.result + Draw(b.mermaid, cfg), false, "", "", [])
  {
    hide RenderLine, Draw, DropTrailing;
    FenceAfter(after);
  }

  lemma {:induction false} RowsHeld(b: Batch, rows: seq<string>, cfg: Config, color: bool)
    requires !b.inCode && forall k :: 0 <= k < |rows| ==> rows[k] != "" && rows[k][0] == '|'
    ensures BatchLines(b, rows, cfg, color) == b.(table := b.table + rows)
    decreases |rows|
  {
    hide CodeLine, RenderLine;
    if rows == [] {
      assert b.table + [] == b.table;
    } else {
      var b' := b.(table := b.table + [rows[0]]);
      assert BatchLine(b, rows[0], cfg, color) == b';
      RowsHeld(b', rows[1..], cfg, color);
      assert b.table + [rows[0]] + rows[1..] == b.table + rows;
    }
  }

  // ----- blocks -----

  lemma SingleWritten(b: Batch, line: string, cfg: Config, color: bool)
    requires !b.inCode && LegalBlock(Single(line))
    ensures BatchLines(b, [line], cfg, color)
            == Batch(Flushed(b, cfg, color) + RenderLine(line, color), false, b.lang, b.mermaid, [])
  {
    hide RenderLine, CodeLine;
    assert [line][1..] == [];
    assert b.result + "" == b.result;
    assert BatchLines(b, [line], cfg, color) == BatchLine(b, line, cfg, color);
  }

  lemma ThreeParts(b: Batch, open: string, lines: seq<string>, close: string, cfg: Config, color: bool)
    ensures BatchLines(b, [open] + lines, cfg, color) == BatchLines(BatchLine(b, open, cfg, color), lines, cfg, color)
    ensures BatchLines(b, [open] + lines + [close], cfg, color)
            == BatchLine(BatchLines(BatchLine(b, open, cfg, color), lines, cfg, color), close, cfg, color)
  {
    hide BatchLine;
    assert ([open] + lines)[1..] == lines && [close][1..] == [];
    BatchLinesConcat(b, [open] + lines, [close], cfg, color);
    var b' := BatchLines(b, [open] + lines, cfg, color);
    assert BatchLines(b', [close], cfg, color) == BatchLine(b', close, cfg, color);
  }

  lemma CodeWhole(b: Batch, tag: string, blanks: string, lines: seq<string>, after: string, cfg: Config, color: bool)
    requires !b.inCode && LegalBlock(Code(tag, blanks, lines, after))
    ensures BatchLines(b, BlockLines(Code(tag, blanks, lines, after)), cfg, color)
            == Batch(Flushed(b, cfg, color) + BlockText(Code(tag, blanks, lines, after), cfg, color), false, "",
                     b.mermaid, [])
  {
    hide BatchLine, BatchLines, FenceText, CodeText, Flushed;
    var open, close := "```" + tag + blanks, "```" + after;
    ThreeParts(b, open, lines, close, cfg, color);
    Opens(b, tag, blanks, cfg, color);
    var b1 := BatchLine(b, open, cfg, color);
    CodeWritten(b1, lines, cfg, color);
    var b2 := BatchLines(b1, lines, cfg, color);
    CodeCloses(b2, after, cfg, color);
    var out := Flushed(b, cfg, color);
    assert out + FenceText(open) + CodeText(lines, tag, cfg) + FenceText(close)
        == out + (FenceText(open) + CodeText(lines, tag, cfg) + FenceText(close));
  }

  lemma DrawIs(mermaid: string, cfg: Config)
    ensures Draw(mermaid, cfg) == match cfg.diagram(mermaid)
                                  case Drawn(output) => output
                                  case NotDrawn => FenceText("```mermaid") + mermaid + FenceText("```")
  {
  }

  lemma DiagramWhole(b: Batch, blanks: string, lines: seq<string>, after: string, cfg: Config, color: bool)
    requires !b.inCode && LegalBlock(Diagram(blanks, lines, after))
    ensures BatchLines(b, BlockLines(Diagram(blanks, lines, after)), cfg, color)
            == Batch(Flushed(b, cfg, color) + BlockText(Diagram(blanks, lines, after), cfg, color), false, "", "", [])
  {
    hide BatchLine, BatchLines, FenceText, Flushed, Draw;
    var open, close := "```mermaid" + blanks, "```" + after;
    assert open == "```" + "mermaid" + blanks;
    ThreeParts(b, open, lines, close, cfg, color);
    Opens(b, "mermaid", blanks, cfg, color);
    var b1 := BatchLine(b, open, cfg, color);
    DiagramRead(b1, lines, cfg, color);
    assert "" + Unlines(lines) == Unlines(lines);
    var b2 := BatchLines(b1, lines, cfg, color);
    DiagramCloses(b2, after, cfg, color);
    DrawIs(Unlines(lines), cfg);
  }

  /** A block adds its text to what has been written, the rows of a table when they are written out. */
  lemma BlockWritten(b: Batch, block: Block, cfg: Config, color: bool)
    requires !b.inCode && LegalBlock(block) && (block.Rows? ==> b.table == [])
    ensures var b' := BatchLines(b, BlockLines(block), cfg, color);
            && !b'.inCode && (b'.table != [] ==> block.Rows?)
            && Flushed(b', cfg, color) == Flushed(b, cfg, color) + BlockText(block, cfg, color)
  {
    hide BatchLines, FenceText, CodeText, RenderLine;
    match block
    case Single(line) =>
      SingleWritten(b, line, cfg, color);
      NothingHeld(Batch(Flushed(b, cfg, color) + RenderLine(line, color), false, b.lang, b.mermaid, []), cfg, color);
    case Rows(rows) =>
      RowsHeld(b, rows, cfg, color);
      assert [] + rows == rows && b.result + "" == b.result;
    case Code(tag, blanks, lines, after) =>
      CodeWhole(b, tag, blanks, lines, after, cfg, color);
      NothingHeld(BatchLines(b, BlockLines(block), cfg, color), cfg, color);
    case Diagram(blanks, lines, after) =>
      DiagramWhole(b, blanks, lines, after, cfg, color);
      NothingHeld(BatchLines(b, BlockLines(block), cfg, color), cfg, color);
  }

  lemma NothingHeld(b: Batch, cfg: Config, color: bool)
    requires b.table == []
    ensures Flushed(b, cfg, color) == b.result
  {
    assert b.result + "" == b.result;
  }

  // ----- documents -----

  lemma LegalRest(blocks: seq<Block>)
    requires LegalDocument(blocks) && blocks != []
    ensures LegalBlock(blocks[0]) && LegalDocument(blocks[1..])
    ensures blocks[0].Rows? && |blocks| > 1 ==> !blocks[1].Rows?
  {
    hide LegalBlock;
    forall k | 0 < k < |blocks[1..]| ensures !(blocks[1..][k - 1].Rows? && blocks[1..][k].Rows?) {
      assert blocks[1..][k] == blocks[k + 1] && blocks[1..][k - 1] == blocks[k];
    }
  }

  lemma {:induction false} BlocksWritten(b: Batch, blocks: seq<Block>, cfg: Config, color: bool)
    requires !b.inCode && LegalDocument(blocks) && (b.table != [] && blocks != [] ==> !blocks[0].Rows?)
    ensures var b' := BatchLines(b, DocumentLines(blocks), cfg, color);
            !b'.inCode && Flushed(b', cfg, color) == Flushed(b, cfg, color) + DocumentText(blocks, cfg, color)
    decreases |blocks|
  {
    hide LegalBlock, LegalDocument, BlockLines, BlockText, BatchLines, Flushed;
    var out := Flushed(b, cfg, color);
    if blocks == [] {
      NoLines(b, cfg, color);
      assert out + "" == out;
    } else {
      LegalRest(blocks);
      BlockWritten(b, blocks[0], cfg, color);
      var b' := BatchLines(b, BlockLines(blocks[0]), cfg, color);
      BatchLinesConcat(b, BlockLines(blocks[0]), DocumentLines(blocks[1..]), cfg, color);
      BlocksWritten(b', blocks[1..], cfg, color);
      var first, rest := BlockText(blocks[0], cfg, color), DocumentText(blocks[1..], cfg, color);
      assert out + first + rest == out + (first + rest);
    }
  }

  lemma NoLines(b: Batch, cfg: Config, color: bool)
    ensures BatchLines(b, [], cfg, color) == b
  {
  }

  lemma EndingWritten(b: Batch, e: Ending, cfg: Config, color: bool)
    requires !b.inCode && LegalEnding(e)
    ensures Flushed(BatchLines(b, EndingLines(e), cfg, color), cfg, color)
            == Flushed(b, cfg, color) + EndingText(e, cfg)
  {
    hide BatchLine, BatchLines, FenceText, CodeText, Flushed;
    var out := Flushed(b, cfg, color);
    match e
    case Closed =>
      NoLines(b, cfg, color);
      assert out + "" == out;
    case OpenCode(tag, blanks, lines) =>
      var open := "```" + tag + blanks;
      ThreeParts(b, open, lines, "", cfg, color);
      Opens(b, tag, blanks, cfg, color);
      CodeWritten(BatchLine(b, open, cfg, color), lines, cfg, color);
      NothingHeld(BatchLines(b, [open] + lines, cfg, color), cfg, color);
      assert out + FenceText(open) + CodeText(lines, tag, cfg) == out + (FenceText(open) + CodeText(lines, tag, cfg));
    case OpenDiagram(blanks, lines) =>
      var open := "```mermaid" + blanks;
      assert open == "```" + "mermaid" + blanks;
      ThreeParts(b, open, lines, "", cfg, color);
      Opens(b, "mermaid", blanks, cfg, color);
      DiagramRead(BatchLine(b, open, cfg, color), lines, cfg, color);
      NothingHeld(BatchLines(b, [open] + lines, cfg, color), cfg, color);
      assert out + "" == out;
  }

  /** A document is rendered block by block. */
  lemma DocumentRendered(text: string, blocks: seq<Block>, e: Ending, cfg: Config, color: bool)
    requires Lines(text) == DocumentLines(blocks) + EndingLines(e) && LegalDocument(blocks) && LegalEnding(e)
    ensures RenderLines(text, cfg, color) == DocumentText(blocks, cfg, color) + EndingText(e, cfg)
  {
    hide LegalDocument, LegalEnding, DocumentLines, EndingLines, DocumentText, EndingText, BatchLines, Lines;
    BlocksWritten(START, blocks, cfg, color);
    var b := BatchLines(START, DocumentLines(blocks), cfg, color);
    EndingWritten(b, e, cfg, color);
    BatchLinesConcat(START, DocumentLines(blocks), EndingLines(e), cfg, color);
    NothingHeld(START, cfg, color);
    assert "" + DocumentText(blocks, cfg, color) == DocumentText(blocks, cfg, color);
    FlushedIs(BatchLines(b, EndingLines(e), cfg, color), cfg, color);
  }

  lemma FlushedIs(b: Batch, cfg: Config, color: bool)
    ensures FlushTable(b, cfg, color).result == Flushed(b, cfg, color)
  {
    assert b.result + "" == b.result;
  }
}
