/** Texts on which the streaming renderer and the batch renderer show different things: the conditions of the
    refinement are needed (src/tui/markdown_stream.cpp, src/tui/markdown.cpp). */
module StreamDifferences {
  import opened Ansi
  import opened Inline
  import opened Markdown
  import opened Streaming
  import opened StreamRefinement
  import Table
  import opened Text

  function Streamed(text: string, cfg: Config): string {
    StripAnsi(FinishState(Feed(INIT, text, cfg, true), cfg, true).out)
  }

  function Batched(text: string, cfg: Config): string {
    StripAnsi(RenderLines(text, cfg, true))
  }

  lemma NotHidden(line: string)
    requires '<' !in line
    ensures !Hidden(line)
  {
    if Hidden(line) {
      var k :| 0 <= k < |TAGS| && Find(line, TAGS[k], 0) >= 0;
      NoTag(line, k);
    }
  }

  lemma NoTag(line: string, k: nat)
    requires '<' !in line && k < |TAGS|
    ensures Find(line, TAGS[k], 0) == -1
  {
    TagStarts(k);
    forall i: nat ensures !OccursAt(line, TAGS[k], i) {
      if i + |TAGS[k]| <= |line| {
        Mismatch(line, TAGS[k], i, 0);
      }
    }
    NotFound(line, TAGS[k], 0);
  }

  lemma TagStarts(k: nat)
    requires k < |TAGS|
    ensures TAGS[k] != "" && TAGS[k][0] == '<'
  {
  }

  lemma OneLineStreamed(line: string, cfg: Config)
    requires '\n' !in line
    ensures Streamed(line + "\n", cfg) == StripAnsi(FinishState(ShowLine(INIT, line, cfg, true), cfg, true).out)
  {
    hide Feed, FinishState, ShowLine, StripAnsi;
    FeedLine(INIT, line, cfg, true);
  }

  lemma OneLineBatched(line: string, cfg: Config)
    requires '\n' !in line
    ensures Batched(line + "\n", cfg) == StripAnsi(FlushTable(BatchLine(START, line, cfg, true), cfg, true).result)
  {
    hide BatchLine, FlushTable, StripAnsi;
    LinesFirst(line, "");
    assert line + "\n" + "" == line + "\n" && Lines("") == [];
    assert Lines(line + "\n") == [line] && [line][1..] == [];
    var b := BatchLine(START, line, cfg, true);
    assert BatchLines(b, [], cfg, true) == b;
    assert BatchLines(START, [line], cfg, true) == b;
  }

  lemma ShownThenNewline(text: string, shown: string)
    requires Shows(text, shown)
    ensures StripAnsi(text + "\n") == shown + "\n"
  {
    ShowsItself("\n");
    ShowsConcat(text, shown, "\n", "\n");
  }

  /** A line with an annotation tag is hidden by one renderer only. */
  lemma HiddenLineDiffers(title: string, cfg: Config)
    requires EscapeFree(title) && '\n' !in title && Hidden("# " + title)
    ensures Streamed("# " + title + "\n", cfg) == "" && Batched("# " + title + "\n", cfg) == title + "\n"
  {
    var line := "# " + title;
    OneLineStreamed(line, cfg);
    OneLineBatched(line, cfg);
    HeadingRendered(title, cfg);
    HiddenStreamed(line, cfg);
    hide *;
    HeadingCode();
    ShowsStyled("\U{1B}[1;4m", title);
    ShownThenNewline("\U{1B}[1;4m" + title + RESET, title);
  }

  lemma HeadingCode()
    ensures IsCode("\U{1B}[1;4m")
  {
  }

  lemma HiddenStreamed(line: string, cfg: Config)
    requires Hidden(line)
    ensures StripAnsi(FinishState(ShowLine(INIT, line, cfg, true), cfg, true).out) == ""
  {
    hide Hidden;
  }

  lemma HeadingRendered(title: string, cfg: Config)
    ensures FlushTable(BatchLine(START, "# " + title, cfg, true), cfg, true).result
            == "\U{1B}[1;4m" + title + RESET + "\n"
  {
    var line := "# " + title;
    assert line[0] == '#' && line[1] == ' ' && line[2..] == title;
    assert Level(line, 1) == 1 && Level(line, 0) == 1;
    assert !RuleFrom(line, 0, "", 0);
    assert TryHeading(line) == "\U{1B}[1;4m" + title + RESET + "\n";
    hide TryHeading, IsHorizontalRule, Draw, RenderInline, TryList;
    assert RenderLine(line, true) == TryHeading(line);
    assert !Table.IsTableRow(line) && !IsFence(line);
    assert "" + RenderLine(line, true) == RenderLine(line, true);
  }

  // ----- a blank before the tag -----

  const BLANK_FENCE := "``` mermaid"

  /** A blank before the tag `mermaid` opens a diagram for the streaming renderer and a plain block for the other. */
  lemma BlankFenceDiffers(cfg: Config)
    ensures Streamed(BLANK_FENCE + "\n", cfg) == "" && Batched(BLANK_FENCE + "\n", cfg) == BLANK_FENCE + "\n"
  {
    hide *;
    BlankFenceTags();
    OneLineStreamed(BLANK_FENCE, cfg);
    OneLineBatched(BLANK_FENCE, cfg);
    NotHidden(BLANK_FENCE);
    BlankFenceStreamed(cfg);
    BlankFenceBatched(cfg);
    FenceCodes();
    ShowsStyled(DIM, BLANK_FENCE);
    ShownThenNewline(DIM + BLANK_FENCE + RESET, BLANK_FENCE);
  }

  lemma FenceCodes()
    ensures IsCode(DIM) && IsCode(RESET) && EscapeFree(BLANK_FENCE) && EscapeFree(FENCE)
  {
  }

  lemma BlankFenceTags()
    ensures IsFence(BLANK_FENCE) && !Table.IsTableRow(BLANK_FENCE) && '\n' !in BLANK_FENCE && '<' !in BLANK_FENCE
    ensures |BLANK_FENCE| >= 3 && DropTrailing(BLANK_FENCE[3..]) != "mermaid"
    ensures DropTrailing(DropLeading(BLANK_FENCE[3..])) == "mermaid"
  {
    assert BLANK_FENCE[..3] == FENCE && BLANK_FENCE[3..] == " mermaid";
    assert " mermaid"[1..] == "mermaid" && DropLeading("mermaid") == "mermaid";
  }

  lemma BlankFenceStreamed(cfg: Config)
    requires !Hidden(BLANK_FENCE) && IsFence(BLANK_FENCE) && !Table.IsTableRow(BLANK_FENCE)
    requires DropTrailing(DropLeading(BLANK_FENCE[3..])) == "mermaid"
    ensures StripAnsi(FinishState(ShowLine(INIT, BLANK_FENCE, cfg, true), cfg, true).out) == ""
  {
    hide Hidden, DropTrailing, DropLeading, StripAnsi, IsFence, IsCode, Table.IsTableRow;
    var st := ShowLine(INIT, BLANK_FENCE, cfg, true);
    assert st == State("", "", [], true, "mermaid", "");
    assert FinishState(st, cfg, true).out == "" + RESET;
    assert "" + RESET == RESET;
    FenceCodes();
    ShowsNothing(RESET);
    NothingShown(RESET);
  }

  lemma NothingShown(code: string)
    requires Shows(code, "")
    ensures StripAnsi(code) == ""
  {
  }

  lemma BlankFenceBatched(cfg: Config)
    requires IsFence(BLANK_FENCE) && DropTrailing(BLANK_FENCE[3..]) != "mermaid"
    ensures FlushTable(BatchLine(START, BLANK_FENCE, cfg, true), cfg, true).result == DIM + BLANK_FENCE + RESET + "\n"
  {
    hide DropTrailing, IsFence, Draw;
    assert "" + (DIM + BLANK_FENCE + RESET + "\n") == DIM + BLANK_FENCE + RESET + "\n";
  }

  // ----- an empty diagram -----

  const MERMAID_FENCE := "```mermaid"

  /** An empty diagram that no renderer accepts: one renderer shows both fences, the other only the second. */
  lemma EmptyDiagramDiffers(cfg: Config)
    requires cfg.diagram("") == NotDrawn
    ensures var text := MERMAID_FENCE + "\n" + FENCE + "\n";
            Streamed(text, cfg) == FENCE + "\n" && Batched(text, cfg) == MERMAID_FENCE + "\n" + FENCE + "\n"
  {
    EmptyDiagramStreamed(cfg);
    EmptyDiagramBatched(cfg);
    FenceCodes();
    MermaidFence();
    hide *;
    ShowsStyled(DIM, FENCE + "\n") by { EscapeFreeFences(); }
    ShowsStyled(DIM, MERMAID_FENCE);
    ShowsStyled(DIM, FENCE);
    ShowsItself("\n") by { EscapeFreeFences(); }
    ShowsConcat(DIM + MERMAID_FENCE + RESET, MERMAID_FENCE, "\n", "\n");
    ShowsConcat(DIM + FENCE + RESET, FENCE, "\n", "\n");
    ShowsConcat(DIM + MERMAID_FENCE + RESET + "\n", MERMAID_FENCE + "\n", DIM + FENCE + RESET + "\n", FENCE + "\n");
    ShownIs(DIM + (FENCE + "\n") + RESET, FENCE + "\n");
    ShownIs(DIM + MERMAID_FENCE + RESET + "\n" + (DIM + FENCE + RESET + "\n"), MERMAID_FENCE + "\n" + (FENCE + "\n"));
    assert MERMAID_FENCE + "\n" + (FENCE + "\n") == MERMAID_FENCE + "\n" + FENCE + "\n";
  }

  lemma EscapeFreeFences()
    ensures EscapeFree(FENCE + "\n") && EscapeFree("\n")
  {
  }

  lemma ShownIs(text: string, shown: string)
    requires Shows(text, shown)
    ensures StripAnsi(text) == shown
  {
  }

  lemma MermaidFence()
    ensures IsFence(MERMAID_FENCE) && IsFence(FENCE) && EscapeFree(MERMAID_FENCE)
    ensures !Table.IsTableRow(MERMAID_FENCE) && !Table.IsTableRow(FENCE)
    ensures !Hidden(MERMAID_FENCE) && !Hidden(FENCE)
    ensures DropTrailing(DropLeading(MERMAID_FENCE[3..])) == "mermaid" && DropTrailing(MERMAID_FENCE[3..]) == "mermaid"
  {
    assert MERMAID_FENCE[..3] == FENCE && MERMAID_FENCE[3..] == "mermaid";
    assert DropLeading("mermaid") == "mermaid";
    NotHidden(MERMAID_FENCE);
    NotHidden(FENCE);
  }

  lemma EmptyDiagramStreamed(cfg: Config)
    ensures Streamed(MERMAID_FENCE + "\n" + FENCE + "\n", cfg) == StripAnsi(DIM + (FENCE + "\n") + RESET)
  {
    MermaidFence();
    hide Hidden, DropTrailing, DropLeading, StripAnsi, IsFence, IsCode, Table.IsTableRow, Feed, EscapeFree;
    assert MERMAID_FENCE + "\n" + FENCE + "\n" == MERMAID_FENCE + "\n" + (FENCE + "\n");
    FeedConcat(INIT, MERMAID_FENCE + "\n", FENCE + "\n", cfg, true);
    FeedLine(INIT, MERMAID_FENCE, cfg, true);
    var st := State("", "", [], true, "mermaid", "");
    assert ShowLine(INIT, MERMAID_FENCE, cfg, true) == st;
    FeedLine(st, FENCE, cfg, true);
    var out := DIM + (FENCE + "\n") + RESET;
    assert "" + out == out;
    assert ShowLine(st, FENCE, cfg, true) == State(out, "", [], false, "", "");
  }

  lemma EmptyDiagramBatched(cfg: Config)
    requires cfg.diagram("") == NotDrawn
    ensures Batched(MERMAID_FENCE + "\n" + FENCE + "\n", cfg)
            == StripAnsi(DIM + MERMAID_FENCE + RESET + "\n" + (DIM + FENCE + RESET + "\n"))
  {
    MermaidFence();
    TwoLines();
    hide Hidden, DropTrailing, DropLeading, StripAnsi, IsFence, IsCode, Table.IsTableRow, EscapeFree, Lines;
    var b := Batch("", true, "mermaid", "", []);
    assert BatchLine(START, MERMAID_FENCE, cfg, true) == b;
    var result := DIM + MERMAID_FENCE + RESET + "\n" + (DIM + FENCE + RESET + "\n");
    assert Draw("", cfg) == (DIM + MERMAID_FENCE + RESET + "\n") + "" + (DIM + FENCE + RESET + "\n") == result;
    assert "" + result == result;
    var b' := Batch(result, false, "", "", []);
    assert BatchLine(b, FENCE, cfg, true) == b';
    hide BatchLine;
    TwoBatched(MERMAID_FENCE, FENCE, cfg);
  }

  lemma TwoBatched(first: string, second: string, cfg: Config)
    ensures BatchLines(START, [first, second], cfg, true)
            == BatchLine(BatchLine(START, first, cfg, true), second, cfg, true)
  {
    hide BatchLine;
    assert [first, second][1..] == [second] && [second][1..] == [];
    var b := BatchLine(START, first, cfg, true);
    assert BatchLines(b, [second], cfg, true) == BatchLines(BatchLine(b, second, cfg, true), [], cfg, true);
  }

  lemma TwoLines()
    ensures Lines(MERMAID_FENCE + "\n" + FENCE + "\n") == [MERMAID_FENCE, FENCE]
  {
    LinesFirst(MERMAID_FENCE, FENCE + "\n");
    LinesFirst(FENCE, "");
    assert MERMAID_FENCE + "\n" + (FENCE + "\n") == MERMAID_FENCE + "\n" + FENCE + "\n";
    assert FENCE + "\n" + "" == FENCE + "\n" && Lines("") == [];
  }

  // ----- a table row without a newline -----

  /** A text that is one table row without a newline is shown by one renderer only. */
  lemma LastRowDiffers(row: string, cfg: Config)
    requires Table.IsTableRow(row) && '\n' !in row && EscapeFree(row) && !Hidden(row) && Table.NumCols([row]) > 0
    ensures Streamed(row, cfg) != Batched(row, cfg)
  {
    hide *;
    RowIsAgreeable(row);
    OneRowStreamed(row, cfg);
    OneRowBatched(row, cfg);
    StartRelated();
    LastRowLost(INIT, START, row, cfg);
    assert [] + [row] == [row];
  }

  lemma OneRowStreamed(row: string, cfg: Config)
    requires '\n' !in row
    ensures Streamed(row, cfg) == StripAnsi(FinishState(INIT.(buf := row), cfg, true).out)
  {
    hide Feed, FinishState, StripAnsi;
    FeedText(INIT, row, cfg, true);
    assert "" + row == row;
  }

  lemma OneRowBatched(row: string, cfg: Config)
    requires '\n' !in row && row != ""
    ensures Batched(row, cfg) == StripAnsi(FlushTable(BatchLine(START, row, cfg, true), cfg, true).result)
  {
    hide BatchLine, FlushTable, StripAnsi, CompleteLines, Lines;
    CompleteOfLine(row);
    CompleteIsLines(row);
    assert Lines(row) == [row] && [row][1..] == [];
    var b := BatchLine(START, row, cfg, true);
    assert BatchLines(b, [], cfg, true) == b;
  }

  lemma RowIsAgreeable(row: string)
    requires Table.IsTableRow(row) && EscapeFree(row) && !Hidden(row)
    ensures Agreeable(START, row) && row != "" && START.table == [] && !START.inCode
  {
    hide Hidden, DropTrailing, DropLeading;
    FenceIsNoRow(row);
  }

  /** The shortest such text. */
  lemma OneCellDiffers(cfg: Config)
    ensures Streamed("|a|", cfg) != Batched("|a|", cfg)
  {
    hide *;
    OneCell();
    NotHidden("|a|");
    LastRowDiffers("|a|", cfg);
  }

  lemma OneCell()
    ensures Table.IsTableRow("|a|") && '\n' !in "|a|" && '<' !in "|a|" && EscapeFree("|a|")
            && Table.NumCols(["|a|"]) > 0
  {
  }
}
