/** The streaming renderer shows what the batch renderer shows, whatever the tokens are. */
module StreamRefinement {
  import opened Ansi
  import opened Inline
  import Highlight
  import opened Markdown
  import opened Streaming
  import Table
  import opened Text
  import opened Wrappers

  // ----- token boundaries -----

  lemma {:induction false} FeedConcat(st: State, a: string, b: string, cfg: Config, color: bool)
    ensures Feed(st, a + b, cfg, color) == Feed(Feed(st, a, cfg, color), b, cfg, color)
    decreases |a|
  {
    hide FeedChar;
    if a == "" {
      assert a + b == b;
    } else {
      assert (a + b)[1..] == a[1..] + b;
      FeedConcat(FeedChar(st, a[0], cfg, color), a[1..], b, cfg, color);
    }
  }

  ghost function FeedAll(st: State, tokens: seq<string>, cfg: Config, color: bool): State
    decreases |tokens|
  {
    if tokens == [] then st else FeedAll(Feed(st, tokens[0], cfg, color), tokens[1..], cfg, color)
  }

  /** Where the tokens are cut does not matter. */
  lemma {:induction false} TokensDoNotMatter(st: State, tokens: seq<string>, cfg: Config, color: bool)
    ensures FeedAll(st, tokens, cfg, color) == Feed(st, Joined(tokens), cfg, color)
    decreases |tokens|
  {
    hide FeedChar;
    if tokens != [] {
      FeedConcat(st, tokens[0], Joined(tokens[1..]), cfg, color);
      TokensDoNotMatter(Feed(st, tokens[0], cfg, color), tokens[1..], cfg, color);
    }
  }

  lemma {:induction false} FeedText(st: State, s: string, cfg: Config, color: bool)
    requires '\n' !in s
    ensures Feed(st, s, cfg, color) == st.(buf := st.buf + s)
    decreases |s|
  {
    if s == "" {
      assert st.buf + s == st.buf;
    } else {
      FeedText(st.(buf := st.buf + [s[0]]), s[1..], cfg, color);
      assert st.buf + [s[0]] + s[1..] == st.buf + s;
    }
  }

  /** A complete line is rendered as a whole. */
  lemma FeedLine(st: State, line: string, cfg: Config, color: bool)
    requires '\n' !in line && st.buf == ""
    ensures Feed(st, line + "\n", cfg, color) == ShowLine(st, line, cfg, color)
  {
    hide ShowLine;
    FeedConcat(st, line, "\n", cfg, color);
    FeedText(st, line, cfg, color);
    assert "" + line == line;
    var mid := st.(buf := line);
    assert "\n"[1..] == "";
    assert (line + "\n")[..|line|] == line;
    assert Feed(mid, "\n", cfg, color) == FlushLine(mid.(buf := line + "\n"), cfg, color);
    assert mid.(buf := line + "\n").(buf := "") == st;
  }

  // ----- outputs that end outside an escape sequence -----

  /** `a` and `b` show the same text and leave the terminal in its normal state. */
  ghost predicate SameShown(a: string, b: string) {
    StripAnsi(a) == StripAnsi(b) && !EscapeAfter(a, false) && !EscapeAfter(b, false)
  }

  ghost predicate Closed(s: string) {
    !EscapeAfter(s, false)
  }

  lemma SameShownConcat(a: string, b: string, x: string, y: string)
    requires SameShown(a, b) && SameShown(x, y)
    ensures SameShown(a + x, b + y)
  {
    VisibleConcat(a, x, false);
    VisibleConcat(b, y, false);
  }

  lemma ClosedConcat(a: string, b: string)
    requires Closed(a) && Closed(b)
    ensures Closed(a + b)
  {
    VisibleConcat(a, b, false);
  }

  lemma ClosedItself(s: string)
    requires EscapeFree(s)
    ensures Closed(s)
  {
    ShowsItself(s);
  }

  lemma ClosedInline(s: string, color: bool)
    requires EscapeFree(s)
    ensures Closed(RenderInline(s, color))
  {
    ClosedItself(s);
    if color {
      VisibleLengthIsShownLength(s);
    }
  }

  lemma {:induction false} ClosedRepeat(c: char, n: nat)
    requires c != ESC
    ensures EscapeFree(Table.Repeat(c, n))
  {
    if n > 0 {
      ClosedRepeat(c, n - 1);
    }
  }

  lemma ClosedStyled(code: string, text: string)
    requires IsCode(code) && EscapeFree(text)
    ensures Closed(code + text + RESET)
  {
    ShowsStyled(code, text);
  }

  // ----- tables end outside an escape sequence -----

  lemma {:induction false} CellsEscapeFree(line: string, start: nat, c: nat)
    requires EscapeFree(line) && c < |Table.CellsFrom(line, start)|
    ensures EscapeFree(Table.CellsFrom(line, start)[c])
    decreases |line| - start
  {
    hide Find;
    var pipe := Find(line, "|", start);
    TrimEscapeFree(if pipe < 0 then line[start..] else line[start..pipe]);
    if pipe >= 0 && c > 0 {
      CellsEscapeFree(line, pipe + 1, c - 1);
    }
  }

  lemma TrimEscapeFree(s: string)
    requires EscapeFree(s)
    ensures EscapeFree(Table.Trim(s))
  {
    TrimLeftEscapeFree(s);
    TrimRightEscapeFree(Table.TrimLeft(s));
  }

  lemma {:induction false} TrimLeftEscapeFree(s: string)
    requires EscapeFree(s)
    ensures EscapeFree(Table.TrimLeft(s))
  {
    if s != "" && s[0] == ' ' {
      TrimLeftEscapeFree(s[1..]);
    }
  }

  lemma {:induction false} TrimRightEscapeFree(s: string)
    requires EscapeFree(s)
    ensures EscapeFree(Table.TrimRight(s))
  {
    if s != "" && s[|s| - 1] == ' ' {
      TrimRightEscapeFree(s[..|s| - 1]);
    }
  }

  lemma {:induction false} DataClosed(cells: seq<string>, ws: seq<nat>, c: nat, color: bool)
    requires c <= |ws| && forall k :: 0 <= k < |cells| ==> EscapeFree(cells[k])
    ensures Closed(Table.DataFrom(cells, ws, c, color))
    decreases |ws| - c
  {
    if c < |ws| {
      var cell := if c < |cells| then cells[c] else "";
      assert EscapeFree(cell);
      PaddedClosed(cell, ws[c], color);
      DataClosed(cells, ws, c + 1, color);
      hide Closed, EscapeFree;
      ClosedConcat(Table.PaddedCell(cell, ws[c], color), Table.DataFrom(cells, ws, c + 1, color));
    }
  }

  lemma PaddedClosed(cell: string, w: nat, color: bool)
    requires EscapeFree(cell)
    ensures Closed(Table.PaddedCell(cell, w, color))
  {
    var vis := Table.Width(cell, color);
    var pad := Table.Repeat(' ', if vis < w then w - vis else 0);
    ClosedInline(cell, color);
    ClosedRepeat(' ', if vis < w then w - vis else 0);
    ClosedItself(pad);
    ClosedItself(" | ");
    hide Closed;
    ClosedConcat(RenderInline(cell, color), pad);
    ClosedConcat(RenderInline(cell, color) + pad, " | ");
  }

  lemma {:induction false} SeparatorEscapeFree(ws: seq<nat>, c: nat)
    requires c <= |ws|
    ensures EscapeFree(Table.SeparatorFrom(ws, c))
    decreases |ws| - c
  {
    if c < |ws| {
      ClosedRepeat('-', ws[c] + 2);
      SeparatorEscapeFree(ws, c + 1);
    }
  }

  lemma RowClosed(row: string, ws: seq<nat>, color: bool)
    requires EscapeFree(row)
    ensures Closed(Table.RowText(row, ws, color))
  {
    ClosedItself("\n");
    if Table.IsTableSeparator(row) {
      Codes();
      SeparatorEscapeFree(ws, 0);
      ClosedItself("|" + Table.SeparatorFrom(ws, 0));
      ClosedStyled(DIM, "|" + Table.SeparatorFrom(ws, 0));
      hide Closed;
      ClosedConcat(DIM + ("|" + Table.SeparatorFrom(ws, 0)) + RESET, "\n");
      ClosedConcat("|" + Table.SeparatorFrom(ws, 0), "\n");
    } else {
      var cells := Table.Cells(row);
      forall k | 0 <= k < |cells| ensures EscapeFree(cells[k]) {
        CellsEscapeFree(row, if Table.IsTableRow(row) then 1 else 0, k);
      }
      DataClosed(cells, ws, 0, color);
      ClosedItself("| ");
      hide Closed;
      ClosedConcat("| ", Table.DataFrom(cells, ws, 0, color));
      ClosedConcat(Table.DataRow(cells, ws, color), "\n");
    }
  }

  ghost predicate RowsEscapeFree(rows: seq<string>) {
    forall r :: 0 <= r < |rows| ==> EscapeFree(rows[r])
  }

  lemma {:induction false} RowTextsClosed(rows: seq<string>, ws: seq<nat>, color: bool)
    requires RowsEscapeFree(rows)
    ensures Closed(Table.RowTexts(rows, ws, color))
  {
    if rows != [] {
      RowClosed(rows[0], ws, color);
      RowTextsClosed(rows[1..], ws, color);
      hide Closed;
      ClosedConcat(Table.RowText(rows[0], ws, color), Table.RowTexts(rows[1..], ws, color));
    }
  }

  lemma TableClosed(rows: seq<string>, width: int, color: bool)
    requires RowsEscapeFree(rows)
    ensures Closed(Table.RenderTable(rows, width, color))
  {
    if Table.NumCols(rows) != 0 {
      RowTextsClosed(rows, Table.ColWidths(rows, width, color), color);
    }
  }

  // ----- content lines end outside an escape sequence -----

  lemma LineClosed(line: string)
    requires EscapeFree(line)
    ensures Closed(RenderLine(line, true))
  {
    ClosedItself("\n");
    if IsHorizontalRule(line) {
      RuleClosed();
    } else if TryHeading(line) != "" {
      HeadingClosed(line);
    } else if line != "" && line[0] == '>' {
      QuoteBarClosed();
      var text := QuoteText(line);
      ClosedInline(text, true);
      hide Closed;
      ClosedConcat(QUOTE_BAR, RenderInline(text, true));
      ClosedConcat(QUOTE_BAR + RenderInline(text, true), "\n");
    } else if TryList(line, true) != "" {
      ListClosed(line);
    } else {
      ClosedInline(line, true);
      hide Closed;
      ClosedConcat(RenderInline(line, true), "\n");
    }
  }

  lemma RuleClosed()
    ensures Closed(RuleText(true))
  {
    var dashes := DASH + DASH + DASH + DASH + DASH + DASH + DASH + DASH + DASH + DASH
                  + DASH + DASH + DASH + DASH + DASH + DASH + DASH + DASH + DASH + DASH;
    Codes();
    ClosedStyled(DIM, dashes);
    ClosedItself("\n");
    hide Closed;
    ClosedConcat(DIM + dashes + RESET, "\n");
  }

  lemma QuoteBarClosed()
    ensures Closed(QUOTE_BAR)
  {
    Codes();
    ClosedStyled(DIM, "\U{E2}\U{94}\U{82}");
    ClosedItself(" ");
    hide Closed;
    ClosedConcat(DIM + "\U{E2}\U{94}\U{82}" + RESET, " ");
    assert QUOTE_BAR == DIM + "\U{E2}\U{94}\U{82}" + RESET + " ";
  }

  lemma HeadingClosed(line: string)
    requires EscapeFree(line) && TryHeading(line) != ""
    ensures Closed(TryHeading(line))
  {
    var text := line[Level(line, 0) + 1..];
    ClosedStyled("\U{1B}[1;4m", text);
    ClosedItself("\n");
    hide Closed;
    ClosedConcat("\U{1B}[1;4m" + text + RESET, "\n");
  }

  lemma ListClosed(line: string)
    requires EscapeFree(line) && TryList(line, true) != ""
    ensures Closed(TryList(line, true))
  {
    hide Find, RenderInline;
    var indent := Indent(line, 0);
    var rest := line[indent..];
    var pad := Table.Repeat(' ', 2 + indent);
    ClosedRepeat(' ', 2 + indent);
    ClosedItself(pad);
    ClosedItself("\n");
    if |rest| >= 2 && (rest[0] == '-' || rest[0] == '*') && rest[1] == ' ' {
      ClosedItself(BULLET);
      ClosedInline(rest[2..], true);
      hide Closed;
      ClosedConcat(pad, BULLET);
      ClosedConcat(pad + BULLET, RenderInline(rest[2..], true));
      ClosedConcat(pad + BULLET + RenderInline(rest[2..], true), "\n");
    } else {
      var dot := Find(rest, ". ", 0);
      ClosedItself(rest[..dot + 2]);
      ClosedInline(rest[dot + 2..], true);
      hide Closed;
      ClosedConcat(pad, rest[..dot + 2]);
      ClosedConcat(pad + rest[..dot + 2], RenderInline(rest[dot + 2..], true));
      ClosedConcat(pad + rest[..dot + 2] + RenderInline(rest[dot + 2..], true), "\n");
    }
  }

  // ----- what the two renderers write differently -----

  /** A fence line: the newline stands before or after the reset. */
  lemma FenceShown(line: string)
    requires EscapeFree(line)
    ensures SameShown(DIM + (line + "\n") + RESET, DIM + line + RESET + "\n")
  {
    Codes();
    ShowsItself("\n");
    ShowsStyled(DIM, line + "\n");
    ShowsStyled(DIM, line);
    hide IsCode;
    ShowsConcat(DIM + line + RESET, line, "\n", "\n");
  }

  /** A diagram, or the text of a block that no diagram renderer accepts. */
  lemma DrawingShown(mermaid: string, cfg: Config)
    requires EscapeFree(mermaid) && DiagramsClose(cfg)
    ensures SameShown(DrawOrShow(mermaid, cfg), Draw(mermaid, cfg))
  {
    if cfg.diagram(mermaid).NotDrawn? {
      FenceShown("```mermaid");
      FenceShown("```");
      ShowsItself(mermaid);
      assert "```mermaid" + "\n" == "```mermaid\n" && "```" + "\n" == "```\n";
      hide SameShown;
      assert SameShown(mermaid, mermaid) by { SameItself(mermaid); }
      SameShownConcat(DIM + "```mermaid\n" + RESET, DIM + "```mermaid" + RESET + "\n", mermaid, mermaid);
      SameShownConcat(DIM + "```mermaid\n" + RESET + mermaid, DIM + "```mermaid" + RESET + "\n" + mermaid,
                      DIM + "```\n" + RESET, DIM + "```" + RESET + "\n");
    }
  }

  lemma SameItself(s: string)
    requires EscapeFree(s)
    ensures SameShown(s, s)
  {
    ShowsItself(s);
  }

  lemma SameClosed(s: string)
    requires Closed(s)
    ensures SameShown(s, s)
  {
  }

  // ----- the hypotheses -----

  /** A diagram renderer leaves the terminal outside an escape sequence. */
  ghost predicate DiagramsClose(cfg: Config) {
    forall m :: cfg.diagram(m).Drawn? ==> Closed(cfg.diagram(m).output)
  }

  /** The fence opens a mermaid block for the streaming renderer only, because of a blank before the tag. */
  predicate BlankBeforeMermaid(line: string) {
    IsFence(line) && DropTrailing(line[3..]) != "mermaid" && DropTrailing(DropLeading(line[3..])) == "mermaid"
  }

  /** A line that the two renderers treat alike, when the batch renderer has reached the state `b`. */
  ghost predicate Tame(b: Batch, line: string) {
    && EscapeFree(line)
    && (!b.inCode ==> !BlankBeforeMermaid(line))
    && (b.inCode && b.lang == "mermaid" && IsFence(line) ==> b.mermaid != "")
  }

  ghost predicate AllTame(b: Batch, lines: seq<string>, cfg: Config)
    decreases |lines|
  {
    lines == [] || (Tame(b, lines[0]) && AllTame(BatchLine(b, lines[0], cfg, true), lines[1..], cfg))
  }

  /** A line on which they agree. */
  ghost predicate Agreeable(b: Batch, line: string) {
    !Hidden(line) && Tame(b, line)
  }

  ghost predicate AllAgreeable(b: Batch, lines: seq<string>, cfg: Config)
    decreases |lines|
  {
    lines == [] || (Agreeable(b, lines[0]) && AllAgreeable(BatchLine(b, lines[0], cfg, true), lines[1..], cfg))
  }

  // ----- the simulation -----

  ghost predicate Related(st: State, b: Batch) {
    && st.buf == "" && SameShown(st.out, b.result)
    && st.table == b.table && RowsEscapeFree(b.table) && st.inCode == b.inCode
    && (b.inCode ==> b.table == [] && (st.lang == "mermaid" <==> b.lang == "mermaid"))
    && (b.inCode && b.lang == "mermaid" ==> st.mermaid == b.mermaid && EscapeFree(b.mermaid))
  }

  lemma TablesFlushed(st: State, b: Batch, cfg: Config)
    requires Related(st, b)
    ensures Related(Streaming.FlushRows(st, cfg, true), Markdown.FlushTable(b, cfg, true))
    ensures Markdown.FlushTable(b, cfg, true).table == []
  {
    if b.table != [] {
      TableClosed(b.table, cfg.width, true);
      SameClosed(Table.RenderTable(b.table, cfg.width, true));
      hide SameShown;
      var shown := Table.RenderTable(b.table, cfg.width, true);
      SameShownConcat(st.out, b.result, shown, shown);
    }
  }

  lemma TagAgrees(line: string)
    requires IsFence(line) && !BlankBeforeMermaid(line)
    ensures DropTrailing(DropLeading(line[3..])) == "mermaid" <==> DropTrailing(line[3..]) == "mermaid"
  {
    assert line[3..] != "" ==> line[3..][0] == line[3];
    if line[3..] != "" && line[3] == ' ' && DropTrailing(line[3..]) == "mermaid" {
      DropTrailingPrefix(line[3..]);
    }
  }

  lemma {:induction false} DropTrailingPrefix(s: string)
    ensures DropTrailing(s) <= s
  {
    if s != "" && s[|s| - 1] == ' ' {
      DropTrailingPrefix(s[..|s| - 1]);
    }
  }

  /** A line inside a code block and a fence, when no table is held back. */
  lemma CodeRelated(st: State, b: Batch, line: string, cfg: Config)
    requires Related(st, b) && b.table == [] && Agreeable(b, line) && DiagramsClose(cfg)
    requires IsFence(line) || b.inCode
    ensures Related(if IsFence(line) then FenceLine(st, line, cfg)
                    else if st.lang == "mermaid" then st.(mermaid := st.mermaid + line + "\n")
                    else st.(out := st.out + (Highlight.HighlightLine(line, cfg.language(st.lang)) + "\n")),
                    CodeLine(b, line, cfg))
  {
    hide SameShown, Hidden, BlankBeforeMermaid, DropTrailing, DropLeading, DiagramsClose;
    FenceShown(line);
    if IsFence(line) {
      if b.inCode && b.lang == "mermaid" {
        DrawingShown(b.mermaid, cfg);
        SameShownConcat(st.out, b.result, DrawOrShow(b.mermaid, cfg), Draw(b.mermaid, cfg));
      } else {
        if !b.inCode { TagAgrees(line); }
        SameShownConcat(st.out, b.result, DIM + (line + "\n") + RESET, DIM + line + RESET + "\n");
      }
    } else if b.lang != "mermaid" {
      HighlightShown(line, cfg.language(st.lang), cfg.language(b.lang));
      SameShownConcat(st.out, b.result, Highlight.HighlightLine(line, cfg.language(st.lang)) + "\n",
                      Highlight.HighlightLine(line, cfg.language(b.lang)) + "\n");
    }
  }

  /** The two renderers may disagree on the language of a code block: what is shown is the line. */
  lemma HighlightShown(line: string, a: Option<Highlight.Language>, b: Option<Highlight.Language>)
    requires EscapeFree(line)
    ensures SameShown(Highlight.HighlightLine(line, a) + "\n", Highlight.HighlightLine(line, b) + "\n")
  {
    Highlight.HighlightPreservesText(line, a);
    Highlight.HighlightPreservesText(line, b);
    SameItself("\n");
    SameShownConcat(Highlight.HighlightLine(line, a), Highlight.HighlightLine(line, b), "\n", "\n");
  }

  /** One line keeps the two renderers together. */
  lemma LineRelated(st: State, b: Batch, line: string, cfg: Config)
    requires Related(st, b) && Agreeable(b, line) && DiagramsClose(cfg)
    ensures Related(ShowLine(st, line, cfg, true), BatchLine(b, line, cfg, true))
  {
    hide Hidden, BlankBeforeMermaid, DiagramsClose, SameShown;
    var st', b' := Streaming.FlushRows(st, cfg, true), Markdown.FlushTable(b, cfg, true);
    TablesFlushed(st, b, cfg);
    if IsFence(line) || b.inCode {
      FenceIsNoRow(line);
      CodeRelated(st', b', line, cfg);
    } else if !Table.IsTableRow(line) {
      SameLine(line);
      LineClosed(line);
      SameClosed(RenderLine(line, true));
      SameShownConcat(st'.out, b'.result, RenderLine(line, true), RenderLine(line, true));
    }
  }

  lemma FenceIsNoRow(line: string)
    ensures IsFence(line) ==> !Table.IsTableRow(line)
  {
  }

  // ----- whole texts -----

  /** The streaming renderer after the complete lines of a text. */
  ghost function ShowLines(st: State, lines: seq<string>, cfg: Config): State
    decreases |lines|
  {
    if lines == [] then st else ShowLines(ShowLine(st, lines[0], cfg, true), lines[1..], cfg)
  }

  lemma {:induction false} LinesRelated(st: State, b: Batch, lines: seq<string>, cfg: Config)
    requires Related(st, b) && AllAgreeable(b, lines, cfg) && DiagramsClose(cfg)
    ensures Related(ShowLines(st, lines, cfg), BatchLines(b, lines, cfg, true))
    decreases |lines|
  {
    hide Related, Agreeable, ShowLine, BatchLine, DiagramsClose;
    if lines != [] {
      LineRelated(st, b, lines[0], cfg);
      LinesRelated(ShowLine(st, lines[0], cfg, true), BatchLine(b, lines[0], cfg, true), lines[1..], cfg);
    }
  }

  lemma {:induction false} CompleteIsLines(text: string)
    ensures Lines(text) == CompleteLines(text).0 + (if CompleteLines(text).1 == "" then [] else [CompleteLines(text).1])
    ensures '\n' !in CompleteLines(text).1
    ensures CompleteLines(text).1 == "" <==> text == "" || text[|text| - 1] == '\n'
    decreases |text|
  {
    hide Find, CompleteLines, Lines;
    var nl := Find(text, "\n", 0);
    NewlineAt(text);
    CompleteUnfold(text, nl);
    if nl >= 0 {
      CompleteIsLines(text[nl + 1..]);
    }
  }

  lemma CompleteUnfold(text: string, nl: int)
    requires nl == Find(text, "\n", 0)
    ensures nl < 0 ==> CompleteLines(text) == ([], text) && Lines(text) == if text == "" then [] else [text]
    ensures nl >= 0 ==>
              && nl < |text|
              && CompleteLines(text)
                 == ([text[..nl]] + CompleteLines(text[nl + 1..]).0, CompleteLines(text[nl + 1..]).1)
              && Lines(text) == [text[..nl]] + Lines(text[nl + 1..])
  {
    hide Find;
  }

  lemma NewlineAt(text: string)
    ensures var nl := Find(text, "\n", 0);
            (nl < 0 ==> '\n' !in text) && (nl >= 0 ==> text[nl] == '\n' && '\n' !in text[..nl])
  {
    var nl := Find(text, "\n", 0);
    forall k | 0 <= k < |text| && (nl < 0 || k < nl) ensures text[k] != '\n' {
      assert !OccursAt(text, "\n", k);
      assert text[k..k + 1] == [text[k]];
    }
    if nl >= 0 {
      assert text[nl..nl + 1] == [text[nl]];
    }
  }

  /** Feeding a text shows its complete lines and keeps the rest in the buffer. */
  lemma {:induction false} FeedLines(st: State, text: string, cfg: Config)
    requires st.buf == ""
    ensures Feed(st, text, cfg, true) == ShowLines(st, CompleteLines(text).0, cfg).(buf := CompleteLines(text).1)
    decreases |text|
  {
    hide ShowLine, Feed, Find;
    var nl := Find(text, "\n", 0);
    NewlineAt(text);
    if nl < 0 {
      FeedText(st, text, cfg, true);
      assert "" + text == text;
    } else {
      var line, rest := text[..nl], text[nl + 1..];
      assert text == (line + "\n") + rest;
      FeedConcat(st, line + "\n", rest, cfg, true);
      FeedLine(st, line, cfg, true);
      ShowLineKeepsBuf(st, line, cfg);
      FeedLines(ShowLine(st, line, cfg, true), rest, cfg);
      assert ([line] + CompleteLines(rest).0)[1..] == CompleteLines(rest).0;
    }
  }

  lemma ShowLineKeepsBuf(st: State, line: string, cfg: Config)
    ensures ShowLine(st, line, cfg, true).buf == st.buf
  {
    hide Hidden, DropTrailing, DropLeading, Highlight.HighlightLine, RenderContentLine;
  }

  // ----- the last line -----

  lemma {:induction false} BatchLinesSnoc(b: Batch, lines: seq<string>, last: string, cfg: Config)
    ensures BatchLines(b, lines + [last], cfg, true) == BatchLine(BatchLines(b, lines, cfg, true), last, cfg, true)
    ensures AllAgreeable(b, lines + [last], cfg) ==>
              AllAgreeable(b, lines, cfg) && Agreeable(BatchLines(b, lines, cfg, true), last)
    decreases |lines|
  {
    hide Agreeable, BatchLine;
    if lines == [] {
      assert [] + [last] == [last] && [last][1..] == [];
    } else {
      assert (lines + [last])[1..] == lines[1..] + [last];
      BatchLinesSnoc(BatchLine(b, lines[0], cfg, true), lines[1..], last, cfg);
    }
  }

  lemma ResetShowsNothing(a: string, b: string)
    requires SameShown(a, b)
    ensures SameShown(a + RESET, b)
  {
    Codes();
    ShowsNothing(RESET);
    SameShownConcat(a, b, RESET, "");
    assert b + "" == b;
  }

  /** The end of the stream, when the last line is complete or is not a table row. */
  lemma FinishRelated(st: State, b: Batch, rest: string, cfg: Config)
    requires Related(st, b) && DiagramsClose(cfg)
    requires rest != "" ==> Agreeable(b, rest) && (b.inCode || !Table.IsTableRow(rest))
    ensures var b' := if rest == "" then b else BatchLine(b, rest, cfg, true);
            SameShown(FinishState(st.(buf := rest), cfg, true).out, Markdown.FlushTable(b', cfg, true).result)
  {
    hide SameShown, Agreeable, DiagramsClose, ShowLine, BatchLine;
    TablesFlushed(st, b, cfg);
    var f, b1 := Streaming.FlushRows(st, cfg, true), Markdown.FlushTable(b, cfg, true);
    assert Streaming.FlushRows(st.(buf := rest), cfg, true) == f.(buf := rest);
    var g, b2 := f, b1;
    if rest != "" {
      AgreeableAfterFlush(b, rest, cfg);
      LineRelated(f, b1, rest, cfg);
      g, b2 := ShowLine(f, rest, cfg, true), BatchLine(b1, rest, cfg, true);
      NoTableLeft(b, rest, cfg);
      assert (rest + "\n")[..|rest|] == rest;
      assert f.(buf := rest + "\n").(buf := "") == f;
    }
    assert Related(g, b2);
    assert FinishState(st.(buf := rest), cfg, true) == if g.inCode then g.(out := g.out + RESET) else g;
    if g.inCode {
      ResetShowsNothing(g.out, b2.result);
    }
  }

  lemma AgreeableAfterFlush(b: Batch, line: string, cfg: Config)
    requires Agreeable(b, line)
    ensures Agreeable(Markdown.FlushTable(b, cfg, true), line)
  {
  }

  lemma NoTableLeft(b: Batch, line: string, cfg: Config)
    requires b.inCode || !Table.IsTableRow(line)
    ensures BatchLine(Markdown.FlushTable(b, cfg, true), line, cfg, true) == BatchLine(b, line, cfg, true)
    ensures b.inCode ==> BatchLine(b, line, cfg, true).table == []
    ensures !b.inCode ==> BatchLine(b, line, cfg, true).table == []
  {
    hide RenderLine, DropTrailing, Draw;
  }

  // ----- counting the lines of a table -----

  lemma {:induction false} VisibleSubset(s: string, inEscape: bool, c: char)
    requires c !in s
    ensures c !in Visible(s, inEscape)
  {
    if s != "" {
      VisibleSubset(s[1..], if s[0] == ESC then true else inEscape && !IsLetter(s[0]), c);
    }
  }

  lemma {:induction false} RenderFromPlain(line: string, i: nat)
    requires '\n' !in line && i <= |line|
    ensures '\n' !in RenderFrom(line, i)
    decreases |line| - i
  {
    if i < |line| {
      RenderedPlain(line, i);
      hide FirstMatch, Rendered;
      RenderFromPlain(line, if FirstMatch(line, i).NoMatch? then i + 1 else FirstMatch(line, i).next);
    }
  }

  lemma RenderedPlain(line: string, i: nat)
    requires '\n' !in line && i < |line|
    ensures '\n' !in Rendered(FirstMatch(line, i))
  {
    hide *;
    PartsPlain(line, i);
    MatchPlain(FirstMatch(line, i));
  }

  lemma MatchPlain(m: Match)
    requires m.Styled? ==> m.code in {BOLD_ITALIC, BOLD, ITALIC, STRIKE, CODE} && '\n' !in m.text
    requires m.Link? ==> '\n' !in m.text && '\n' !in m.url
    ensures '\n' !in Rendered(m)
  {
  }

  lemma PartsPlain(line: string, i: nat)
    requires '\n' !in line && i < |line|
    ensures var m := FirstMatch(line, i);
            && (m.Styled? ==> m.code in {BOLD_ITALIC, BOLD, ITALIC, STRIKE, CODE} && '\n' !in m.text)
            && (m.Link? ==> '\n' !in m.text && '\n' !in m.url)
  {
    hide FirstMatch;
    MatchIsMade(line, i);
  }

  lemma {:induction false} CellsPlain(line: string, start: nat, c: nat)
    requires '\n' !in line && c < |Table.CellsFrom(line, start)|
    ensures '\n' !in Table.CellsFrom(line, start)[c]
    decreases |line| - start
  {
    hide Find, Table.Trim, Table.CellsFrom;
    CellsUnfold(line, start);
    var pipe := Find(line, "|", start);
    if start < |line| {
      TrimPlain(if pipe < 0 then line[start..] else line[start..pipe]);
      if pipe >= 0 && c > 0 {
        CellsPlain(line, pipe + 1, c - 1);
      }
    }
  }

  lemma CellsUnfold(line: string, start: nat)
    ensures start >= |line| ==> Table.CellsFrom(line, start) == []
    ensures start < |line| ==>
              var pipe := Find(line, "|", start);
              && (pipe < 0 ==>
                    Table.CellsFrom(line, start) == [] || Table.CellsFrom(line, start) == [Table.Trim(line[start..])])
              && (pipe >= 0 ==> pipe < |line| && Table.CellsFrom(line, start)
                                == [Table.Trim(line[start..pipe])] + Table.CellsFrom(line, pipe + 1))
  {
    hide Find, Table.Trim;
  }

  lemma TrimPlain(s: string)
    requires '\n' !in s
    ensures '\n' !in Table.Trim(s)
  {
    TrimLeftPlain(s);
    TrimRightPlain(Table.TrimLeft(s));
  }

  lemma {:induction false} TrimLeftPlain(s: string)
    requires '\n' !in s
    ensures '\n' !in Table.TrimLeft(s)
  {
    if s != "" && s[0] == ' ' {
      TrimLeftPlain(s[1..]);
    }
  }

  lemma {:induction false} TrimRightPlain(s: string)
    requires '\n' !in s
    ensures '\n' !in Table.TrimRight(s)
  {
    if s != "" && s[|s| - 1] == ' ' {
      TrimRightPlain(s[..|s| - 1]);
    }
  }

  lemma {:induction false} RepeatPlain(c: char, n: nat)
    requires c != '\n'
    ensures '\n' !in Table.Repeat(c, n)
  {
    if n > 0 {
      RepeatPlain(c, n - 1);
    }
  }

  lemma {:induction false} DataPlain(cells: seq<string>, ws: seq<nat>, c: nat)
    requires c <= |ws| && forall k :: 0 <= k < |cells| ==> '\n' !in cells[k]
    ensures '\n' !in Table.DataFrom(cells, ws, c, true)
    decreases |ws| - c
  {
    if c < |ws| {
      hide Table.PaddedCell;
      CellPlain(if c < |cells| then cells[c] else "", ws[c]);
      DataPlain(cells, ws, c + 1);
    }
  }

  lemma CellPlain(cell: string, w: nat)
    requires '\n' !in cell
    ensures '\n' !in Table.PaddedCell(cell, w, true)
  {
    hide Table.Width, RenderFrom, Table.Repeat;
    RenderFromPlain(cell, 0);
    var vis := Table.Width(cell, true);
    RepeatPlain(' ', if vis < w then w - vis else 0);
  }

  lemma {:induction false} SeparatorPlain(ws: seq<nat>, c: nat)
    requires c <= |ws|
    ensures '\n' !in Table.SeparatorFrom(ws, c)
    decreases |ws| - c
  {
    if c < |ws| {
      RepeatPlain('-', ws[c] + 2);
      SeparatorPlain(ws, c + 1);
    }
  }

  /** Every row of a table shows one line. */
  lemma RowShowsOneLine(row: string, ws: seq<nat>)
    requires EscapeFree(row) && '\n' !in row
    ensures CountChar(StripAnsi(Table.RowText(row, ws, true)), '\n') == 1
  {
    RowClosed(row, ws, true);
    var text := Table.RowText(row, ws, true);
    var body := text[..|text| - 1];
    RowBodyPlain(row, ws);
    hide Table.RowText;
    VisibleSubset(body, false, '\n');
    VisibleConcat(body, "\n", false);
    BodyClosed(body);
    assert Visible("\n", false) == ['\n'] + Visible("\n"[1..], false) == "\n";
    CountCharConcat(StripAnsi(body), "\n", '\n');
    CountCharAbsent(StripAnsi(body), '\n');
    assert CountChar("\n", '\n') == 1 + CountChar("\n"[1..], '\n') == 1;
  }

  /** A newline does not end an escape sequence, so what precedes it was outside one. */
  lemma BodyClosed(body: string)
    requires Closed(body + "\n")
    ensures Closed(body)
  {
    VisibleConcat(body, "\n", false);
    var e := EscapeAfter(body, false);
    assert EscapeAfter("\n", e) == EscapeAfter("\n"[1..], e) == e;
  }

  lemma RowBodyPlain(row: string, ws: seq<nat>)
    requires '\n' !in row
    ensures var text := Table.RowText(row, ws, true);
            text != "" && text == text[..|text| - 1] + "\n" && '\n' !in text[..|text| - 1]
  {
    var text := Table.RowText(row, ws, true);
    if Table.IsTableSeparator(row) {
      SeparatorPlain(ws, 0);
      hide Table.SeparatorFrom;
      assert text[..|text| - 1] == DIM + ("|" + Table.SeparatorFrom(ws, 0)) + RESET;
    } else {
      var cells := Table.Cells(row);
      forall k | 0 <= k < |cells| ensures '\n' !in cells[k] {
        CellsPlain(row, if Table.IsTableRow(row) then 1 else 0, k);
      }
      DataPlain(cells, ws, 0);
      hide Table.DataFrom;
      assert text[..|text| - 1] == Table.DataRow(cells, ws, true);
    }
  }

  lemma {:induction false} RowsShowLines(rows: seq<string>, ws: seq<nat>)
    requires RowsEscapeFree(rows) && forall r :: 0 <= r < |rows| ==> '\n' !in rows[r]
    ensures CountChar(StripAnsi(Table.RowTexts(rows, ws, true)), '\n') == |rows|
  {
    if rows != [] {
      var first, rest := Table.RowText(rows[0], ws, true), Table.RowTexts(rows[1..], ws, true);
      RowShowsOneLine(rows[0], ws);
      RowsShowLines(rows[1..], ws);
      RowClosed(rows[0], ws, true);
      hide Table.RowText;
      VisibleConcat(first, rest, false);
      CountCharConcat(StripAnsi(first), StripAnsi(rest), '\n');
    }
  }

  /** A row more is a line more, unless the whole table shows nothing. */
  lemma LongerTableDiffers(rows: seq<string>, row: string, width: int)
    requires RowsEscapeFree(rows + [row]) && forall r :: 0 <= r < |rows + [row]| ==> '\n' !in (rows + [row])[r]
    ensures StripAnsi(Table.RenderTable(rows, width, true)) == StripAnsi(Table.RenderTable(rows + [row], width, true))
            <==> Table.NumCols(rows + [row]) == 0
  {
    hide Table.NumCols, Table.RowTexts;
    Table.NumColsSnoc(rows, row);
    assert forall r :: 0 <= r < |rows| ==> rows[r] == (rows + [row])[r];
    if Table.NumCols(rows + [row]) != 0 {
      RowsShowLines(rows + [row], Table.ColWidths(rows + [row], width, true));
      if Table.NumCols(rows) != 0 {
        RowsShowLines(rows, Table.ColWidths(rows, width, true));
      } else {
        assert CountChar(StripAnsi(""), '\n') == 0;
      }
    }
  }

  lemma {:induction false} TableRowsAreLines(b: Batch, lines: seq<string>, cfg: Config, r: nat)
    requires r < |BatchLines(b, lines, cfg, true).table|
    ensures BatchLines(b, lines, cfg, true).table[r] in b.table + lines
    decreases |lines|
  {
    if lines != [] {
      var b' := BatchLine(b, lines[0], cfg, true);
      TableRowsAreLines(b', lines[1..], cfg, r);
      TableGrows(b, lines[0], cfg);
    }
  }

  lemma TableGrows(b: Batch, line: string, cfg: Config)
    ensures var t := BatchLine(b, line, cfg, true).table;
            t == [] || t == b.table || t == b.table + [line]
  {
    hide RenderLine, DropTrailing, Draw;
  }

  lemma {:induction false} CompletePlain(text: string, k: nat)
    requires k < |CompleteLines(text).0|
    ensures '\n' !in CompleteLines(text).0[k]
    decreases |text|
  {
    NewlineAt(text);
    if k > 0 {
      CompletePlain(text[Find(text, "\n", 0) + 1..], k - 1);
    }
  }

  // ----- the refinement -----

  /** The text ends, without a newline, in a row of a table that shows anything. */
  ghost predicate LosesLastRow(text: string, cfg: Config) {
    var (lines, rest) := CompleteLines(text);
    var b := BatchLines(START, lines, cfg, true);
    !b.inCode && Table.IsTableRow(rest) && Table.NumCols(b.table + [rest]) > 0
  }

  lemma StartRelated()
    ensures Related(INIT, START)
  {
  }

  /** The stream's last, incomplete row is dropped: the renderers then agree only on a table that shows nothing. */
  lemma LastRowLost(st: State, b: Batch, rest: string, cfg: Config)
    requires Related(st, b) && Agreeable(b, rest) && !b.inCode && Table.IsTableRow(rest)
    requires '\n' !in rest && forall r :: 0 <= r < |b.table| ==> '\n' !in b.table[r]
    ensures StripAnsi(FinishState(st.(buf := rest), cfg, true).out)
            == StripAnsi(Markdown.FlushTable(BatchLine(b, rest, cfg, true), cfg, true).result)
            <==> Table.NumCols(b.table + [rest]) == 0
  {
    var rows := b.table + [rest];
    LongerTableDiffers(b.table, rest, cfg.width);
    var x, y := Table.RenderTable(b.table, cfg.width, true), Table.RenderTable(rows, cfg.width, true);
    VisibleConcat(st.out, x, false);
    VisibleConcat(b.result, y, false);
    FinishRow(st, b, rest, cfg);
    hide Table.RenderTable, Table.NumCols, FinishState, BatchLine;
    assert StripAnsi(st.out + x) == StripAnsi(st.out) + StripAnsi(x);
    assert StripAnsi(b.result + y) == StripAnsi(st.out) + StripAnsi(y);
    SamePrefix(StripAnsi(st.out), StripAnsi(x), StripAnsi(y));
  }

  lemma SamePrefix(a: string, x: string, y: string)
    ensures a + x == a + y <==> x == y
  {
    if a + x == a + y {
      assert (a + x)[|a|..] == x && (a + y)[|a|..] == y;
    }
  }

  lemma FinishRow(st: State, b: Batch, rest: string, cfg: Config)
    requires Related(st, b) && Agreeable(b, rest) && !b.inCode && Table.IsTableRow(rest)
    ensures FinishState(st.(buf := rest), cfg, true).out == st.out + Table.RenderTable(b.table, cfg.width, true)
    ensures Markdown.FlushTable(BatchLine(b, rest, cfg, true), cfg, true).result
            == b.result + Table.RenderTable(b.table + [rest], cfg.width, true)
  {
    hide Hidden, BlankBeforeMermaid, SameShown;
    FenceIsNoRow(rest);
    assert (rest + "\n")[..|rest|] == rest;
    if b.table == [] {
      assert Table.RenderTable([], cfg.width, true) == "" && st.out + "" == st.out;
    }
  }

  /** On a text without tagged lines the streaming renderer shows what the batch renderer shows, unless the text ends
      in a table row without a newline: then, and only then, the two differ. */
  lemma UntaggedTextRefines(text: string, cfg: Config)
    requires DiagramsClose(cfg) && AllAgreeable(START, Lines(text), cfg)
    ensures StripAnsi(FinishState(Feed(INIT, text, cfg, true), cfg, true).out)
            == StripAnsi(RenderLines(text, cfg, true))
            <==> !LosesLastRow(text, cfg)
  {
    hide Feed, FinishState, BatchLine, Agreeable, DiagramsClose, Find, Related, Lines, CompleteLines, ShowLine,
      Table.NumCols;
    var (lines, rest) := CompleteLines(text);
    CompleteIsLines(text);
    BatchLinesSnoc(START, lines, rest, cfg);
    assert lines + [] == lines;
    FeedLines(INIT, text, cfg);
    StartRelated();
    LinesRelated(INIT, START, lines, cfg);
    var st, b := ShowLines(INIT, lines, cfg), BatchLines(START, lines, cfg, true);
    if !b.inCode && Table.IsTableRow(rest) {
      forall r | 0 <= r < |b.table| ensures '\n' !in b.table[r] {
        TableRowsAreLines(START, lines, cfg, r);
        assert [] + lines == lines;
        var k :| 0 <= k < |lines| && lines[k] == b.table[r];
        CompletePlain(text, k);
      }
      LastRowLost(st, b, rest, cfg);
    } else {
      FinishRelated(st, b, rest, cfg);
    }
  }

  // ----- tagged lines -----

  /** The lines without an annotation tag. */
  ghost function Untagged(lines: seq<string>): seq<string>
    decreases |lines|
  {
    if lines == [] then [] else (if Hidden(lines[0]) then [] else [lines[0]]) + Untagged(lines[1..])
  }

  /** The text without its tagged lines. */
  ghost function UntaggedText(text: string): string {
    var (lines, rest) := CompleteLines(text);
    Unlines(Untagged(lines)) + (if Hidden(rest) then "" else rest)
  }

  lemma {:induction false} UntaggedLine(lines: seq<string>, k: nat)
    requires k < |Untagged(lines)|
    ensures !Hidden(Untagged(lines)[k]) && Untagged(lines)[k] in lines
    decreases |lines|
  {
    hide Hidden;
    var n := if Hidden(lines[0]) then 0 else 1;
    if k >= n {
      UntaggedLine(lines[1..], k - n);
    }
  }

  lemma {:induction false} NothingTagged(lines: seq<string>)
    requires forall k :: 0 <= k < |lines| ==> !Hidden(lines[k])
    ensures Untagged(lines) == lines
    decreases |lines|
  {
    hide Hidden;
    if lines != [] {
      NothingTagged(lines[1..]);
    }
  }

  lemma CompleteOfLine(rest: string)
    requires '\n' !in rest
    ensures CompleteLines(rest) == ([], rest)
  {
    hide Find;
    NewlineAt(rest);
    CompleteUnfold(rest, Find(rest, "\n", 0));
  }

  lemma CompleteFirst(line: string, tail: string)
    requires '\n' !in line
    ensures CompleteLines(line + "\n" + tail) == ([line] + CompleteLines(tail).0, CompleteLines(tail).1)
  {
    hide Find, CompleteLines;
    var text := line + "\n" + tail;
    FindChar(text, '\n', 0, |line|);
    CompleteUnfold(text, |line|);
    assert text[..|line|] == line && text[|line| + 1..] == tail;
  }

  lemma {:induction false} CompleteOfUnlines(lines: seq<string>, rest: string)
    requires '\n' !in rest && forall k :: 0 <= k < |lines| ==> '\n' !in lines[k]
    ensures CompleteLines(Unlines(lines) + rest) == (lines, rest)
    decreases |lines|
  {
    hide CompleteLines;
    if lines == [] {
      CompleteOfLine(rest);
      assert Unlines(lines) + rest == rest;
    } else {
      var tail := Unlines(lines[1..]) + rest;
      assert Unlines(lines) + rest == lines[0] + "\n" + tail;
      CompleteFirst(lines[0], tail);
      CompleteOfUnlines(lines[1..], rest);
      assert lines == [lines[0]] + lines[1..];
    }
  }

  lemma {:induction false} UnlinesOfComplete(text: string)
    ensures Unlines(CompleteLines(text).0) + CompleteLines(text).1 == text
    decreases |text|
  {
    hide Find, CompleteLines;
    var nl := Find(text, "\n", 0);
    NewlineAt(text);
    CompleteUnfold(text, nl);
    if nl >= 0 {
      UnlinesOfComplete(text[nl + 1..]);
      var rest := CompleteLines(text[nl + 1..]);
      assert ([text[..nl]] + rest.0)[1..] == rest.0;
      assert text == text[..nl] + "\n" + text[nl + 1..];
    }
  }

  /** What is dropped: the text splits into the untagged lines and the untagged rest. */
  lemma UntaggedParts(text: string)
    ensures var (lines, rest) := CompleteLines(text);
            CompleteLines(UntaggedText(text)) == (Untagged(lines), if Hidden(rest) then "" else rest)
  {
    hide Hidden, Untagged, CompleteLines, Lines;
    var (lines, rest) := CompleteLines(text);
    CompleteIsLines(text);
    forall k | 0 <= k < |Untagged(lines)| ensures '\n' !in Untagged(lines)[k] {
      UntaggedLine(lines, k);
      var i :| 0 <= i < |lines| && lines[i] == Untagged(lines)[k];
      CompletePlain(text, i);
    }
    CompleteOfUnlines(Untagged(lines), if Hidden(rest) then "" else rest);
  }

  /** A text without tagged lines stays as it is. */
  lemma {:induction false} UntaggedIsText(text: string)
    requires forall k :: 0 <= k < |CompleteLines(text).0| ==> !Hidden(CompleteLines(text).0[k])
    requires !Hidden(CompleteLines(text).1)
    ensures UntaggedText(text) == text
  {
    hide Hidden, CompleteLines;
    NothingTagged(CompleteLines(text).0);
    UnlinesOfComplete(text);
  }

  lemma {:induction false} ShowUntagged(st: State, lines: seq<string>, cfg: Config)
    ensures ShowLines(st, lines, cfg) == ShowLines(st, Untagged(lines), cfg)
    decreases |lines|
  {
    hide Hidden, ShowLine;
    if lines != [] {
      ShowUntagged(ShowLine(st, lines[0], cfg, true), lines[1..], cfg);
      if Hidden(lines[0]) {
        HiddenChangesNothing(st, lines[0], cfg);
        assert Untagged(lines) == Untagged(lines[1..]);
      } else {
        assert Untagged(lines)[1..] == Untagged(lines[1..]);
      }
    }
  }

  lemma HiddenChangesNothing(st: State, line: string, cfg: Config)
    requires Hidden(line)
    ensures ShowLine(st, line, cfg, true) == st
  {
    hide Hidden;
  }

  lemma FinishHidden(st: State, rest: string, cfg: Config)
    requires st.buf == "" && Hidden(rest)
    ensures FinishState(st.(buf := rest), cfg, true) == FinishState(st, cfg, true)
  {
    hide Hidden, ShowLine;
    var f := Streaming.FlushRows(st, cfg, true);
    assert Streaming.FlushRows(st.(buf := rest), cfg, true) == f.(buf := rest);
    assert (rest + "\n")[..|rest|] == rest;
    assert f.(buf := rest + "\n").(buf := "") == f;
    HiddenChangesNothing(f, rest, cfg);
  }

  /** Tagged lines leave no trace in the stream. */
  lemma TaggedLinesAreHidden(text: string, cfg: Config)
    ensures FinishState(Feed(INIT, text, cfg, true), cfg, true)
            == FinishState(Feed(INIT, UntaggedText(text), cfg, true), cfg, true)
  {
    hide Hidden, Feed, FinishState, CompleteLines, Untagged, UntaggedText, ShowLine;
    var (lines, rest) := CompleteLines(text);
    UntaggedParts(text);
    FeedLines(INIT, text, cfg);
    FeedLines(INIT, UntaggedText(text), cfg);
    ShowUntagged(INIT, lines, cfg);
    if Hidden(rest) {
      ShowLinesKeepBuf(INIT, lines, cfg);
      FinishHidden(ShowLines(INIT, lines, cfg), rest, cfg);
    }
  }

  lemma {:induction false} ShowLinesKeepBuf(st: State, lines: seq<string>, cfg: Config)
    ensures ShowLines(st, lines, cfg).buf == st.buf
    ensures ShowLines(st, lines, cfg).(buf := st.buf) == ShowLines(st, lines, cfg)
    decreases |lines|
  {
    hide ShowLine;
    if lines != [] {
      ShowLineKeepsBuf(st, lines[0], cfg);
      ShowLinesKeepBuf(ShowLine(st, lines[0], cfg, true), lines[1..], cfg);
    }
  }

  lemma {:induction false} TameIsAgreeable(b: Batch, lines: seq<string>, cfg: Config)
    requires AllTame(b, lines, cfg) && forall k :: 0 <= k < |lines| ==> !Hidden(lines[k])
    ensures AllAgreeable(b, lines, cfg)
    decreases |lines|
  {
    hide Hidden, Tame, BatchLine;
    if lines != [] {
      TameIsAgreeable(BatchLine(b, lines[0], cfg, true), lines[1..], cfg);
    }
  }

  lemma UntaggedLinesShown(text: string)
    ensures forall k :: 0 <= k < |Lines(UntaggedText(text))| ==> !Hidden(Lines(UntaggedText(text))[k])
  {
    hide Hidden, Untagged, CompleteLines, Lines, UntaggedText;
    var (lines, rest) := CompleteLines(text);
    UntaggedParts(text);
    CompleteIsLines(UntaggedText(text));
    forall k | 0 <= k < |Untagged(lines)| ensures !Hidden(Untagged(lines)[k]) {
      UntaggedLine(lines, k);
    }
  }

  /** The streaming renderer shows of a text what the batch renderer shows of the text without its tagged lines,
      unless that ends in a table row without a newline: then, and only then, the two differ. */
  lemma StreamRefinesBatch(text: string, cfg: Config)
    requires DiagramsClose(cfg) && AllTame(START, Lines(UntaggedText(text)), cfg)
    ensures StripAnsi(FinishState(Feed(INIT, text, cfg, true), cfg, true).out)
            == StripAnsi(RenderLines(UntaggedText(text), cfg, true))
            <==> !LosesLastRow(UntaggedText(text), cfg)
  {
    hide *;
    TaggedLinesAreHidden(text, cfg);
    UntaggedLinesShown(text);
    TameIsAgreeable(START, Lines(UntaggedText(text)), cfg);
    UntaggedTextRefines(UntaggedText(text), cfg);
  }

  /** The same for a text that arrives in any tokens. */
  lemma TokensRefineBatch(tokens: seq<string>, cfg: Config)
    requires DiagramsClose(cfg) && AllTame(START, Lines(UntaggedText(Joined(tokens))), cfg)
    ensures StripAnsi(FinishState(FeedAll(INIT, tokens, cfg, true), cfg, true).out)
            == StripAnsi(RenderLines(UntaggedText(Joined(tokens)), cfg, true))
            <==> !LosesLastRow(UntaggedText(Joined(tokens)), cfg)
  {
    hide *;
    TokensDoNotMatter(INIT, tokens, cfg, true);
    StreamRefinesBatch(Joined(tokens), cfg);
  }
}
