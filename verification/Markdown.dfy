/** Block-level markdown (src/tui/markdown.cpp): one line at a time, and the batch renderer over whole texts. The
    terminal width, the highlighter's language tables and the diagram renderers are parameters. */
module Markdown {
  import opened Ansi
  import opened Inline
  import Highlight
  import Table
  import opened Text
  import opened Wrappers

  /** `language` is the table lookup by fence tag; `diagram` is the output of the first diagram renderer that
      accepts the text, if any does. */
  datatype Config = Config(width: int, language: string -> Option<Highlight.Language>, diagram: string -> Drawing)

  datatype Drawing = NotDrawn | Drawn(output: string)

  const DASH := "\U{E2}\U{94}\U{80}"
  const QUOTE_BAR := "\U{1B}[2m\U{E2}\U{94}\U{82}\U{1B}[0m "
  const BULLET := "\U{E2}\U{80}\U{A2} "
  const FENCE := "```"

  // ----- one line -----

  /** The scan for a rule: at least three equal marks and blanks. `mark` is the mark seen first, if any. */
  function RuleFrom(line: string, i: nat, mark: string, count: nat): bool
    requires i <= |line| && |mark| <= 1
    decreases |line| - i
  {
    if i == |line| then count >= 3
    else if line[i] == ' ' then RuleFrom(line, i + 1, mark, count)
    else if line[i] !in {'-', '*', '_'} || (mark != "" && mark[0] != line[i]) then false
    else RuleFrom(line, i + 1, [line[i]], count + 1)
  }

  function IsHorizontalRule(line: string): bool {
    |line| >= 3 && RuleFrom(line, 0, "", 0)
  }

  /** Blanks and at least `3 - count` times the mark, from `i` on. */
  ghost predicate OnlyMarks(line: string, i: nat, mark: char, count: nat)
    requires i <= |line|
  {
    (forall k :: i <= k < |line| ==> line[k] == mark || line[k] == ' ') && count + CountChar(line[i..], mark) >= 3
  }

  ghost predicate IsMark(c: char) {
    c == '-' || c == '*' || c == '_'
  }

  lemma OnlyMarksStep(line: string, i: nat, mark: char, count: nat)
    requires i < |line| && IsMark(mark)
    ensures OnlyMarks(line, i, mark, count) <==>
            (line[i] == ' ' && OnlyMarks(line, i + 1, mark, count))
              || (line[i] == mark && OnlyMarks(line, i + 1, mark, count + 1))
  {
    assert line[i..][1..] == line[i + 1..] && line[i..][0] == line[i];
  }

  lemma {:induction false} MarkedRule(line: string, i: nat, mark: char, count: nat)
    requires i <= |line| && IsMark(mark)
    ensures RuleFrom(line, i, [mark], count) <==> OnlyMarks(line, i, mark, count)
    decreases |line| - i
  {
    if i < |line| {
      OnlyMarksStep(line, i, mark, count);
      MarkedRule(line, i + 1, mark, count);
      MarkedRule(line, i + 1, mark, count + 1);
      hide OnlyMarks;
    }
  }

  lemma {:induction false} UnmarkedRule(line: string, i: nat)
    requires i <= |line|
    ensures RuleFrom(line, i, "", 0) <==> exists mark: char :: IsMark(mark) && OnlyMarks(line, i, mark, 0)
    decreases |line| - i
  {
    if i < |line| {
      forall mark: char | IsMark(mark)
        ensures OnlyMarks(line, i, mark, 0) <==>
                (line[i] == ' ' && OnlyMarks(line, i + 1, mark, 0))
                  || (line[i] == mark && OnlyMarks(line, i + 1, mark, 1))
      {
        OnlyMarksStep(line, i, mark, 0);
      }
      hide OnlyMarks;
      if line[i] == ' ' {
        UnmarkedRule(line, i + 1);
      } else if IsMark(line[i]) {
        MarkedRule(line, i + 1, line[i], 1);
      }
    }
  }

  /** At least three times the mark, with blanks anywhere and nothing else. */
  ghost predicate AllMarks(line: string, mark: char) {
    CountChar(line, mark) >= 3 && forall k :: 0 <= k < |line| ==> line[k] == mark || line[k] == ' '
  }

  /** What the scan accepts: at least three equal marks, and blanks. */
  lemma RuleIsMarks(line: string)
    ensures IsHorizontalRule(line) <==> exists mark: char :: IsMark(mark) && AllMarks(line, mark)
  {
    UnmarkedRule(line, 0);
    hide RuleFrom;
    forall mark: char ensures OnlyMarks(line, 0, mark, 0) <==> AllMarks(line, mark) {
      assert line[0..] == line;
    }
    forall mark: char ensures AllMarks(line, mark) ==> |line| >= 3 {
      CountFits(line, mark);
    }
  }

  lemma {:induction false} CountFits(s: string, c: char)
    ensures CountChar(s, c) <= |s|
    decreases |s|
  {
    if s != "" {
      CountFits(s[1..], c);
    }
  }

  method IsHorizontalRuleLoop(line: string) returns (r: bool)
    ensures r == IsHorizontalRule(line)
  {
    if |line| < 3 { return false; }
    var mark, count := "", 0;
    for i := 0 to |line|
      invariant |mark| <= 1
      invariant RuleFrom(line, i, mark, count) == RuleFrom(line, 0, "", 0)
    {
      if line[i] != ' ' {
        if line[i] == '-' || line[i] == '*' || line[i] == '_' {
          if mark == "" { mark := [line[i]]; }
          if line[i] != mark[0] { return false; }
          assert mark == [line[i]];
          count := count + 1;
        } else {
          return false;
        }
      }
    }
    return count >= 3;
  }

  function Level(line: string, i: nat): (lvl: nat)
    requires i <= |line|
    ensures i <= lvl <= |line|
    decreases |line| - i
  {
    if i < |line| && line[i] == '#' then Level(line, i + 1) else i
  }

  /** The empty string when the line is no heading. */
  function TryHeading(line: string): string {
    if line == "" || line[0] != '#' then ""
    else
      var lvl := Level(line, 0);
      if lvl == |line| || line[lvl] != ' ' then "" else "\U{1B}[1;4m" + line[lvl + 1..] + RESET + "\n"
  }

  function Indent(line: string, i: nat): (n: nat)
    requires i <= |line|
    ensures i <= n <= |line|
    decreases |line| - i
  {
    if i < |line| && (line[i] == ' ' || line[i] == '\t') then Indent(line, i + 1) else i
  }

  method IndentLoop(line: string) returns (indent: nat)
    ensures indent == Indent(line, 0) <= |line|
    ensures forall k :: 0 <= k < indent ==> line[k] == ' ' || line[k] == '\t'
    ensures indent < |line| ==> line[indent] != ' ' && line[indent] != '\t'
  {
    indent := 0;
    while indent < |line| && (line[indent] == ' ' || line[indent] == '\t')
      invariant indent <= |line| && Indent(line, indent) == Indent(line, 0)
      invariant forall k :: 0 <= k < indent ==> line[k] == ' ' || line[k] == '\t'
    {
      indent := indent + 1;
    }
  }

  /** The empty string when the line is no list item. */
  function TryList(line: string, color: bool): string {
    var indent := Indent(line, 0);
    var rest := line[indent..];
    var pad := Table.Repeat(' ', 2 + indent);
    if |rest| >= 2 && (rest[0] == '-' || rest[0] == '*') && rest[1] == ' ' then
      pad + BULLET + RenderInline(rest[2..], color) + "\n"
    else if rest != "" && '1' <= rest[0] <= '9' then
      var dot := Find(rest, ". ", 0);
      if 0 <= dot <= 3 then pad + rest[..dot + 2] + RenderInline(rest[dot + 2..], color) + "\n" else ""
    else ""
  }

  function RuleText(color: bool): string {
    if color then DIM + (DASH + DASH + DASH + DASH + DASH + DASH + DASH + DASH + DASH + DASH
                         + DASH + DASH + DASH + DASH + DASH + DASH + DASH + DASH + DASH + DASH) + RESET + "\n"
    else "--------------------\n"
  }

  function QuoteText(line: string): string
    requires line != ""
  {
    if |line| > 1 && line[1] == ' ' then line[2..] else line[1..]
  }

  /** `render_line`. */
  function RenderLine(line: string, color: bool): string {
    if IsHorizontalRule(line) then RuleText(color)
    else if TryHeading(line) != "" then TryHeading(line)
    else if line != "" && line[0] == '>' then
      if color then QUOTE_BAR + RenderInline(QuoteText(line), color) + "\n" else "| " + QuoteText(line) + "\n"
    else if TryList(line, color) != "" then TryList(line, color)
    else RenderInline(line, color) + "\n"
  }

  /** The order in which the streaming renderer tries the same forms (`render_content_line`). */
  function RenderContentLine(line: string, color: bool): string {
    if line != "" && line[0] == '#' && TryHeading(line) != "" then TryHeading(line)
    else if IsHorizontalRule(line) then RuleText(true)
    else if line != "" && line[0] == '>' then QUOTE_BAR + RenderInline(QuoteText(line), color) + "\n"
    else if TryList(line, color) != "" then TryList(line, color)
    else RenderInline(line, color) + "\n"
  }

  /** A heading is never a rule, so the two orders agree. */
  lemma SameLine(line: string)
    ensures RenderContentLine(line, true) == RenderLine(line, true)
  {
    hide RenderInline, TryList, RuleText;
  }

  // ----- the batch renderer -----

  predicate IsFence(line: string) {
    FENCE <= line
  }

  function DropTrailing(s: string): (r: string)
    ensures |r| <= |s|
  {
    if s != "" && s[|s| - 1] == ' ' then DropTrailing(s[..|s| - 1]) else s
  }

  function DropLeading(s: string): (r: string)
    ensures |r| <= |s|
  {
    if s != "" && s[0] == ' ' then DropLeading(s[1..]) else s
  }

  datatype Batch = Batch(result: string, inCode: bool, lang: string, mermaid: string, table: seq<string>)

  function FlushTable(b: Batch, cfg: Config, color: bool): Batch {
    if b.table == [] then b else b.(result := b.result + Table.RenderTable(b.table, cfg.width, color), table := [])
  }

  function Draw(mermaid: string, cfg: Config): string {
    match cfg.diagram(mermaid)
    case Drawn(output) => output
    case NotDrawn => (DIM + "```mermaid" + RESET + "\n") + mermaid + (DIM + "```" + RESET + "\n")
  }

  /** A line inside a code block, or the fence that opens one. */
  function CodeLine(b: Batch, line: string, cfg: Config): Batch {
    if b.inCode && b.lang == "mermaid" then
      if IsFence(line) then Batch(b.result + Draw(b.mermaid, cfg), false, "", "", b.table)
      else b.(mermaid := b.mermaid + line + "\n")
    else if !b.inCode && IsFence(line) then
      var lang := DropTrailing(line[3..]);
      if lang == "mermaid" then b.(lang := lang, inCode := true, mermaid := "")
      else b.(lang := lang, inCode := true, result := b.result + (DIM + line + RESET + "\n"))
    else if IsFence(line) then
      b.(lang := "", inCode := false, result := b.result + (DIM + line + RESET + "\n"))
    else
      b.(result := b.result + (Highlight.HighlightLine(line, cfg.language(b.lang)) + "\n"))
  }

  function BatchLine(b: Batch, line: string, cfg: Config, color: bool): Batch {
    if IsFence(line) || b.inCode then CodeLine(FlushTable(b, cfg, color), line, cfg)
    else if Table.IsTableRow(line) then b.(table := b.table + [line])
    else
      var flushed := FlushTable(b, cfg, color);
      flushed.(result := flushed.result + RenderLine(line, color))
  }

  function BatchLines(b: Batch, lines: seq<string>, cfg: Config, color: bool): Batch
    decreases lines
  {
    if lines == [] then b else BatchLines(BatchLine(b, lines[0], cfg, color), lines[1..], cfg, color)
  }

  const START := Batch("", false, "", "", [])

  function RenderLines(text: string, cfg: Config, color: bool): string {
    FlushTable(BatchLines(START, Lines(text), cfg, color), cfg, color).result
  }

  /** The loop over the lines of the text. */
  method RenderLinesLoop(text: string, cfg: Config, color: bool) returns (result: string)
    ensures result == RenderLines(text, cfg, color)
  {
    hide RenderLine, Draw, DropTrailing, BatchLine;
    result := "";
    var inCode, lang, mermaid: string, table: seq<string> := false, "", "", [];
    var pos := 0;
    assert text[0..] == text;
    while pos < |text|
      invariant 0 <= pos <= |text|
      invariant BatchLines(Batch(result, inCode, lang, mermaid, table), Lines(text[pos..]), cfg, color)
                == BatchLines(START, Lines(text), cfg, color)
    {
      var nl := Find(text, "\n", pos);
      var line := if nl < 0 then text[pos..] else text[pos..nl];
      NextLine(text, pos, Batch(result, inCode, lang, mermaid, table), cfg, color);
      pos := if nl < 0 then |text| else nl + 1;
      result, inCode, lang, mermaid, table := RenderStep(line, cfg, color, result, inCode, lang, mermaid, table);
    }
    assert text[pos..] == "";
    if table != [] {
      result := result + Table.RenderTable(table, cfg.width, color);
    }
  }

  lemma NextLine(text: string, pos: nat, b: Batch, cfg: Config, color: bool)
    requires pos < |text|
    ensures var nl := Find(text, "\n", pos);
            var line := if nl < 0 then text[pos..] else text[pos..nl];
            var next := if nl < 0 then |text| else nl + 1;
            BatchLines(b, Lines(text[pos..]), cfg, color)
              == BatchLines(BatchLine(b, line, cfg, color), Lines(text[next..]), cfg, color)
  {
    hide BatchLine, Find, Lines;
    LinesAt(text, pos);
    var nl := Find(text, "\n", pos);
    var line := if nl < 0 then text[pos..] else text[pos..nl];
    var next := if nl < 0 then |text| else nl + 1;
    assert ([line] + Lines(text[next..]))[1..] == Lines(text[next..]);
  }

  lemma LinesAt(text: string, pos: nat)
    requires pos < |text|
    ensures var nl := Find(text, "\n", pos);
            var line := if nl < 0 then text[pos..] else text[pos..nl];
            var next := if nl < 0 then |text| else nl + 1;
            Lines(text[pos..]) == [line] + Lines(text[next..])
  {
    hide Find;
    FindInSuffix(text, pos);
    var nl, s := Find(text, "\n", pos), text[pos..];
    if nl < 0 {
      assert text[|text|..] == "" && Lines("") == [];
    } else {
      assert s[..nl - pos] == text[pos..nl] && s[nl - pos + 1..] == text[nl + 1..];
    }
  }

  lemma OneCharFits(s: string)
    ensures forall k: nat :: OccursAt(s, "\n", k) ==> k < |s|
  {
  }

  lemma FindInSuffix(text: string, pos: nat)
    requires pos <= |text|
    ensures var nl := Find(text, "\n", pos);
            Find(text[pos..], "\n", 0) == if nl < 0 then -1 else nl - pos
  {
    var nl := Find(text, "\n", pos);
    var s := text[pos..];
    forall k: nat | k < |s| ensures OccursAt(s, "\n", k) <==> OccursAt(text, "\n", pos + k) {
      assert s[k..k + 1] == text[pos + k..pos + k + 1];
    }
    hide Find, OccursAt;
    OneCharFits(s);
    if nl >= 0 {
      FindIs(s, "\n", 0, nl - pos);
    } else {
      NotFound(s, "\n", 0);
    }
  }

  /** The body of the loop, on the renderer's variables. */
  method RenderStep(line: string, cfg: Config, color: bool, result0: string, inCode0: bool, lang0: string,
                    mermaid0: string, table0: seq<string>)
    returns (result: string, inCode: bool, lang: string, mermaid: string, table: seq<string>)
    ensures Batch(result, inCode, lang, mermaid, table)
            == BatchLine(Batch(result0, inCode0, lang0, mermaid0, table0), line, cfg, color)
  {
    hide RenderLine, DropTrailing;
    result, inCode, lang, mermaid, table := result0, inCode0, lang0, mermaid0, table0;
    if IsFence(line) || inCode {
      if table != [] {
        result := result + Table.RenderTable(table, cfg.width, color);
        table := [];
      }
      if inCode && lang == "mermaid" {
        if IsFence(line) {
          result := result + Draw(mermaid, cfg);
          mermaid, inCode, lang := "", false, "";
        } else {
          mermaid := mermaid + line + "\n";
        }
      } else if !inCode && IsFence(line) {
        lang := DropTrailing(line[3..]);
        inCode := true;
        if lang == "mermaid" {
          mermaid := "";
        } else {
          result := result + (DIM + line + RESET + "\n");
        }
      } else {
        var rendered;
        rendered, inCode, lang := RenderCodeBlockLine(line, inCode, lang, cfg);
        result := result + rendered;
      }
    } else if Table.IsTableRow(line) {
      table := table + [line];
    } else {
      if table != [] {
        result := result + Table.RenderTable(table, cfg.width, color);
        table := [];
      }
      result := result + RenderLine(line, color);
    }
  }

  /** `render_code_block_line`. */
  method RenderCodeBlockLine(line: string, inCode0: bool, lang0: string, cfg: Config)
    returns (rendered: string, inCode: bool, lang: string)
    ensures IsFence(line) ==>
              && rendered == DIM + line + RESET + "\n" && inCode == !inCode0
              && lang == (if inCode0 then "" else DropTrailing(line[3..]))
    ensures !IsFence(line) ==>
              inCode == inCode0 && lang == lang0
              && rendered == Highlight.HighlightLine(line, cfg.language(lang0)) + "\n"
  {
    inCode, lang := inCode0, lang0;
    if IsFence(line) {
      lang := if !inCode then DropTrailing(line[3..]) else "";
      inCode := !inCode;
      return DIM + line + RESET + "\n", inCode, lang;
    }
    return Highlight.HighlightLine(line, cfg.language(lang)) + "\n", inCode, lang;
  }

  // ----- a code block shows itself -----

  ghost function Unlines(lines: seq<string>): string {
    if lines == [] then "" else lines[0] + "\n" + Unlines(lines[1..])
  }

  lemma {:induction false} UnlinesSnoc(lines: seq<string>, last: string)
    ensures Unlines(lines + [last]) == Unlines(lines) + last + "\n"
    decreases |lines|
  {
    if lines == [] {
      assert [last][1..] == [] && "" + last == last && last + "\n" + "" == last + "\n";
      assert lines + [last] == [last];
    } else {
      assert (lines + [last])[1..] == lines[1..] + [last];
      UnlinesSnoc(lines[1..], last);
    }
  }

  /** Lines that do not end the block they stand in. */
  ghost predicate CodeLines(lines: seq<string>) {
    forall i :: 0 <= i < |lines| ==> EscapeFree(lines[i]) && !IsFence(lines[i])
  }

  ghost predicate Added(b: Batch, b': Batch, text: string) {
    exists shown :: b'.result == b.result + shown && Shows(shown, text)
  }

  lemma AddedTwice(b: Batch, b': Batch, b'': Batch, x: string, y: string)
    requires Added(b, b', x) && Added(b', b'', y)
    ensures Added(b, b'', x + y)
  {
    hide Shows;
    var s :| b'.result == b.result + s && Shows(s, x);
    var t :| b''.result == b'.result + t && Shows(t, y);
    ShowsConcat(s, x, t, y);
    assert b''.result == b.result + (s + t);
  }

  lemma FenceShown(b: Batch, line: string, cfg: Config, color: bool)
    requires IsFence(line) && EscapeFree(line) && b.table == []
    requires if b.inCode then b.lang != "mermaid" else DropTrailing(line[3..]) != "mermaid"
    ensures var b' := BatchLine(b, line, cfg, color);
            && Added(b, b', line + "\n") && b'.inCode == !b.inCode && b'.table == [] && b'.mermaid == b.mermaid
            && b'.lang == if b.inCode then "" else DropTrailing(line[3..])
  {
    hide RenderLine, Draw, DropTrailing, Shows;
    Codes();
    ShowsStyled(DIM, line);
    ShowsItself("\n");
    ShowsConcat(DIM + line + RESET, line, "\n", "\n");
  }

  lemma CodeLineShown(b: Batch, line: string, cfg: Config, color: bool)
    requires !IsFence(line) && EscapeFree(line) && b.inCode && b.lang != "mermaid" && b.table == []
    ensures var b' := BatchLine(b, line, cfg, color);
            Added(b, b', line + "\n") && b' == b.(result := b'.result)
  {
    hide RenderLine, Draw, DropTrailing, Shows, Highlight.HighlightLine;
    var shown := Highlight.HighlightLine(line, cfg.language(b.lang));
    Highlight.HighlightPreservesText(line, cfg.language(b.lang));
    ShowsItself("\n");
    ShowsConcat(shown, line, "\n", "\n");
  }

  lemma EmptyShown()
    ensures Shows("", "")
  {
  }

  lemma {:induction false} CodeLinesShown(b: Batch, lines: seq<string>, cfg: Config, color: bool)
    requires CodeLines(lines) && b.inCode && b.lang != "mermaid" && b.table == []
    ensures var b' := BatchLines(b, lines, cfg, color);
            Added(b, b', Unlines(lines)) && b' == b.(result := b'.result)
    decreases |lines|
  {
    hide BatchLine, Shows, EscapeFree;
    if lines == [] {
      EmptyShown();
      assert b.result == b.result + "";
    } else {
      var b1 := BatchLine(b, lines[0], cfg, color);
      CodeLineShown(b, lines[0], cfg, color);
      CodeLinesShown(b1, lines[1..], cfg, color);
      AddedTwice(b, b1, BatchLines(b, lines, cfg, color), lines[0] + "\n", Unlines(lines[1..]));
    }
  }

  lemma {:induction false} BatchLinesConcat(b: Batch, xs: seq<string>, ys: seq<string>, cfg: Config, color: bool)
    ensures BatchLines(b, xs + ys, cfg, color) == BatchLines(BatchLines(b, xs, cfg, color), ys, cfg, color)
    decreases |xs|
  {
    hide BatchLine;
    if xs == [] {
      assert xs + ys == ys;
    } else {
      assert (xs + ys)[1..] == xs[1..] + ys;
      BatchLinesConcat(BatchLine(b, xs[0], cfg, color), xs[1..], ys, cfg, color);
    }
  }

  lemma FenceFlushes(b: Batch, line: string, cfg: Config, color: bool)
    requires IsFence(line)
    ensures BatchLine(b, line, cfg, color) == BatchLine(FlushTable(b, cfg, color), line, cfg, color)
  {
    hide CodeLine;
  }

  /** A code block of any language but `mermaid` shows its two fences and, between them, exactly its lines, whatever
      markdown they hold; after it the renderer is outside a block again. */
  lemma CodeBlockShowsItself(b: Batch, open: string, code: seq<string>, close: string, cfg: Config, color: bool)
    requires !b.inCode && CodeLines(code)
    requires IsFence(open) && EscapeFree(open) && DropTrailing(open[3..]) != "mermaid"
    requires IsFence(close) && EscapeFree(close)
    ensures var b' := BatchLines(b, [open] + code + [close], cfg, color);
            && Added(FlushTable(b, cfg, color), b', Unlines([open] + code + [close]))
            && b' == FlushTable(b, cfg, color).(result := b'.result, lang := "")
  {
    hide BatchLine, Shows, EscapeFree, IsFence, CodeLines, Added, DropTrailing;
    FenceFlushes(b, open, cfg, color);
    assert BatchLines(b, [open] + code + [close], cfg, color)
           == BatchLines(FlushTable(b, cfg, color), [open] + code + [close], cfg, color);
    var f := FlushTable(b, cfg, color);
    var b1 := BatchLine(f, open, cfg, color);
    FenceShown(f, open, cfg, color);
    CodeLinesShown(b1, code, cfg, color);
    var b2 := BatchLines(b1, code, cfg, color);
    FenceShown(b2, close, cfg, color);
    var b3 := BatchLine(b2, close, cfg, color);
    BatchLinesConcat(f, [open] + code, [close], cfg, color);
    assert BatchLines(f, [open] + code, cfg, color) == b2 by { assert ([open] + code)[1..] == code; }
    assert BatchLines(b2, [close], cfg, color) == b3 by { assert [close][1..] == []; }
    AddedTwice(f, b1, b2, open + "\n", Unlines(code));
    AddedTwice(f, b2, b3, open + "\n" + Unlines(code), close + "\n");
    UnlinesSnoc([open] + code, close);
    assert Unlines([open] + code) == open + "\n" + Unlines(code) by { assert ([open] + code)[1..] == code; }
    assert Unlines([open] + code) + (close + "\n") == Unlines([open] + code) + close + "\n";
  }
}
