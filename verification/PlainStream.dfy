/** The streaming renderer without colour (src/tui/markdown_stream.cpp): lines are passed on as they are, tables are
    laid out, and lines with annotation tags are left out. */
module PlainStream {
  import opened Markdown
  import opened Streaming
  import opened StreamRefinement
  import Table
  import opened Text

  /** A line, a line with a tag, or the rows of a table, among which there may be lines with tags. */
  datatype Part = Passed(line: string) | Tagged(line: string) | Rows(rows: seq<string>)

  ghost predicate LegalPart(p: Part) {
    match p
    case Passed(line) => !Hidden(line) && (line == "" || line[0] != '|')
    case Tagged(line) => Hidden(line)
    case Rows(rows) =>
      rows != [] && forall k :: 0 <= k < |rows| ==> !Hidden(rows[k]) && rows[k] != "" && rows[k][0] == '|'
  }

  /** Rows that follow each other, tags left aside, are one part. */
  ghost predicate LegalParts(held: bool, parts: seq<Part>)
    decreases |parts|
  {
    parts == []
    || (&& LegalPart(parts[0]) && (held ==> !parts[0].Rows?)
        && LegalParts(if parts[0].Tagged? then held else parts[0].Rows?, parts[1..]))
  }

  ghost function PartLines(p: Part): seq<string> {
    match p
    case Passed(line) => [line]
    case Tagged(line) => [line]
    case Rows(rows) => rows
  }

  ghost function AllLines(parts: seq<Part>): seq<string>
    decreases |parts|
  {
    if parts == [] then [] else PartLines(parts[0]) + AllLines(parts[1..])
  }

  ghost function PartText(p: Part, cfg: Config): string {
    match p
    case Passed(line) => line + "\n"
    case Tagged(line) => ""
    case Rows(rows) => Table.RenderTable(rows, cfg.width, false)
  }

  ghost function AllText(parts: seq<Part>, cfg: Config): string
    decreases |parts|
  {
    if parts == [] then "" else PartText(parts[0], cfg) + AllText(parts[1..], cfg)
  }

  // ----- lines -----

  ghost function ShowPlain(st: State, lines: seq<string>, cfg: Config): State
    decreases |lines|
  {
    if lines == [] then st else ShowPlain(ShowLine(st, lines[0], cfg, false), lines[1..], cfg)
  }

  lemma {:induction false} ShowPlainConcat(st: State, a: seq<string>, b: seq<string>, cfg: Config)
    ensures ShowPlain(st, a + b, cfg) == ShowPlain(ShowPlain(st, a, cfg), b, cfg)
    decreases |a|
  {
    hide ShowLine;
    if a == [] {
      assert a + b == b;
    } else {
      assert (a + b)[1..] == a[1..] + b;
      ShowPlainConcat(ShowLine(st, a[0], cfg, false), a[1..], b, cfg);
    }
  }

  /** What has been written, and the table that is held back. */
  ghost function Flushed(st: State, cfg: Config): string {
    st.out + (if st.table == [] then "" else Table.RenderTable(st.table, cfg.width, false))
  }

  /** Nothing but the output and the held table has changed, and there is a table exactly if `held` says so. */
  ghost predicate Settled(st: State, held: bool) {
    st.buf == "" && !st.inCode && st.lang == "" && st.mermaid == "" && (held <==> st.table != [])
  }

  lemma {:induction false} RowsHeld(st: State, rows: seq<string>, cfg: Config)
    requires forall k :: 0 <= k < |rows| ==> !Hidden(rows[k]) && rows[k] != "" && rows[k][0] == '|'
    ensures ShowPlain(st, rows, cfg) == st.(table := st.table + rows)
    decreases |rows|
  {
    hide Hidden;
    if rows == [] {
      assert st.table + [] == st.table;
    } else {
      var st' := st.(table := st.table + [rows[0]]);
      assert ShowLine(st, rows[0], cfg, false) == st';
      RowsHeld(st', rows[1..], cfg);
      assert st.table + [rows[0]] + rows[1..] == st.table + rows;
    }
  }

  lemma OneLine(st: State, line: string, cfg: Config)
    ensures ShowPlain(st, [line], cfg) == ShowLine(st, line, cfg, false)
  {
    hide ShowLine;
    var st' := ShowLine(st, line, cfg, false);
    assert [line][1..] == [] && ShowPlain(st', [], cfg) == st';
  }

  lemma PartShown(st: State, held: bool, p: Part, cfg: Config)
    requires Settled(st, held) && LegalPart(p) && (held ==> !p.Rows?)
    ensures var st' := ShowPlain(st, PartLines(p), cfg);
            && Settled(st', if p.Tagged? then held else p.Rows?)
            && Flushed(st', cfg) == Flushed(st, cfg) + PartText(p, cfg)
  {
    hide Hidden, ShowPlain, Table.RenderTable;
    match p
    case Passed(line) =>
      OneLine(st, line, cfg);
      assert st.out + "" == st.out;
      var f := Flushed(st, cfg);
      assert f + (line + "\n") + "" == f + (line + "\n");
    case Tagged(line) =>
      OneLine(st, line, cfg);
      assert Flushed(st, cfg) + "" == Flushed(st, cfg);
    case Rows(rows) =>
      RowsPart(st, rows, cfg);
  }

  lemma RowsPart(st: State, rows: seq<string>, cfg: Config)
    requires Settled(st, false) && LegalPart(Rows(rows))
    ensures var st' := ShowPlain(st, PartLines(Rows(rows)), cfg);
            Settled(st', true) && Flushed(st', cfg) == Flushed(st, cfg) + PartText(Rows(rows), cfg)
  {
    hide Hidden, ShowPlain, Settled, Flushed, Table.RenderTable;
    RowsHeld(st, rows, cfg);
    RowsWait(st, rows, cfg);
  }

  lemma RowsWait(st: State, rows: seq<string>, cfg: Config)
    requires Settled(st, false) && rows != []
    ensures var st' := st.(table := st.table + rows);
            Settled(st', true) && Flushed(st', cfg) == Flushed(st, cfg) + Table.RenderTable(rows, cfg.width, false)
  {
    hide Table.RenderTable;
    assert st.table + rows == rows && st.out + "" == st.out;
  }

  lemma {:induction false} PartsShown(st: State, held: bool, parts: seq<Part>, cfg: Config) returns (held': bool)
    requires Settled(st, held) && LegalParts(held, parts)
    ensures var st' := ShowPlain(st, AllLines(parts), cfg);
            Settled(st', held') && Flushed(st', cfg) == Flushed(st, cfg) + AllText(parts, cfg)
    decreases |parts|
  {
    hide LegalPart, PartLines, PartText, ShowPlain, Flushed, Settled, AllLines, AllText;
    PartsUnfold(parts, cfg);
    if parts == [] {
      held' := held;
      NoLines(st, cfg);
      assert Flushed(st, cfg) + "" == Flushed(st, cfg);
    } else {
      PartShown(st, held, parts[0], cfg);
      var st' := ShowPlain(st, PartLines(parts[0]), cfg);
      ShowPlainConcat(st, PartLines(parts[0]), AllLines(parts[1..]), cfg);
      held' := PartsShown(st', if parts[0].Tagged? then held else parts[0].Rows?, parts[1..], cfg);
      var a, b := PartText(parts[0], cfg), AllText(parts[1..], cfg);
      assert Flushed(st, cfg) + a + b == Flushed(st, cfg) + (a + b);
    }
  }

  lemma PartsUnfold(parts: seq<Part>, cfg: Config)
    ensures parts == [] ==> AllLines(parts) == [] && AllText(parts, cfg) == ""
    ensures parts != [] ==>
              && AllLines(parts) == PartLines(parts[0]) + AllLines(parts[1..])
              && AllText(parts, cfg) == PartText(parts[0], cfg) + AllText(parts[1..], cfg)
  {
    hide PartLines, PartText;
  }

  lemma NoLines(st: State, cfg: Config)
    ensures ShowPlain(st, [], cfg) == st
  {
  }

  // ----- whole texts -----

  lemma {:induction false} FeedPlain(st: State, text: string, cfg: Config)
    requires st.buf == ""
    ensures Feed(st, text, cfg, false) == ShowPlain(st, CompleteLines(text).0, cfg).(buf := CompleteLines(text).1)
    decreases |text|
  {
    hide ShowLine, Feed, Find;
    var nl := Find(text, "\n", 0);
    NewlineAt(text);
    if nl < 0 {
      FeedText(st, text, cfg, false);
      assert "" + text == text;
    } else {
      var line, rest := text[..nl], text[nl + 1..];
      assert text == (line + "\n") + rest;
      FeedConcat(st, line + "\n", rest, cfg, false);
      FeedLine(st, line, cfg, false);
      PlainKeepsBuf(st, line, cfg);
      FeedPlain(ShowLine(st, line, cfg, false), rest, cfg);
      assert ([line] + CompleteLines(rest).0)[1..] == CompleteLines(rest).0;
    }
  }

  lemma PlainKeepsBuf(st: State, line: string, cfg: Config)
    ensures ShowLine(st, line, cfg, false).buf == st.buf
  {
    hide Hidden;
  }

  /** What the last, incomplete line adds; a row is dropped, because the table has been written before. */
  ghost function RestText(rest: string): string {
    if rest == "" || Hidden(rest) || rest[0] == '|' then "" else rest + "\n"
  }

  lemma PlainFinished(st: State, held: bool, rest: string, cfg: Config)
    requires Settled(st, held)
    ensures FinishState(st.(buf := rest), cfg, false).out == Flushed(st, cfg) + RestText(rest)
  {
    hide Hidden;
    var f := Streaming.FlushRows(st, cfg, false);
    assert Streaming.FlushRows(st.(buf := rest), cfg, false) == f.(buf := rest);
    assert (rest + "\n")[..|rest|] == rest;
    assert f.(buf := rest + "\n").(buf := "") == f;
    assert st.out + "" == st.out && f.out == Flushed(st, cfg) && f.out + "" == f.out;
  }

  /** The whole output without colour: the lines as they are, the tables laid out, nothing of tagged lines. */
  lemma PlainStreamed(text: string, parts: seq<Part>, cfg: Config)
    requires LegalParts(false, parts) && CompleteLines(text).0 == AllLines(parts)
    ensures FinishState(Feed(INIT, text, cfg, false), cfg, false).out
            == AllText(parts, cfg) + RestText(CompleteLines(text).1)
  {
    hide Feed, FinishState, LegalParts, AllLines, AllText, RestText, CompleteLines, ShowPlain;
    FeedPlain(INIT, text, cfg);
    var held := PartsShown(INIT, false, parts, cfg);
    var st := ShowPlain(INIT, AllLines(parts), cfg);
    PlainFinished(st, held, CompleteLines(text).1, cfg);
    assert "" + AllText(parts, cfg) == AllText(parts, cfg);
  }

  // ----- the tags -----

  const OPENERS := {"<exec>", "</exec>", "<write ", "</write>", "<str_replace ", "</str_replace>", "<add_line ",
                    "<delete_line ", "<read ", "<search>", "</search>"}

  /** A line is hidden exactly when one of the tags stands in it. */
  lemma HiddenIs(line: string)
    ensures Hidden(line) <==> exists before, tag, after :: tag in OPENERS && line == before + tag + after
  {
    hide OPENERS, TAGS, Find;
    if Hidden(line) {
      var k :| 0 <= k < |TAGS| && Find(line, TAGS[k], 0) >= 0;
      TagIsOpener(k);
      TagSplits(line, TAGS[k], Find(line, TAGS[k], 0));
    }
    if exists before, tag, after :: tag in OPENERS && line == before + tag + after {
      var before, tag, after :| tag in OPENERS && line == before + tag + after;
      var k := OpenerIsTag(tag);
      TagFound(before, tag, after);
    }
  }

  lemma TagSplits(line: string, tag: string, i: nat)
    requires OccursAt(line, tag, i)
    ensures exists before, after :: line == before + tag + after
  {
    assert line == line[..i] + tag + line[i + |tag|..];
  }

  lemma TagFound(before: string, tag: string, after: string)
    ensures Find(before + tag + after, tag, 0) >= 0
  {
    var line := before + tag + after;
    assert line[|before|..|before| + |tag|] == tag;
    assert OccursAt(line, tag, |before|);
  }

  lemma TagIsOpener(k: nat)
    requires k < |TAGS|
    ensures TAGS[k] in OPENERS
  {
  }

  lemma OpenerIsTag(tag: string) returns (k: nat)
    requires tag in OPENERS
    ensures k < |TAGS| && TAGS[k] == tag
  {
    hide OPENERS, TAGS;
    AllOpeners(tag);
    k :| k < |TAGS| && TAGS[k] == tag;
  }

  lemma AllOpeners(tag: string)
    requires tag in OPENERS
    ensures tag in TAGS
  {
    assert TAGS[0] == "<exec>" && TAGS[1] == "</exec>" && TAGS[2] == "<write " && TAGS[3] == "</write>";
    assert TAGS[4] == "<str_replace " && TAGS[5] == "</str_replace>" && TAGS[6] == "<add_line ";
    assert TAGS[7] == "<delete_line " && TAGS[8] == "<read " && TAGS[9] == "<search>" && TAGS[10] == "</search>";
  }
}
