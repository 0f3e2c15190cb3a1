/** The streaming markdown renderer (src/tui/markdown_stream.cpp): it is fed tokens, renders each line when it is
    complete, hides annotation tags, and keeps tables and mermaid blocks back until they end. */
module Streaming {
  import opened Ansi
  import opened Inline
  import Highlight
  import opened Markdown
  import Table
  import opened Text

  // ----- the state and its steps -----

  datatype State = State(out: string, buf: string, table: seq<string>, inCode: bool, lang: string, mermaid: string)

  const INIT := State("", "", [], false, "", "")

  const TAGS: seq<string> := ["<exec>", "</exec>", "<write ", "</write>", "<str_replace ", "</str_replace>",
                              "<add_line ",
                              "<delete_line ", "<read ", "<search>", "</search>"]

  /** A line with an annotation tag is not shown. */
  predicate Hidden(content: string) {
    exists k :: 0 <= k < |TAGS| && Find(content, TAGS[k], 0) >= 0
  }

  function FlushRows(st: State, cfg: Config, color: bool): State {
    if st.table == [] then st else st.(out := st.out + Table.RenderTable(st.table, cfg.width, color), table := [])
  }

  function DrawOrShow(mermaid: string, cfg: Config): string {
    match cfg.diagram(mermaid)
    case Drawn(output) => output
    case NotDrawn => (DIM + "```mermaid\n" + RESET) + mermaid + (DIM + "```\n" + RESET)
  }

  /** A fence line, outside or inside a code block. */
  function FenceLine(st: State, content: string, cfg: Config): State
    requires IsFence(content)
  {
    if !st.inCode then
      var lang := DropTrailing(DropLeading(content[3..]));
      if lang == "mermaid" then st.(lang := lang, mermaid := "", inCode := true)
      else st.(lang := lang, mermaid := "", inCode := true, out := st.out + (DIM + (content + "\n") + RESET))
    else if st.lang == "mermaid" && st.mermaid != "" then
      st.(out := st.out + DrawOrShow(st.mermaid, cfg), mermaid := "", lang := "", inCode := false)
    else st.(lang := "", inCode := false, out := st.out + (DIM + (content + "\n") + RESET))
  }

  /** A line that has been taken out of the buffer. */
  function ShowLine(st: State, content: string, cfg: Config, color: bool): State {
    if Hidden(content) then st
    else if !color then
      if Table.IsTableRow(content) then st.(table := st.table + [content])
      else
        var f := FlushRows(st, cfg, color);
        f.(out := f.out + (content + "\n"))
    else if !st.inCode && Table.IsTableRow(content) then st.(table := st.table + [content])
    else
      var f := FlushRows(st, cfg, color);
      if IsFence(content) then FenceLine(f, content, cfg)
      else if f.inCode then
        if f.lang == "mermaid" then f.(mermaid := f.mermaid + content + "\n")
        else f.(out := f.out + (Highlight.HighlightLine(content, cfg.language(f.lang)) + "\n"))
      else f.(out := f.out + RenderContentLine(content, color))
  }

  /** `flush_line`, on a buffer that ends in a newline. */
  function FlushLine(st: State, cfg: Config, color: bool): State
    requires st.buf != ""
  {
    ShowLine(st.(buf := ""), st.buf[..|st.buf| - 1], cfg, color)
  }

  function FeedChar(st: State, c: char, cfg: Config, color: bool): State {
    var st' := st.(buf := st.buf + [c]);
    if c == '\n' then FlushLine(st', cfg, color) else st'
  }

  function Feed(st: State, token: string, cfg: Config, color: bool): State
    decreases |token|
  {
    if token == "" then st else Feed(FeedChar(st, token[0], cfg, color), token[1..], cfg, color)
  }

  function FinishState(st: State, cfg: Config, color: bool): State {
    var f := FlushRows(st, cfg, color);
    var g := if f.buf != "" then FlushLine(f.(buf := f.buf + "\n"), cfg, color) else f;
    if g.inCode then g.(out := g.out + RESET) else g
  }

  // ----- the object -----

  class StreamRenderer {
    const cfg: Config
    const color: bool
    var out: string
    var buf: string
    var table: seq<string>
    var inCode: bool
    var lang: string
    var mermaid: string

    function Abstract(): State
      reads this
    {
      State(out, buf, table, inCode, lang, mermaid)
    }

    constructor (cfg: Config, color: bool)
      ensures Abstract() == INIT && this.cfg == cfg && this.color == color
    {
      this.cfg, this.color := cfg, color;
      out, buf, table, inCode, lang, mermaid := "", "", [], false, "", "";
    }

    method Write(token: string)
      modifies this
      ensures Abstract() == Feed(old(Abstract()), token, cfg, color)
    {
      hide FlushLine;
      for i := 0 to |token|
        invariant Feed(Abstract(), token[i..], cfg, color) == Feed(old(Abstract()), token, cfg, color)
      {
        assert token[i..][1..] == token[i + 1..];
        buf := buf + [token[i]];
        if token[i] == '\n' {
          DoFlushLine();
        }
      }
      assert token[|token|..] == "";
    }

    method Finish()
      modifies this
      ensures Abstract() == FinishState(old(Abstract()), cfg, color)
    {
      DoFlushTable();
      if buf != "" {
        buf := buf + "\n";
        DoFlushLine();
      }
      if inCode {
        out := out + RESET;
      }
    }

    method DoFlushTable()
      modifies this
      ensures Abstract() == FlushRows(old(Abstract()), cfg, color)
    {
      if table != [] {
        out := out + Table.RenderTable(table, cfg.width, color);
        table := [];
      }
    }

    method DoFlushLine()
      requires buf != ""
      modifies this
      ensures Abstract() == FlushLine(old(Abstract()), cfg, color)
    {
      hide Hidden, DropLeading, DropTrailing, FenceLine, Highlight.HighlightLine, RenderContentLine, Table.RenderTable,
        Table.IsTableRow, IsFence;
      var content := buf[..|buf| - 1];
      buf := "";
      if Hidden(content) { return; }
      if !color {
        FlushLinePlain(content);
        return;
      }
      if !inCode && Table.IsTableRow(content) {
        table := table + [content];
        return;
      }
      DoFlushTable();
      if IsFence(content) {
        Fence(content);
      } else if inCode {
        if lang == "mermaid" {
          mermaid := mermaid + content + "\n";
        } else {
          out := out + (Highlight.HighlightLine(content, cfg.language(lang)) + "\n");
        }
      } else {
        out := out + RenderContentLine(content, color);
      }
    }

    method FlushLinePlain(content: string)
      requires !color && !Hidden(content)
      modifies this
      ensures Abstract() == ShowLine(old(Abstract()), content, cfg, color)
    {
      if Table.IsTableRow(content) {
        table := table + [content];
        return;
      }
      DoFlushTable();
      out := out + (content + "\n");
    }

    method Fence(content: string)
      requires IsFence(content)
      modifies this
      ensures Abstract() == FenceLine(old(Abstract()), content, cfg)
    {
      if !inCode {
        lang := DropTrailing(DropLeading(content[3..]));
        mermaid := "";
        if lang == "mermaid" {
          inCode := true;
          return;
        }
      } else {
        if lang == "mermaid" && mermaid != "" {
          out := out + DrawOrShow(mermaid, cfg);
          mermaid, lang, inCode := "", "", false;
          return;
        }
        lang := "";
      }
      inCode := !inCode;
      out := out + (DIM + (content + "\n") + RESET);
    }
  }
}
