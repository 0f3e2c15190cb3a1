/** Inline markdown (src/tui/markdown.cpp) and the second scanner that only counts what it shows
    (`visible_length` of src/tui/table.cpp). */
module Inline {
  import opened Ansi
  import opened Text

  /** What a delimiter at some position renders: the output and the position after it. */
  datatype Match = NoMatch | Styled(code: string, text: string, next: nat) | Link(text: string, url: string, next: nat)

  const BOLD_ITALIC := "\U{1B}[1;3m"
  const BOLD := "\U{1B}[1m"
  const ITALIC := "\U{1B}[3m"
  const STRIKE := "\U{1B}[9m"
  const CODE := "\U{1B}[36m"
  const UNDERLINE := "\U{1B}[4m"
  const DIM := "\U{1B}[2m"

  // ----- the delimiters -----

  /** The text between a delimiter that starts at `i` and its next occurrence. */
  function Between(line: string, i: nat, delimiter: string, code: string): (r: Match)
    requires i + |delimiter| <= |line|
    ensures !r.Link? && (r.Styled? ==> i < r.next || delimiter == "")
    ensures r.Styled? ==> r.next <= |line| && r.code == code
  {
    var end := Find(line, delimiter, i + |delimiter|);
    if end < 0 then NoMatch else Styled(code, line[i + |delimiter|..end], end + |delimiter|)
  }

  function TryBoldItalic(line: string, i: nat): Match {
    if i + 2 >= |line| || line[i] != '*' || line[i + 1] != '*' || line[i + 2] != '*' then NoMatch
    else Between(line, i, "***", BOLD_ITALIC)
  }

  function TryBold(line: string, i: nat): Match {
    if i + 1 >= |line| || line[i] != '*' || line[i + 1] != '*' then NoMatch else Between(line, i, "**", BOLD)
  }

  function TryItalic(line: string, i: nat): Match
    requires i < |line|
  {
    if line[i] != '*' || (i > 0 && line[i - 1] == '*') then NoMatch
    else if i + 1 >= |line| || line[i + 1] == '*' then NoMatch
    else
      var end := Find(line, "*", i + 1);
      if end < 0 || (end + 1 < |line| && line[end + 1] == '*') then NoMatch
      else Styled(ITALIC, line[i + 1..end], end + 1)
  }

  function TryStrikethrough(line: string, i: nat): Match {
    if i + 1 >= |line| || line[i] != '~' || line[i + 1] != '~' then NoMatch else Between(line, i, "~~", STRIKE)
  }

  function TryCode(line: string, i: nat): Match
    requires i < |line|
  {
    if line[i] != '`' || (i + 1 < |line| && line[i + 1] == '`') then NoMatch else Between(line, i, "`", CODE)
  }

  function TryLink(line: string, i: nat): Match
    requires i < |line|
  {
    if line[i] != '[' then NoMatch
    else
      var close := Find(line, "]", i + 1);
      if close < 0 || close + 1 >= |line| || line[close + 1] != '(' then NoMatch
      else
        var paren := Find(line, ")", close + 2);
        if paren < 0 then NoMatch else Link(line[i + 1..close], line[close + 2..paren], paren + 1)
  }

  /** The first delimiter that matches, in the order the renderer tries them. */
  function FirstMatch(line: string, i: nat): (r: Match)
    requires i < |line|
    ensures !r.NoMatch? ==> i < r.next <= |line|
  {
    if !TryBoldItalic(line, i).NoMatch? then TryBoldItalic(line, i)
    else if !TryBold(line, i).NoMatch? then TryBold(line, i)
    else if !TryItalic(line, i).NoMatch? then TryItalic(line, i)
    else if !TryStrikethrough(line, i).NoMatch? then TryStrikethrough(line, i)
    else if !TryCode(line, i).NoMatch? then TryCode(line, i)
    else TryLink(line, i)
  }

  // ----- rendering -----

  function Rendered(m: Match): string {
    match m
    case NoMatch => ""
    case Styled(code, text, _) => code + text + RESET
    case Link(text, url, _) => (UNDERLINE + text + RESET) + (" " + (DIM + ("(" + url + ")") + RESET))
  }

  function RenderFrom(line: string, i: nat): string
    requires i <= |line|
    decreases |line| - i
  {
    if i == |line| then ""
    else
      var m := FirstMatch(line, i);
      if m.NoMatch? then [line[i]] + RenderFrom(line, i + 1) else Rendered(m) + RenderFrom(line, m.next)
  }

  function RenderInline(line: string, color: bool): string {
    if color then RenderFrom(line, 0) else line
  }

  /** One of the `try_*` functions: on a match the text is appended and the position moves past it. */
  method Apply(m: Match, i: nat, out: string) returns (matched: bool, next: nat, out': string)
    ensures matched == !m.NoMatch?
    ensures next == (if m.NoMatch? then i else m.next) && out' == out + Rendered(m)
  {
    matched, next, out' := false, i, out;
    if !m.NoMatch? {
      matched, next, out' := true, m.next, out + Rendered(m);
    }
    assert m.NoMatch? ==> out + "" == out;
  }

  method RenderInlineLoop(line: string, color: bool) returns (out: string)
    ensures out == RenderInline(line, color)
  {
    hide Rendered, TryBoldItalic, TryBold, TryItalic, TryStrikethrough, TryCode, TryLink;
    if !color { return line; }
    out := "";
    var i := 0;
    while i < |line|
      invariant 0 <= i <= |line|
      invariant out + RenderFrom(line, i) == RenderFrom(line, 0)
      decreases |line| - i
    {
      RenderStep(line, i, out);
      var matched, next, out' := Apply(TryBoldItalic(line, i), i, out);
      if !matched { matched, next, out' := Apply(TryBold(line, i), i, out); }
      if !matched { matched, next, out' := Apply(TryItalic(line, i), i, out); }
      if !matched { matched, next, out' := Apply(TryStrikethrough(line, i), i, out); }
      if !matched { matched, next, out' := Apply(TryCode(line, i), i, out); }
      if !matched { matched, next, out' := Apply(TryLink(line, i), i, out); }
      if matched {
        i, out := next, out';
      } else {
        out := out + [line[i]];
        i := i + 1;
      }
    }
    assert out + "" == out;
  }

  lemma RenderStep(line: string, i: nat, out: string)
    requires i < |line|
    ensures var m := FirstMatch(line, i);
            out + RenderFrom(line, i)
            == if m.NoMatch? then (out + [line[i]]) + RenderFrom(line, i + 1)
               else (out + Rendered(m)) + RenderFrom(line, m.next)
  {
    hide Rendered, FirstMatch;
    var m := FirstMatch(line, i);
    if m.NoMatch? {
      assert out + ([line[i]] + RenderFrom(line, i + 1)) == (out + [line[i]]) + RenderFrom(line, i + 1);
    } else {
      assert out + (Rendered(m) + RenderFrom(line, m.next)) == (out + Rendered(m)) + RenderFrom(line, m.next);
    }
  }

  // ----- counting -----

  /** The length and the end of the span that `visible_length` sees at `i`, in the order it looks; the length of a
      character that starts no span is 1. */
  function CountedSpan(text: string, i: nat): (r: (nat, nat))
    requires i < |text|
    ensures i < r.1 <= |text|
  {
    var n := |text|;
    var star3 :=
      if i + 2 < n && text[i] == '*' && text[i + 1] == '*' && text[i + 2] == '*' then Find(text, "***", i + 3) else -1;
    if star3 >= 0 then (star3 - i - 3, star3 + 3)
    else
      var star2 := if i + 1 < n && text[i] == '*' && text[i + 1] == '*' then Find(text, "**", i + 2) else -1;
      if star2 >= 0 then (star2 - i - 2, star2 + 2)
      else
        var tilde := if i + 1 < n && text[i] == '~' && text[i + 1] == '~' then Find(text, "~~", i + 2) else -1;
        if tilde >= 0 then (tilde - i - 2, tilde + 2)
        else
          var tick := if text[i] == '`' && (i + 1 >= n || text[i + 1] != '`') then Find(text, "`", i + 1) else -1;
          if tick >= 0 then (tick - i - 1, tick + 1)
          else
            var cb := if text[i] == '[' then Find(text, "]", i + 1) else -1;
            var cp := if cb >= 0 && cb + 1 < n && text[cb + 1] == '(' then Find(text, ")", cb + 2) else -1;
            if cp >= 0 then ((cb - i - 1) + 1 + (cp - cb - 2) + 1, cp + 1)
            else
              var star := if text[i] == '*' && (i == 0 || text[i - 1] != '*') && i + 1 < n && text[i + 1] != '*'
                          then Find(text, "*", i + 1) else -1;
              if star >= 0 && (star + 1 >= n || text[star + 1] != '*') then (star - i - 1, star + 1)
              else (1, i + 1)
  }

  function VisibleFrom(text: string, i: nat): nat
    requires i <= |text|
    decreases |text| - i
  {
    if i == |text| then 0 else CountedSpan(text, i).0 + VisibleFrom(text, CountedSpan(text, i).1)
  }

  function VisibleLength(text: string): nat {
    VisibleFrom(text, 0)
  }

  method VisibleLengthLoop(text: string) returns (len: nat)
    ensures len == VisibleLength(text)
  {
    hide CountedSpan;
    len := 0;
    var i := 0;
    while i < |text|
      invariant 0 <= i <= |text|
      invariant len + VisibleFrom(text, i) == VisibleLength(text)
      decreases |text| - i
    {
      var (width, next) := CountedSpan(text, i);
      len, i := len + width, next;
    }
  }

  /** The number of links the renderer writes. */
  function LinksFrom(line: string, i: nat): nat
    requires i <= |line|
    decreases |line| - i
  {
    if i == |line| then 0
    else
      var m := FirstMatch(line, i);
      if m.NoMatch? then LinksFrom(line, i + 1) else (if m.Link? then 1 else 0) + LinksFrom(line, m.next)
  }

  function Links(line: string): nat {
    LinksFrom(line, 0)
  }

  // ----- the two scanners agree -----

  /** What the renderer matches at a position is what the counter counts there, but for one column of a link. */
  lemma SameSpan(line: string, i: nat)
    requires i < |line|
    ensures SpanOf(line, i, FirstMatch(line, i))
  {
    hide FirstMatch, SpanOf;
    if line[i] == '*' {
      SameStarSpan(line, i);
    } else {
      SameOtherSpan(line, i);
    }
  }

  /** What the second scanner counts for a match of the first. */
  ghost predicate SpanOf(line: string, i: nat, m: Match)
    requires i < |line|
  {
    CountedSpan(line, i) ==
    match m
    case NoMatch => (1, i + 1)
    case Styled(_, text, next) => (|text|, next)
    case Link(text, url, next) => (|text| + |url| + 2, next)
  }

  lemma SameOtherSpan(line: string, i: nat)
    requires i < |line| && line[i] != '*'
    ensures SpanOf(line, i, FirstMatch(line, i))
  {
    hide Find;
  }

  lemma SameStarSpan(line: string, i: nat)
    requires i < |line| && line[i] == '*'
    ensures SpanOf(line, i, FirstMatch(line, i))
  {
    hide Find;
  }

  function ShownText(m: Match): string {
    match m
    case NoMatch => ""
    case Styled(_, text, _) => text
    case Link(text, url, _) => text + (" " + ("(" + url + ")"))
  }

  lemma Codes()
    ensures IsCode(BOLD_ITALIC) && IsCode(BOLD) && IsCode(ITALIC) && IsCode(STRIKE) && IsCode(CODE)
    ensures IsCode(UNDERLINE) && IsCode(DIM) && IsCode(RESET)
  {
  }

  /** A match is made of a style and pieces of the line. */
  ghost predicate MadeOf(m: Match, line: string) {
    match m
    case NoMatch => true
    case Styled(code, text, _) => code in {BOLD_ITALIC, BOLD, ITALIC, STRIKE, CODE} && IsPart(text, line)
    case Link(text, url, _) => IsPart(text, line) && IsPart(url, line)
  }

  ghost predicate IsPart(t: string, line: string) {
    forall k :: 0 <= k < |t| ==> t[k] in line
  }

  lemma BetweenIsMade(line: string, i: nat, delimiter: string, code: string)
    requires i + |delimiter| <= |line| && code in {BOLD_ITALIC, BOLD, ITALIC, STRIKE, CODE}
    ensures MadeOf(Between(line, i, delimiter, code), line)
  {
    hide Find;
  }

  lemma ItalicIsMade(line: string, i: nat)
    requires i < |line|
    ensures MadeOf(TryItalic(line, i), line)
  {
    hide Find;
  }

  lemma LinkIsMade(line: string, i: nat)
    requires i < |line|
    ensures MadeOf(TryLink(line, i), line)
  {
    hide Find;
  }

  lemma MatchIsMade(line: string, i: nat)
    requires i < |line|
    ensures MadeOf(FirstMatch(line, i), line)
  {
    hide Between, TryItalic, TryLink, IsPart;
    if i + 3 <= |line| {
      BetweenIsMade(line, i, "***", BOLD_ITALIC);
    }
    if i + 2 <= |line| {
      BetweenIsMade(line, i, "**", BOLD);
      BetweenIsMade(line, i, "~~", STRIKE);
    }
    BetweenIsMade(line, i, "`", CODE);
    ItalicIsMade(line, i);
    LinkIsMade(line, i);
  }

  lemma MatchParts(line: string, i: nat)
    requires i < |line| && EscapeFree(line)
    ensures var m := FirstMatch(line, i);
            && (m.Styled? ==> IsCode(m.code) && EscapeFree(m.text))
            && (m.Link? ==> EscapeFree(m.text) && EscapeFree(m.url))
  {
    hide FirstMatch, IsCode;
    Codes();
    MatchIsMade(line, i);
  }

  lemma RenderedShows(line: string, i: nat)
    requires i < |line| && EscapeFree(line) && !FirstMatch(line, i).NoMatch?
    ensures Shows(Rendered(FirstMatch(line, i)), ShownText(FirstMatch(line, i)))
  {
    MatchParts(line, i);
    Codes();
    hide FirstMatch, IsCode;
    var m := FirstMatch(line, i);
    match m
    case Styled(code, text, _) => ShowsStyled(code, text);
    case Link(text, url, _) =>
      ShowsStyled(UNDERLINE, text);
      ShowsStyled(DIM, "(" + url + ")");
      ShowsItself(" ");
      hide Shows;
      ShowsConcat(" ", " ", DIM + ("(" + url + ")") + RESET, "(" + url + ")");
      ShowsConcat(UNDERLINE + text + RESET, text, " " + (DIM + ("(" + url + ")") + RESET), " " + ("(" + url + ")"));
  }

  /** The text that is shown from `i` on. */
  ghost function ShownFrom(line: string, i: nat): string
    requires i <= |line|
    decreases |line| - i
  {
    if i == |line| then ""
    else
      var m := FirstMatch(line, i);
      if m.NoMatch? then [line[i]] + ShownFrom(line, i + 1) else ShownText(m) + ShownFrom(line, m.next)
  }

  lemma {:induction false} RenderFromShows(line: string, i: nat)
    requires i <= |line| && EscapeFree(line)
    ensures Shows(RenderFrom(line, i), ShownFrom(line, i))
    decreases |line| - i
  {
    if i < |line| {
      hide Shows, FirstMatch, Rendered, ShownText;
      var m := FirstMatch(line, i);
      if m.NoMatch? {
        ShowsItself([line[i]]);
        RenderFromShows(line, i + 1);
        ShowsConcat([line[i]], [line[i]], RenderFrom(line, i + 1), ShownFrom(line, i + 1));
      } else {
        RenderedShows(line, i);
        RenderFromShows(line, m.next);
        ShowsConcat(Rendered(m), ShownText(m), RenderFrom(line, m.next), ShownFrom(line, m.next));
      }
    }
  }

  lemma {:induction false} ShownLength(line: string, i: nat)
    requires i <= |line|
    ensures |ShownFrom(line, i)| == VisibleFrom(line, i) + LinksFrom(line, i)
    decreases |line| - i
  {
    if i < |line| {
      SameSpan(line, i);
      hide FirstMatch, CountedSpan;
      var m := FirstMatch(line, i);
      ShownLength(line, if m.NoMatch? then i + 1 else m.next);
    }
  }

  /** Rendering and counting agree on every escape-free text, up to one column for every link: the renderer puts a
      blank between the text and the address of a link, and the counter does not count it. */
  lemma VisibleLengthIsShownLength(line: string)
    requires EscapeFree(line)
    ensures |StripAnsi(RenderInline(line, true))| == VisibleLength(line) + Links(line)
    ensures !EscapeAfter(RenderInline(line, true), false)
  {
    RenderFromShows(line, 0);
    ShownLength(line, 0);
  }
}
