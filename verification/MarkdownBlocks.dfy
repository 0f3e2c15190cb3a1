/** What a line of markdown is rendered as (`render_line`, src/tui/markdown.cpp), for each form a line can have. */
module MarkdownBlocks {
  import opened Ansi
  import opened Inline
  import opened InlineSpans
  import opened Markdown
  import Table
  import opened TableGeometry
  import opened Text

  // ----- the forms -----

  ghost predicate IsRule(line: string) {
    exists mark: char :: IsMark(mark) && AllMarks(line, mark)
  }

  ghost function Hashes(n: nat): string {
    if n == 0 then "" else Hashes(n - 1) + "#"
  }

  ghost predicate IsHeading(line: string, n: nat, t: string) {
    n > 0 && line == Hashes(n) + " " + t
  }

  ghost predicate IsQuote(line: string, t: string) {
    line == "> " + t || (line == ">" + t && (t == "" || t[0] != ' '))
  }

  ghost predicate IsIndent(p: string) {
    forall k :: 0 <= k < |p| ==> p[k] == ' ' || p[k] == '\t'
  }

  ghost predicate IsBullet(line: string, p: string, mark: char, t: string) {
    IsIndent(p) && (mark == '-' || mark == '*') && line == p + [mark] + " " + t
  }

  /** A number: up to three characters, the first a digit but no zero, with no dot before a blank. */
  ghost predicate IsNumber(x: string) {
    1 <= |x| <= 3 && x[0] in "123456789" && forall k :: 0 <= k < |x| - 1 ==> !(x[k] == '.' && x[k + 1] == ' ')
  }

  ghost predicate IsNumbered(line: string, p: string, x: string, t: string) {
    IsIndent(p) && IsNumber(x) && line == p + x + ". " + t
  }

  const LINE := "\U{E2}\U{94}\U{80}"

  // ----- headings -----

  lemma {:induction false} HashesAre(n: nat)
    ensures |Hashes(n)| == n && forall k :: 0 <= k < n ==> Hashes(n)[k] == '#'
  {
    if n > 0 {
      HashesAre(n - 1);
    }
  }

  lemma {:induction false} LevelIs(line: string, i: nat, n: nat)
    requires i <= n < |line| && (forall k :: i <= k < n ==> line[k] == '#') && line[n] != '#'
    ensures Level(line, i) == n
    decreases n - i
  {
    if i < n {
      LevelIs(line, i + 1, n);
    }
  }

  lemma {:induction false} LevelHashes(line: string, i: nat)
    requires i <= |line|
    ensures forall k :: i <= k < Level(line, i) ==> line[k] == '#'
    decreases |line| - i
  {
    if i < |line| && line[i] == '#' {
      LevelHashes(line, i + 1);
    }
  }

  lemma HashesIs(s: string)
    requires forall k :: 0 <= k < |s| ==> s[k] == '#'
    ensures s == Hashes(|s|)
  {
    HashesAre(|s|);
  }

  /** A heading, of any level. */
  lemma HeadingLine(line: string, n: nat, t: string, color: bool)
    requires IsHeading(line, n, t)
    ensures RenderLine(line, color) == "\U{1B}[1;4m" + t + "\U{1B}[0m" + "\n"
  {
    HashesAre(n);
    assert line[0] == '#' && line[n] == ' ' && line[n + 1..] == t;
    LevelIs(line, 0, n);
    NoMarkFirst(line);
    hide RenderInline, TryList, IsHorizontalRule, Level;
  }

  lemma NoMarkFirst(line: string)
    requires line != "" && line[0] in {'#', '>', '1', '2', '3', '4', '5', '6', '7', '8', '9'}
    ensures !IsHorizontalRule(line)
  {
  }

  lemma HeadingIs(line: string)
    requires TryHeading(line) != ""
    ensures exists n, t :: IsHeading(line, n, t)
  {
    var n := Level(line, 0);
    LevelHashes(line, 0);
    HashesIs(line[..n]);
    assert line == Hashes(n) + " " + line[n + 1..];
    assert IsHeading(line, n, line[n + 1..]);
  }

  // ----- rules and quotes -----

  lemma RuleLine(line: string)
    requires IsRule(line)
    ensures RenderLine(line, true)
            == "\U{1B}[2m" + (LINE + LINE + LINE + LINE + LINE + LINE + LINE + LINE + LINE + LINE
                              + LINE + LINE + LINE + LINE + LINE + LINE + LINE + LINE + LINE + LINE)
               + "\U{1B}[0m" + "\n"
    ensures RenderLine(line, false) == "--------------------\n"
  {
    RuleIsMarks(line);
    hide IsHorizontalRule;
  }

  lemma QuoteLine(line: string, t: string)
    requires IsQuote(line, t)
    ensures RenderLine(line, true) == "\U{1B}[2m\U{E2}\U{94}\U{82}\U{1B}[0m " + RenderInline(t, true) + "\n"
    ensures RenderLine(line, false) == "| " + t + "\n"
  {
    NoMarkFirst(line);
    hide RenderInline, TryList, IsHorizontalRule;
    assert line == "> " + t ==> line[1] == ' ' && line[2..] == t;
    assert line == ">" + t ==> line[1..] == t && (t != "" ==> line[1] == t[0]);
  }

  // ----- lists -----

  lemma {:induction false} IndentIs(line: string, i: nat, n: nat)
    requires i <= n <= |line| && (forall k :: i <= k < n ==> line[k] == ' ' || line[k] == '\t')
    requires n < |line| ==> line[n] != ' ' && line[n] != '\t'
    ensures Indent(line, i) == n
    decreases n - i
  {
    if i < n {
      IndentIs(line, i + 1, n);
    }
  }

  /** A list item: not a heading and not a quote. */
  lemma ListStart(line: string, p: string, rest: string)
    requires line == p + rest && IsIndent(p) && rest != "" && rest[0] !in {' ', '\t', '#', '>'}
    ensures Indent(line, 0) == |p| && line[|p|..] == rest && line != "" && line[0] != '#' && line[0] != '>'
  {
    forall k | 0 <= k < |p| ensures line[k] == ' ' || line[k] == '\t' {
      assert line[k] == p[k];
    }
    assert line[|p|] == rest[0];
    IndentIs(line, 0, |p|);
  }

  /** A bullet item: two blanks more than its indentation, the bullet, and its text. */
  lemma BulletLine(line: string, p: string, mark: char, t: string, color: bool)
    requires IsBullet(line, p, mark, t) && !IsRule(line)
    ensures RenderLine(line, color) == Blanks(2 + |p|) + "\U{E2}\U{80}\U{A2} " + RenderInline(t, color) + "\n"
  {
    hide *;
    RuleIsMarks(line);
    RuleIs(line);
    var rest := [mark] + " " + t;
    BulletParts(line, p, mark, t);
    ListStart(line, p, rest);
    BlanksRepeat(2 + |p|);
    BulletItem(line, |p|, color);
    ItemLine(line, color);
  }

  lemma RuleIs(line: string)
    ensures IsRule(line) <==> exists mark: char :: IsMark(mark) && AllMarks(line, mark)
  {
  }

  lemma BulletParts(line: string, p: string, mark: char, t: string)
    requires IsBullet(line, p, mark, t)
    ensures var rest := [mark] + " " + t;
            && line == p + rest && IsIndent(p)
            && |rest| >= 2 && rest[0] in {'-', '*'} && rest[1] == ' ' && rest[2..] == t
  {
    var rest := [mark] + " " + t;
    assert line == p + rest;
  }

  lemma BulletItem(line: string, n: nat, color: bool)
    requires Indent(line, 0) == n && n + 2 <= |line| && line[n..][0] in {'-', '*'} && line[n..][1] == ' '
    ensures TryList(line, color)
            == Table.Repeat(' ', 2 + n) + "\U{E2}\U{80}\U{A2} " + RenderInline(line[n..][2..], color) + "\n"
  {
    hide RenderInline, Find, Indent;
  }

  lemma DotFound(x: string, t: string)
    requires IsNumber(x)
    ensures Find(x + ". " + t, ". ", 0) == |x|
  {
    var rest := x + ". " + t;
    assert rest[|x|..|x| + 2] == ". ";
    forall k: nat | k < |x| ensures !OccursAt(rest, ". ", k) {
      assert rest[k] == x[k];
      if k + 1 < |x| {
        assert rest[k + 1] == x[k + 1];
        if x[k] == '.' {
          Mismatch(rest, ". ", k, 1);
        } else {
          Mismatch(rest, ". ", k, 0);
        }
      } else {
        assert rest[k + 1] == '.';
        Mismatch(rest, ". ", k, 1);
      }
    }
    FindIs(rest, ". ", 0, |x|);
  }

  /** A numbered item: two blanks more than its indentation, the number, and its text. */
  lemma NumberedLine(line: string, p: string, x: string, t: string, color: bool)
    requires IsNumbered(line, p, x, t)
    ensures RenderLine(line, color) == Blanks(2 + |p|) + x + ". " + RenderInline(t, color) + "\n"
  {
    hide *;
    var rest := x + ". " + t;
    NumberedParts(line, p, x, t);
    ListStart(line, p, rest);
    DotFound(x, t);
    BlanksRepeat(2 + |p|);
    DigitIsNoMark(line, |p|);
    NumberedItem(line, |p|, |x|, color);
    ItemLine(line, color);
    var pad, item := Blanks(2 + |p|), RenderInline(t, color);
    assert pad + (x + ". ") + item + "\n" == pad + x + ". " + item + "\n";
  }

  lemma NumberedParts(line: string, p: string, x: string, t: string)
    requires IsNumbered(line, p, x, t)
    ensures var rest := x + ". " + t;
            && line == p + rest && IsIndent(p) && IsNumber(x) && rest != "" && rest[0] !in {' ', '\t', '#', '>'}
            && |p| < |line| && line[|p|] in "123456789" && rest[..|x| + 2] == x + ". " && rest[|x| + 2..] == t
  {
    var rest := x + ". " + t;
    assert line[|p|] == rest[0] == x[0];
  }

  lemma NumberedItem(line: string, n: nat, dot: nat, color: bool)
    requires Indent(line, 0) == n < |line| && line[n] in "123456789" && Find(line[n..], ". ", 0) == dot <= 3
    ensures dot + 2 <= |line[n..]|
    ensures TryList(line, color)
            == Table.Repeat(' ', 2 + n) + line[n..][..dot + 2] + RenderInline(line[n..][dot + 2..], color) + "\n"
  {
    hide RenderInline, Find, Indent;
    OccursFits(line[n..], dot, ". ");
  }

  lemma ItemLine(line: string, color: bool)
    requires line != "" && line[0] != '#' && line[0] != '>' && !IsHorizontalRule(line) && TryList(line, color) != ""
    ensures RenderLine(line, color) == TryList(line, color)
  {
    hide RenderInline, IsHorizontalRule, TryList;
  }

  lemma DigitIsNoMark(line: string, i: nat)
    requires i < |line| && line[i] in "123456789"
    ensures !IsHorizontalRule(line)
  {
    RuleIsMarks(line);
    hide IsHorizontalRule;
    forall mark: char | IsMark(mark) ensures !AllMarks(line, mark) {
      assert line[i] != mark && line[i] != ' ';
    }
  }

  // ----- paragraphs -----

  lemma {:induction false} IndentBlanks(line: string, i: nat)
    requires i <= |line|
    ensures forall k :: i <= k < Indent(line, i) ==> line[k] == ' ' || line[k] == '\t'
    decreases |line| - i
  {
    if i < |line| && (line[i] == ' ' || line[i] == '\t') {
      IndentBlanks(line, i + 1);
    }
  }

  /** Every line that is rendered as an item has the form of one. */
  lemma ItemIs(line: string, color: bool)
    requires TryList(line, color) != ""
    ensures (exists p, mark, t :: IsBullet(line, p, mark, t)) || exists p, x, t :: IsNumbered(line, p, x, t)
  {
    hide RenderInline, Find, IsIndent, IsNumber;
    var n := Indent(line, 0);
    IndentPart(line);
    var p, rest := line[..n], line[n..];
    if |rest| >= 2 && (rest[0] == '-' || rest[0] == '*') && rest[1] == ' ' {
      BulletSplits(line, n);
    } else {
      var dot := Find(rest, ". ", 0);
      DotSplits(rest, dot);
      NumberSplits(line, n, dot);
    }
  }

  lemma IndentPart(line: string)
    ensures IsIndent(line[..Indent(line, 0)])
  {
    IndentBlanks(line, 0);
  }

  lemma BulletSplits(line: string, n: nat)
    requires n + 2 <= |line| && IsIndent(line[..n]) && (line[n] == '-' || line[n] == '*') && line[n + 1] == ' '
    ensures exists p, mark, t :: IsBullet(line, p, mark, t)
  {
    assert line == line[..n] + [line[n]] + " " + line[n + 2..];
    assert IsBullet(line, line[..n], line[n], line[n + 2..]);
  }

  lemma NumberSplits(line: string, n: nat, dot: nat)
    requires n + dot + 2 <= |line| && IsIndent(line[..n]) && IsNumber(line[n..][..dot])
    requires line[n..] == line[n..][..dot] + ". " + line[n..][dot + 2..]
    ensures exists p, x, t :: IsNumbered(line, p, x, t)
  {
    hide IsIndent, IsNumber;
    var x, t := line[n..][..dot], line[n..][dot + 2..];
    assert line == line[..n] + line[n..];
    assert line == line[..n] + x + ". " + t;
    assert IsNumbered(line, line[..n], x, t);
  }

  lemma DotSplits(rest: string, dot: nat)
    requires Find(rest, ". ", 0) == dot <= 3 && rest != "" && '1' <= rest[0] <= '9'
    ensures dot + 2 <= |rest| && rest == rest[..dot] + ". " + rest[dot + 2..] && IsNumber(rest[..dot])
  {
    hide Find;
    DotChars(rest, dot);
    FirstIsDigit(rest[0]);
    forall k: nat | k < dot - 1 ensures !(rest[k] == '.' && rest[k + 1] == ' ') {
      NoDotBefore(rest, k);
    }
  }

  lemma FirstIsDigit(c: char)
    ensures '1' <= c <= '9' <==> c in "123456789"
  {
  }

  lemma DotChars(rest: string, dot: nat)
    requires OccursAt(rest, ". ", dot)
    ensures dot + 2 <= |rest| && rest[dot] == '.' && rest[dot + 1] == ' '
    ensures rest == rest[..dot] + ". " + rest[dot + 2..]
  {
    assert rest == rest[..dot] + rest[dot..dot + 2] + rest[dot + 2..];
  }

  lemma NoDotBefore(rest: string, k: nat)
    requires k + 1 < |rest| && !OccursAt(rest, ". ", k)
    ensures !(rest[k] == '.' && rest[k + 1] == ' ')
  {
    assert rest[k..k + 2] == [rest[k], rest[k + 1]];
  }

  /** Every other line is a paragraph. */
  lemma ParagraphLine(line: string, color: bool)
    requires !IsRule(line) && (line == "" || line[0] != '>')
    requires !(exists n, t :: IsHeading(line, n, t)) && !(exists p, mark, t :: IsBullet(line, p, mark, t))
    requires !(exists p, x, t :: IsNumbered(line, p, x, t))
    ensures RenderLine(line, color) == RenderInline(line, color) + "\n"
  {
    RuleIsMarks(line);
    hide RenderInline, IsHorizontalRule, TryList, TryHeading, IsHeading, IsBullet, IsNumbered;
    if TryHeading(line) != "" {
      HeadingIs(line);
    }
    if TryList(line, color) != "" {
      ItemIs(line, color);
    }
  }

  // ----- what is seen -----

  /** Text written in spans, behind something else that is shown. */
  lemma SpansSeen(out: string, front: string, spans: seq<Span>)
    requires Shows(out, front) && LegalSpans(spans) && EscapeFree(Sources(spans))
    ensures Shows(out + RenderInline(Sources(spans), true) + "\n", front + AllSeen(spans) + "\n")
  {
    hide Shows, Sources, RenderInline, Outputs, AllSeen;
    SpansRendered(spans);
    SpansShow(spans);
    ShowsItself("\n");
    ShowsConcat(out, front, Outputs(spans), AllSeen(spans));
    ShowsConcat(out + Outputs(spans), front + AllSeen(spans), "\n", "\n");
  }

  lemma {:induction false} BlanksFree(n: int)
    ensures EscapeFree(Blanks(n))
  {
    if n > 0 {
      BlanksFree(n - 1);
    }
  }

  lemma FreeConcat(a: string, b: string)
    requires EscapeFree(a) && EscapeFree(b)
    ensures EscapeFree(a + b)
  {
  }

  /** A bullet item shows a bullet and its text. */
  lemma BulletSeen(p: string, mark: char, spans: seq<Span>)
    requires IsBullet(p + [mark] + " " + Sources(spans), p, mark, Sources(spans))
    requires !IsRule(p + [mark] + " " + Sources(spans))
    requires LegalSpans(spans) && EscapeFree(Sources(spans))
    ensures Shows(RenderLine(p + [mark] + " " + Sources(spans), true),
                  Blanks(2 + |p|) + "\U{E2}\U{80}\U{A2} " + AllSeen(spans) + "\n")
  {
    hide *;
    BulletLine(p + [mark] + " " + Sources(spans), p, mark, Sources(spans), true);
    var front := Blanks(2 + |p|) + "\U{E2}\U{80}\U{A2} ";
    BlanksFree(2 + |p|);
    BulletFree();
    FreeConcat(Blanks(2 + |p|), "\U{E2}\U{80}\U{A2} ");
    ShowsItself(front);
    SpansSeen(front, front, spans);
  }

  lemma BulletFree()
    ensures EscapeFree("\U{E2}\U{80}\U{A2} ") && EscapeFree(". ") && EscapeFree(" ") && EscapeFree("\n")
    ensures EscapeFree("\U{E2}\U{94}\U{82}") && EscapeFree("")
  {
  }

  /** A numbered item shows its number and its text. */
  lemma NumberedSeen(p: string, x: string, spans: seq<Span>)
    requires IsIndent(p) && IsNumber(x) && EscapeFree(x) && LegalSpans(spans) && EscapeFree(Sources(spans))
    ensures Shows(RenderLine(p + x + ". " + Sources(spans), true), Blanks(2 + |p|) + x + ". " + AllSeen(spans) + "\n")
  {
    hide *;
    NumberedForm(p, x, Sources(spans));
    NumberedLine(p + x + ". " + Sources(spans), p, x, Sources(spans), true);
    var front := Blanks(2 + |p|) + x + ". ";
    BlanksFree(2 + |p|);
    BulletFree();
    FreeConcat(Blanks(2 + |p|), x);
    FreeConcat(Blanks(2 + |p|) + x, ". ");
    ShowsItself(front);
    SpansSeen(front, front, spans);
  }

  lemma NumberedForm(p: string, x: string, t: string)
    requires IsIndent(p) && IsNumber(x)
    ensures IsNumbered(p + x + ". " + t, p, x, t)
  {
  }

  /** A quotation shows a bar and its text. */
  lemma QuoteSeen(spans: seq<Span>)
    requires LegalSpans(spans) && EscapeFree(Sources(spans))
    ensures Shows(RenderLine("> " + Sources(spans), true), "\U{E2}\U{94}\U{82} " + AllSeen(spans) + "\n")
  {
    hide *;
    QuoteForm(Sources(spans));
    QuoteLine("> " + Sources(spans), Sources(spans));
    Codes();
    BulletFree();
    StyleIs();
    ShowsStyled("\U{1B}[2m", "\U{E2}\U{94}\U{82}");
    ShowsItself(" ");
    ShowsConcat("\U{1B}[2m" + "\U{E2}\U{94}\U{82}" + "\U{1B}[0m", "\U{E2}\U{94}\U{82}", " ", " ");
    SpansSeen("\U{1B}[2m\U{E2}\U{94}\U{82}\U{1B}[0m ", "\U{E2}\U{94}\U{82} ", spans);
  }

  lemma StyleIs()
    ensures DIM == "\U{1B}[2m" && RESET == "\U{1B}[0m" && IsCode("\U{1B}[1;4m")
    ensures "\U{1B}[2m" + "\U{E2}\U{94}\U{82}" + "\U{1B}[0m" + " " == "\U{1B}[2m\U{E2}\U{94}\U{82}\U{1B}[0m "
    ensures "\U{E2}\U{94}\U{82}" + " " == "\U{E2}\U{94}\U{82} "
  {
  }

  lemma QuoteForm(t: string)
    ensures IsQuote("> " + t, t)
  {
  }

  /** A heading shows its text. */
  lemma HeadingSeen(n: nat, t: string)
    requires n > 0 && EscapeFree(t)
    ensures Shows(RenderLine(Hashes(n) + " " + t, true), t + "\n")
  {
    hide *;
    HeadingForm(n, t);
    HeadingLine(Hashes(n) + " " + t, n, t, true);
    StyleIs();
    BulletFree();
    ShowsStyled("\U{1B}[1;4m", t);
    ShowsItself("\n");
    ShowsConcat("\U{1B}[1;4m" + t + "\U{1B}[0m", t, "\n", "\n");
  }

  lemma HeadingForm(n: nat, t: string)
    requires n > 0
    ensures IsHeading(Hashes(n) + " " + t, n, t)
  {
  }

  /** Any other line shows its text. */
  lemma ParagraphSeen(spans: seq<Span>)
    requires var line := Sources(spans);
             && !IsRule(line) && (line == "" || line[0] != '>')
             && !(exists n, t :: IsHeading(line, n, t)) && !(exists p, mark, t :: IsBullet(line, p, mark, t))
             && !(exists p, x, t :: IsNumbered(line, p, x, t))
    requires LegalSpans(spans) && EscapeFree(Sources(spans))
    ensures Shows(RenderLine(Sources(spans), true), AllSeen(spans) + "\n")
  {
    ParagraphLine(Sources(spans), true);
    hide *;
    BulletFree();
    ShowsItself("");
    SpansSeen("", "", spans);
    assert "" + RenderInline(Sources(spans), true) == RenderInline(Sources(spans), true);
    assert "" + AllSeen(spans) == AllSeen(spans);
  }
}
