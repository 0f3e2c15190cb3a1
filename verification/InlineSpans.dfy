/** What the inline renderer of src/tui/markdown.cpp makes of text written in spans: plain words, styled text between
    delimiters, and links. */
module InlineSpans {
  import opened Ansi
  import opened Inline
  import opened Text

  datatype Span =
    | Words(text: string)
    | Strong(text: string)
    | Emphasis(text: string)
    | StrongEmphasis(text: string)
    | Struck(text: string)
    | Verbatim(text: string)
    | Anchor(text: string, url: string)

  /** How a span is written. */
  ghost function Source(s: Span): string {
    match s
    case Words(t) => t
    case Strong(t) => "**" + t + "**"
    case Emphasis(t) => "*" + t + "*"
    case StrongEmphasis(t) => "***" + t + "***"
    case Struck(t) => "~~" + t + "~~"
    case Verbatim(t) => "`" + t + "`"
    case Anchor(t, url) => "[" + t + "](" + url + ")"
  }

  /** What is written to the terminal for it. */
  ghost function Output(s: Span): string {
    match s
    case Words(t) => t
    case Strong(t) => "\U{1B}[1m" + t + "\U{1B}[0m"
    case Emphasis(t) => "\U{1B}[3m" + t + "\U{1B}[0m"
    case StrongEmphasis(t) => "\U{1B}[1;3m" + t + "\U{1B}[0m"
    case Struck(t) => "\U{1B}[9m" + t + "\U{1B}[0m"
    case Verbatim(t) => "\U{1B}[36m" + t + "\U{1B}[0m"
    case Anchor(t, url) => "\U{1B}[4m" + t + "\U{1B}[0m" + " " + "\U{1B}[2m" + ("(" + url + ")") + "\U{1B}[0m"
  }

  /** What a reader sees of it. */
  ghost function Seen(s: Span): string {
    match s
    case Anchor(t, url) => t + " (" + url + ")"
    case _ => s.text
  }

  ghost predicate Starred(s: Span) {
    s.Strong? || s.Emphasis? || s.StrongEmphasis?
  }

  /** No delimiter. */
  ghost predicate PlainText(t: string) {
    forall k :: 0 <= k < |t| ==> t[k] !in {'*', '~', '`', '['}
  }

  /** The text of a span does not hold its own delimiter. */
  ghost predicate Legal(s: Span) {
    match s
    case Words(t) => t != "" && PlainText(t)
    case Struck(t) => '~' !in t
    case Verbatim(t) => t != "" && '`' !in t
    case Anchor(t, url) => ']' !in t && ')' !in url
    case _ => s.text != "" && '*' !in s.text
  }

  /** Legal spans, no two with stars side by side. */
  ghost predicate LegalSpans(spans: seq<Span>) {
    && (forall k :: 0 <= k < |spans| ==> Legal(spans[k]))
    && forall k :: 0 < k < |spans| ==> !(Starred(spans[k - 1]) && Starred(spans[k]))
  }

  ghost function Sources(spans: seq<Span>): string {
    if spans == [] then "" else Source(spans[0]) + Sources(spans[1..])
  }

  ghost function Outputs(spans: seq<Span>): string {
    if spans == [] then "" else Output(spans[0]) + Outputs(spans[1..])
  }

  ghost function AllSeen(spans: seq<Span>): string {
    if spans == [] then "" else Seen(spans[0]) + AllSeen(spans[1..])
  }

  // ----- one span -----

  lemma SliceChar(line: string, i: nat, t: string, k: nat)
    requires OccursAt(line, t, i) && k < |t|
    ensures i + k < |line| && line[i + k] == t[k]
  {
    OccursChars(line, t, i);
  }

  lemma OccursParts(line: string, i: nat, a: string, b: string)
    requires OccursAt(line, a + b, i)
    ensures OccursAt(line, a, i) && OccursAt(line, b, i + |a|) && i + |a| + |b| <= |line|
    ensures line[i..i + |a|] == a && line[i + |a|..i + |a| + |b|] == b
  {
    assert line[i..i + |a + b|][..|a|] == a;
    assert line[i..i + |a + b|][|a|..] == b;
  }

  /** The end of a text that does not hold the delimiter's character. */
  lemma FindEnd(line: string, from: nat, t: string, c: char, d: string)
    requires OccursAt(line, t + d, from) && c !in t && d != "" && forall k :: 0 <= k < |d| ==> d[k] == c
    ensures Find(line, d, from) == from + |t| && line[from..from + |t|] == t && from + |t| + |d| <= |line|
  {
    OccursParts(line, from, t, d);
    forall k: nat | from <= k < from + |t| ensures !OccursAt(line, d, k) {
      SliceChar(line, from, t, k - from);
      Mismatch(line, d, k, 0);
    }
    FindIs(line, d, from, from + |t|);
  }

  /** A delimiter, a text and the delimiter. */
  lemma Delimited(line: string, i: nat, d: string, t: string, c: char, code: string)
    requires OccursAt(line, d + (t + d), i) && c !in t && d != "" && forall k :: 0 <= k < |d| ==> d[k] == c
    ensures i + |d| <= |line| && Between(line, i, d, code) == Styled(code, t, i + |d| + |t| + |d|)
  {
    OccursParts(line, i, d, t + d);
    FindEnd(line, i + |d|, t, c, d);
  }

  lemma StrongHere(line: string, i: nat, t: string)
    requires OccursAt(line, "**" + (t + "**"), i) && t != "" && '*' !in t
    ensures i < |line| && FirstMatch(line, i) == Styled("\U{1B}[1m", t, i + |t| + 4)
  {
    hide Between;
    var s := "**" + (t + "**");
    SliceChar(line, i, s, 0);
    SliceChar(line, i, s, 1);
    SliceChar(line, i, s, 2);
    assert s[2] == t[0];
    Delimited(line, i, "**", t, '*', BOLD);
  }

  lemma StrongEmphasisHere(line: string, i: nat, t: string)
    requires OccursAt(line, "***" + (t + "***"), i) && t != "" && '*' !in t
    ensures i < |line| && FirstMatch(line, i) == Styled("\U{1B}[1;3m", t, i + |t| + 6)
  {
    hide Between;
    var s := "***" + (t + "***");
    SliceChar(line, i, s, 0);
    SliceChar(line, i, s, 1);
    SliceChar(line, i, s, 2);
    Delimited(line, i, "***", t, '*', BOLD_ITALIC);
  }

  lemma EmphasisHere(line: string, i: nat, t: string)
    requires OccursAt(line, "*" + (t + "*"), i) && t != "" && '*' !in t
    requires i > 0 ==> line[i - 1] != '*'
    requires i + |t| + 2 < |line| ==> line[i + |t| + 2] != '*'
    ensures i < |line| && FirstMatch(line, i) == Styled("\U{1B}[3m", t, i + |t| + 2)
  {
    hide Between;
    var s := "*" + (t + "*");
    SliceChar(line, i, s, 0);
    SliceChar(line, i, s, 1);
    assert s[1] == t[0];
    OccursParts(line, i, "*", t + "*");
    FindEnd(line, i + 1, t, '*', "*");
  }

  lemma StruckHere(line: string, i: nat, t: string)
    requires OccursAt(line, "~~" + (t + "~~"), i) && '~' !in t
    ensures i < |line| && FirstMatch(line, i) == Styled("\U{1B}[9m", t, i + |t| + 4)
  {
    hide Between;
    var s := "~~" + (t + "~~");
    SliceChar(line, i, s, 0);
    SliceChar(line, i, s, 1);
    Delimited(line, i, "~~", t, '~', STRIKE);
  }

  lemma VerbatimHere(line: string, i: nat, t: string)
    requires OccursAt(line, "`" + (t + "`"), i) && t != "" && '`' !in t
    ensures i < |line| && FirstMatch(line, i) == Styled("\U{1B}[36m", t, i + |t| + 2)
  {
    hide Between;
    var s := "`" + (t + "`");
    SliceChar(line, i, s, 0);
    SliceChar(line, i, s, 1);
    assert s[1] == t[0];
    Delimited(line, i, "`", t, '`', CODE);
  }

  /** The parts of a link. */
  lemma AnchorParts(line: string, i: nat, t: string, url: string)
    requires OccursAt(line, "[" + (t + ("](" + (url + ")"))), i)
    ensures OccursAt(line, "[", i) && OccursAt(line, t + "]", i + 1)
    ensures OccursAt(line, "(", i + |t| + 2) && OccursAt(line, url + ")", i + |t| + 3)
  {
    hide OccursAt;
    var tail := "](" + (url + ")");
    OccursParts(line, i, "[", t + tail);
    assert t + tail == (t + "]") + ("(" + (url + ")"));
    OccursParts(line, i + 1, t + "]", "(" + (url + ")"));
    OccursParts(line, i + |t| + 2, "(", url + ")");
  }

  lemma LinkFound(line: string, i: nat, close: nat, paren: nat)
    requires i < |line| && line[i] == '[' && Find(line, "]", i + 1) == close
    requires close + 1 < |line| && line[close + 1] == '(' && Find(line, ")", close + 2) == paren
    ensures i < close && close + 2 <= paren < |line|
    ensures FirstMatch(line, i) == Link(line[i + 1..close], line[close + 2..paren], paren + 1)
  {
    hide Find, Between;
    OccursFits(line, close, "]");
    OccursFits(line, paren, ")");
  }

  lemma AnchorHere(line: string, i: nat, t: string, url: string)
    requires OccursAt(line, "[" + (t + ("](" + (url + ")"))), i) && ']' !in t && ')' !in url
    ensures i < |line| && FirstMatch(line, i) == Link(t, url, i + |t| + |url| + 4)
  {
    hide OccursAt, Find, FirstMatch;
    AnchorParts(line, i, t, url);
    SliceChar(line, i, "[", 0);
    FindEnd(line, i + 1, t, ']', "]");
    SliceChar(line, i + |t| + 2, "(", 0);
    FindEnd(line, i + |t| + 3, url, ')', ")");
    LinkFound(line, i, i + 1 + |t|, i + |t| + 3 + |url|);
  }

  lemma PlainStep(line: string, i: nat)
    requires i < |line| && line[i] !in {'*', '~', '`', '['}
    ensures RenderFrom(line, i) == [line[i]] + RenderFrom(line, i + 1)
  {
    hide Find;
  }

  lemma {:induction false} WordsHere(line: string, i: nat, t: string)
    requires OccursAt(line, t, i) && PlainText(t)
    ensures i + |t| <= |line| && RenderFrom(line, i) == t + RenderFrom(line, i + |t|)
    decreases |t|
  {
    hide RenderFrom;
    if t == "" {
      assert "" + RenderFrom(line, i) == RenderFrom(line, i);
    } else {
      SliceChar(line, i, t, 0);
      PlainStep(line, i);
      assert t == [t[0]] + t[1..];
      OccursParts(line, i, [t[0]], t[1..]);
      WordsHere(line, i + 1, t[1..]);
    }
  }

  lemma StyledStep(line: string, i: nat, code: string, t: string, next: nat)
    requires i < |line| && FirstMatch(line, i) == Styled(code, t, next)
    ensures next <= |line| && RenderFrom(line, i) == code + t + "\U{1B}[0m" + RenderFrom(line, next)
  {
    hide FirstMatch;
  }

  lemma LinkStep(line: string, i: nat, t: string, url: string, next: nat)
    requires i < |line| && FirstMatch(line, i) == Link(t, url, next)
    ensures next <= |line| && RenderFrom(line, i) == Output(Anchor(t, url)) + RenderFrom(line, next)
  {
    hide FirstMatch;
    var a, b := "\U{1B}[4m" + t + "\U{1B}[0m", "\U{1B}[2m" + ("(" + url + ")") + "\U{1B}[0m";
    assert a + (" " + b) == Output(Anchor(t, url));
  }

  /** The end of the span that stands at `i`. */
  ghost predicate Apart(line: string, i: nat, s: Span) {
    s.Emphasis? ==>
      (i > 0 && i <= |line| ==> line[i - 1] != '*') && (i + |Source(s)| < |line| ==> line[i + |Source(s)|] != '*')
  }

  lemma StrongSpan(line: string, i: nat, t: string)
    requires var s := Strong(t); OccursAt(line, Source(s), i) && Legal(s) && Apart(line, i, s)
    ensures var s := Strong(t);
            i + |Source(s)| <= |line| && RenderFrom(line, i) == Output(s) + RenderFrom(line, i + |Source(s)|)
  {
    hide RenderFrom, FirstMatch, OccursAt;
    assert Source(Strong(t)) == "**" + (t + "**");
    StrongHere(line, i, t);
    StyledStep(line, i, "\U{1B}[1m", t, i + |t| + 4);
  }

  lemma EmphasisSpan(line: string, i: nat, t: string)
    requires var s := Emphasis(t); OccursAt(line, Source(s), i) && Legal(s) && Apart(line, i, s)
    ensures var s := Emphasis(t);
            i + |Source(s)| <= |line| && RenderFrom(line, i) == Output(s) + RenderFrom(line, i + |Source(s)|)
  {
    hide RenderFrom, FirstMatch, OccursAt;
    assert Source(Emphasis(t)) == "*" + (t + "*");
    OccursFits(line, i, Source(Emphasis(t)));
    EmphasisHere(line, i, t);
    StyledStep(line, i, "\U{1B}[3m", t, i + |t| + 2);
  }

  lemma StrongEmphasisSpan(line: string, i: nat, t: string)
    requires var s := StrongEmphasis(t); OccursAt(line, Source(s), i) && Legal(s) && Apart(line, i, s)
    ensures var s := StrongEmphasis(t);
            i + |Source(s)| <= |line| && RenderFrom(line, i) == Output(s) + RenderFrom(line, i + |Source(s)|)
  {
    hide RenderFrom, FirstMatch, OccursAt;
    assert Source(StrongEmphasis(t)) == "***" + (t + "***");
    StrongEmphasisHere(line, i, t);
    StyledStep(line, i, "\U{1B}[1;3m", t, i + |t| + 6);
  }

  lemma StruckSpan(line: string, i: nat, t: string)
    requires var s := Struck(t); OccursAt(line, Source(s), i) && Legal(s) && Apart(line, i, s)
    ensures var s := Struck(t);
            i + |Source(s)| <= |line| && RenderFrom(line, i) == Output(s) + RenderFrom(line, i + |Source(s)|)
  {
    hide RenderFrom, FirstMatch, OccursAt;
    assert Source(Struck(t)) == "~~" + (t + "~~");
    StruckHere(line, i, t);
    StyledStep(line, i, "\U{1B}[9m", t, i + |t| + 4);
  }

  lemma VerbatimSpan(line: string, i: nat, t: string)
    requires var s := Verbatim(t); OccursAt(line, Source(s), i) && Legal(s) && Apart(line, i, s)
    ensures var s := Verbatim(t);
            i + |Source(s)| <= |line| && RenderFrom(line, i) == Output(s) + RenderFrom(line, i + |Source(s)|)
  {
    hide RenderFrom, FirstMatch, OccursAt;
    assert Source(Verbatim(t)) == "`" + (t + "`");
    VerbatimHere(line, i, t);
    StyledStep(line, i, "\U{1B}[36m", t, i + |t| + 2);
  }

  lemma AnchorSpan(line: string, i: nat, t: string, url: string)
    requires var s := Anchor(t, url); OccursAt(line, Source(s), i) && Legal(s)
    ensures var s := Anchor(t, url);
            i + |Source(s)| <= |line| && RenderFrom(line, i) == Output(s) + RenderFrom(line, i + |Source(s)|)
  {
    hide RenderFrom, FirstMatch, OccursAt;
    assert Source(Anchor(t, url)) == "[" + (t + ("](" + (url + ")")));
    AnchorHere(line, i, t, url);
    LinkStep(line, i, t, url, i + |t| + |url| + 4);
  }

  /** A span is rendered as its output, wherever it stands. */
  lemma SpanHere(line: string, i: nat, s: Span)
    requires OccursAt(line, Source(s), i) && Legal(s) && Apart(line, i, s)
    ensures i + |Source(s)| <= |line| && RenderFrom(line, i) == Output(s) + RenderFrom(line, i + |Source(s)|)
  {
    hide RenderFrom, OccursAt, PlainText, Apart;
    match s
    case Words(t) => WordsHere(line, i, t);
    case Strong(t) => StrongSpan(line, i, t);
    case Emphasis(t) => EmphasisSpan(line, i, t);
    case StrongEmphasis(t) => StrongEmphasisSpan(line, i, t);
    case Struck(t) => StruckSpan(line, i, t);
    case Verbatim(t) => VerbatimSpan(line, i, t);
    case Anchor(t, url) => AnchorSpan(line, i, t, url);
  }

  lemma OccursFits(line: string, i: nat, t: string)
    requires OccursAt(line, t, i)
    ensures i + |t| <= |line|
  {
  }

  // ----- whole lines -----

  lemma LegalTail(spans: seq<Span>)
    requires LegalSpans(spans) && spans != []
    ensures Legal(spans[0]) && LegalSpans(spans[1..])
    ensures |spans| > 1 && Starred(spans[0]) ==> !Starred(spans[1])
  {
    hide Legal, Starred;
    forall k | 0 < k < |spans[1..]| ensures !(Starred(spans[1..][k - 1]) && Starred(spans[1..][k])) {
      assert spans[1..][k] == spans[k + 1] && spans[1..][k - 1] == spans[k];
    }
  }

  lemma SourceEnds(s: Span)
    requires Legal(s)
    ensures Source(s) != ""
    ensures !Starred(s) ==> Source(s)[0] != '*' && Source(s)[|Source(s)| - 1] != '*'
  {
  }

  ghost predicate EndsInStar(pre: string) {
    pre != "" && pre[|pre| - 1] == '*'
  }

  /** Spans are rendered one after the other. */
  lemma {:induction false} SpansRenderedFrom(pre: string, spans: seq<Span>)
    requires LegalSpans(spans) && (EndsInStar(pre) && spans != [] ==> !Starred(spans[0]))
    ensures RenderFrom(pre + Sources(spans), |pre|) == Outputs(spans)
    decreases |spans|
  {
    hide LegalSpans, Legal, Source, Output, Starred, RenderFrom, Apart, OccursAt;
    var line := pre + Sources(spans);
    if spans == [] {
      NothingLeft(line, |pre|);
    } else {
      var s, more := spans[0], spans[1..];
      LegalTail(spans);
      SourceEnds(s);
      if more != [] {
        LegalTail(more);
        SourceEnds(more[0]);
      }
      assert line == (pre + Source(s)) + Sources(more);
      SpanStands(pre, s, Sources(more));
      SpanHere(line, |pre|, s);
      SpansRenderedFrom(pre + Source(s), more);
    }
  }

  lemma SpanStands(pre: string, s: Span, rest: string)
    requires Starred(s) ==> !EndsInStar(pre) && (rest == "" || rest[0] != '*')
    ensures var line := pre + Source(s) + rest;
            OccursAt(line, Source(s), |pre|) && Apart(line, |pre|, s)
  {
    hide Source;
    var line := pre + Source(s) + rest;
    assert line[|pre|..|pre| + |Source(s)|] == Source(s);
    assert rest != "" ==> line[|pre + Source(s)|] == rest[0];
    assert pre != "" ==> line[|pre| - 1] == pre[|pre| - 1];
  }

  lemma NothingLeft(line: string, i: nat)
    requires i == |line|
    ensures RenderFrom(line, i) == ""
  {
  }

  /** Text written in spans is rendered as the spans' outputs; without colour it stays as it is. */
  lemma SpansRendered(spans: seq<Span>)
    requires LegalSpans(spans)
    ensures RenderInline(Sources(spans), true) == Outputs(spans)
    ensures RenderInline(Sources(spans), false) == Sources(spans)
  {
    SpansRenderedFrom("", spans);
    assert "" + Sources(spans) == Sources(spans);
  }

  /** Text without delimiters is rendered as it is. */
  lemma PlainRendered(t: string)
    requires PlainText(t)
    ensures RenderInline(t, true) == t
  {
    hide RenderFrom;
    assert t[0..|t|] == t;
    WordsHere(t, 0, t);
    NothingLeft(t, |t|);
  }

  lemma OutputShows(s: Span)
    requires EscapeFree(Source(s))
    ensures Shows(Output(s), Seen(s))
  {
    hide Shows, IsCode, EscapeFree, Source, Legal;
    Codes();
    SourceHolds(s);
    match s
    case Words(t) => ShowsItself(t);
    case Anchor(t, url) => AnchorShows(t, url);
    case Strong(t) => ShowsStyled("\U{1B}[1m", t);
    case Emphasis(t) => ShowsStyled("\U{1B}[3m", t);
    case StrongEmphasis(t) => ShowsStyled("\U{1B}[1;3m", t);
    case Struck(t) => ShowsStyled("\U{1B}[9m", t);
    case Verbatim(t) => ShowsStyled("\U{1B}[36m", t);
  }

  lemma AnchorShows(t: string, url: string)
    requires EscapeFree(t) && EscapeFree("(" + url + ")") && EscapeFree(" ")
    ensures Shows(Output(Anchor(t, url)), Seen(Anchor(t, url)))
  {
    hide Shows, IsCode, EscapeFree;
    Codes();
    ShowsStyled(UNDERLINE, t);
    ShowsStyled(DIM, "(" + url + ")");
    ShowsItself(" ");
    var a, b := UNDERLINE + t + RESET, DIM + ("(" + url + ")") + RESET;
    ShowsConcat(a, t, " ", " ");
    ShowsConcat(a + " ", t + " ", b, "(" + url + ")");
    assert a + " " + b == Output(Anchor(t, url)) && t + " " + ("(" + url + ")") == Seen(Anchor(t, url));
  }

  lemma SourceHolds(s: Span)
    requires EscapeFree(Source(s))
    ensures EscapeFree(s.text) && (s.Anchor? ==> EscapeFree("(" + s.url + ")") && EscapeFree(" "))
  {
  }

  /** What is seen of text written in spans: the texts without their delimiters, and the addresses of links. */
  lemma {:induction false} SpansShow(spans: seq<Span>)
    requires LegalSpans(spans) && EscapeFree(Sources(spans))
    ensures Shows(Outputs(spans), AllSeen(spans))
    decreases |spans|
  {
    hide Shows, Source, Output, Seen, Legal, Starred;
    if spans == [] {
      ShowsItself("");
    } else {
      LegalTail(spans);
      FreeParts(Source(spans[0]), Sources(spans[1..]));
      OutputShows(spans[0]);
      SpansShow(spans[1..]);
      ShowsConcat(Output(spans[0]), Seen(spans[0]), Outputs(spans[1..]), AllSeen(spans[1..]));
    }
  }

  lemma FreeParts(a: string, b: string)
    requires EscapeFree(a + b)
    ensures EscapeFree(a) && EscapeFree(b)
  {
    assert forall k :: 0 <= k < |a| ==> (a + b)[k] == a[k];
    assert forall k :: 0 <= k < |b| ==> (a + b)[|a| + k] == b[k];
  }

  // ----- delimiters that have no partner -----

  ghost predicate AtMostOne(t: string, c: char) {
    forall i, j :: 0 <= i < j < |t| ==> !(t[i] == c && t[j] == c)
  }

  /** No delimiter has a partner. */
  ghost predicate Unpaired(t: string) {
    && AtMostOne(t, '*') && AtMostOne(t, '`')
    && (forall i :: 0 <= i < |t| - 1 ==> !(t[i] == '~' && t[i + 1] == '~'))
    && forall i :: 0 <= i < |t| - 1 ==> !(t[i] == ']' && t[i + 1] == '(')
  }

  lemma NoneAfter(t: string, c: char, i: nat)
    requires AtMostOne(t, c) && i < |t| && t[i] == c
    ensures Find(t, [c], i + 1) == -1
  {
    forall k: nat | i < k ensures !OccursAt(t, [c], k) {
      if k < |t| {
        Mismatch(t, [c], k, 0);
      }
    }
    NotFound(t, [c], i + 1);
  }

  lemma UnpairedHere(t: string, i: nat)
    requires Unpaired(t) && i < |t|
    ensures FirstMatch(t, i) == NoMatch
  {
    hide Find, Between;
    if t[i] == '*' {
      NoneAfter(t, '*', i);
    } else if t[i] == '`' {
      NoneAfter(t, '`', i);
      NoCode(t, i);
    } else if t[i] == '[' {
      NoLink(t, i);
    }
  }

  lemma NoCode(t: string, i: nat)
    requires i < |t| && t[i] == '`' && Find(t, "`", i + 1) == -1
    ensures TryCode(t, i) == NoMatch
  {
    hide Find;
  }

  lemma NoLink(t: string, i: nat)
    requires Unpaired(t) && i < |t| && t[i] == '['
    ensures TryLink(t, i) == NoMatch
  {
    var close := Find(t, "]", i + 1);
    if close >= 0 {
      OccursChars(t, "]", close);
      assert t[close + 0] == ']';
    }
    hide Find;
  }

  lemma {:induction false} UnpairedFrom(t: string, i: nat)
    requires Unpaired(t) && i <= |t|
    ensures RenderFrom(t, i) == t[i..]
    decreases |t| - i
  {
    if i < |t| {
      UnpairedHere(t, i);
      hide FirstMatch, Unpaired;
      UnpairedFrom(t, i + 1);
    }
  }

  /** Delimiters without a partner are rendered as they are. */
  lemma UnpairedRendered(t: string)
    requires Unpaired(t)
    ensures RenderInline(t, true) == t
  {
    hide RenderFrom;
    UnpairedFrom(t, 0);
    assert t[0..] == t;
  }
}
