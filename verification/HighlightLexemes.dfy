/** What the highlighter of src/tui/highlight.cpp colours: a line given as its lexemes. */
module HighlightLexemes {
  import opened Ansi
  import opened Highlight
  import opened Text
  import opened Wrappers

  /** Words, numbers, strings that are closed or run to the end of the line, single signs, comments to the end of the
      line, and preprocessor lines. */
  datatype Lexeme =
    | Word(text: string)
    | Number(text: string)
    | Quoted(quote: char, body: string)
    | Unclosed(quote: char, body: string)
    | Sign(c: char)
    | Comment(text: string)
    | Directive(text: string)

  ghost predicate IsWordChar(c: char) {
    'a' <= c <= 'z' || 'A' <= c <= 'Z' || '0' <= c <= '9' || c == '_'
  }

  ghost predicate IsNumberChar(c: char) {
    '0' <= c <= '9' || c == '.' || c == 'x' || c == 'f'
  }

  ghost predicate IsWord(w: string) {
    w != "" && !('0' <= w[0] <= '9') && forall k :: 0 <= k < |w| ==> IsWordChar(w[k])
  }

  /** A language whose words are words and whose comments begin with a sign. */
  ghost predicate LegalLanguage(l: Language) {
    && !IsWordChar(l.comment[0]) && l.comment[0] != '"' && l.comment[0] != '\''
    && (forall k :: 0 <= k < |l.keywords| ==> IsWord(l.keywords[k]))
    && forall k :: 0 <= k < |l.types| ==> IsWord(l.types[k])
  }

  /** In a string every quote of its kind follows a backslash. */
  ghost predicate QuotesEscaped(quote: char, body: string) {
    forall k :: 0 <= k < |body| && body[k] == quote ==> k > 0 && body[k - 1] == '\\'
  }

  ghost predicate LegalLexeme(x: Lexeme, l: Language) {
    match x
    case Word(t) => IsWord(t)
    case Number(t) => t != "" && '0' <= t[0] <= '9' && forall k :: 0 <= k < |t| ==> IsNumberChar(t[k])
    case Quoted(quote, body) =>
      (quote == '"' || quote == '\'') && QuotesEscaped(quote, body) && (body != "" ==> body[|body| - 1] != '\\')
    case Unclosed(quote, body) => (quote == '"' || quote == '\'') && QuotesEscaped(quote, body)
    case Sign(c) => !IsWordChar(c) && c != '"' && c != '\''
    case Comment(t) => l.comment <= t
    case Directive(t) => l.preprocessor && t != "" && t[0] == '#' && !(l.comment <= t)
  }

  ghost function Source(x: Lexeme): string {
    match x
    case Quoted(quote, body) => [quote] + body + [quote]
    case Unclosed(quote, body) => [quote] + body
    case Sign(c) => [c]
    case _ => x.text
  }

  ghost function Sources(xs: seq<Lexeme>): string
    decreases |xs|
  {
    if xs == [] then "" else Source(xs[0]) + Sources(xs[1..])
  }

  const BASE := "\U{1B}[36m"
  const OFF := "\U{1B}[0m"

  /** The lexeme in its colour, and the base colour again behind it. */
  ghost function Output(x: Lexeme, l: Language): string {
    match x
    case Word(t) =>
      if t in l.keywords then "\U{1B}[1;33m" + t + BASE
      else if t in l.types then "\U{1B}[36m" + t + BASE
      else t
    case Number(t) => "\U{1B}[35m" + t + BASE
    case Quoted(_, _) => "\U{1B}[32m" + Source(x) + BASE
    case Unclosed(_, _) => "\U{1B}[32m" + Source(x) + BASE
    case Sign(c) => [c]
    case Comment(t) => "\U{1B}[2;37m" + t
    case Directive(t) => "\U{1B}[1;35m" + t
  }

  ghost function Outputs(xs: seq<Lexeme>, l: Language): string
    decreases |xs|
  {
    if xs == [] then OFF else Output(xs[0], l) + Outputs(xs[1..], l)
  }

  ghost predicate ToLineEnd(x: Lexeme) {
    x.Unclosed? || x.Comment? || x.Directive?
  }

  /** What may precede the lexeme. */
  ghost predicate MayFollow(pre: string, x: Lexeme, l: Language) {
    && (x.Word? || x.Number? ==> pre == "" || !IsWordChar(pre[|pre| - 1]))
    && (x.Directive? ==> pre == "")
    && (x == Sign('#') && l.preprocessor ==> pre != "")
  }

  /** What may follow it. */
  ghost predicate MayPrecede(x: Lexeme, rest: string, l: Language) {
    && (x.Word? ==> rest == "" || !IsWordChar(rest[0]))
    && (x.Number? ==> rest == "" || !IsNumberChar(rest[0]))
    && (x.Sign? ==> !(l.comment <= [x.c] + rest))
  }

  /** The lexemes of a line that begins with `pre`. */
  ghost predicate LegalLine(pre: string, xs: seq<Lexeme>, l: Language)
    decreases |xs|
  {
    xs == []
    || (&& LegalLexeme(xs[0], l) && MayFollow(pre, xs[0], l) && MayPrecede(xs[0], Sources(xs[1..]), l)
        && (ToLineEnd(xs[0]) ==> |xs| == 1)
        && LegalLine(pre + Source(xs[0]), xs[1..], l))
  }

  // ----- words -----

  lemma BoundaryIs(c: char)
    ensures IsBoundary(c) <==> !IsWordChar(c)
  {
  }

  lemma WordStands(line: string, i: nat, t: string)
    requires OccursAt(line, t, i)
    ensures i + |t| <= |line| && forall k :: 0 <= k < |t| ==> line[i + k] == t[k]
  {
    OccursChars(line, t, i);
  }

  /** A word of the table is found at a word exactly when it is that word. */
  lemma MatchIs(line: string, i: nat, t: string, kw: string)
    requires OccursAt(line, t, i) && IsWord(t) && IsWord(kw) && (i > 0 ==> !IsWordChar(line[i - 1]))
    requires i + |t| < |line| ==> !IsWordChar(line[i + |t|])
    ensures i + |t| <= |line| && (MatchKeyword(line, i, kw) <==> kw == t)
  {
    WordStands(line, i, t);
    if i > 0 { BoundaryIs(line[i - 1]); }
    if i + |t| < |line| { BoundaryIs(line[i + |t|]); }
    if kw != t {
      OtherWord(line, i, t, kw);
    }
  }

  lemma InWord(line: string, i: nat, w: string, k: nat)
    requires OccursAt(line, w, i) && IsWord(w) && k < |w|
    ensures i + k < |line| && IsWordChar(line[i + k])
  {
    WordStands(line, i, w);
  }

  lemma OtherWord(line: string, i: nat, t: string, kw: string)
    requires OccursAt(line, t, i) && IsWord(t) && IsWord(kw) && kw != t
    requires i + |t| < |line| ==> !IsWordChar(line[i + |t|])
    ensures i <= |line| && !MatchKeyword(line, i, kw)
  {
    WordStands(line, i, t);
    hide IsWordChar, IsBoundary, IsWord;
    if |kw| < |t| {
      InWord(line, i, t, |kw|);
      BoundaryIs(line[i + |kw|]);
    } else if |kw| > |t| && OccursAt(line, kw, i) {
      InWord(line, i, kw, |t|);
    } else {
      assert |kw| == |t| ==> line[i..i + |t|] == t;
    }
  }

  lemma {:induction false} FirstWordIs(line: string, i: nat, t: string, words: seq<Highlight.Word>)
    requires OccursAt(line, t, i) && IsWord(t) && (i > 0 ==> i <= |line| && !IsWordChar(line[i - 1]))
    requires i + |t| < |line| ==> !IsWordChar(line[i + |t|])
    requires forall k :: 0 <= k < |words| ==> IsWord(words[k])
    ensures i + |t| <= |line|
    ensures var r := FirstWord(line, i, words); if t in words then r.Some? && r.value == t else r.None?
    decreases |words|
  {
    hide MatchKeyword, IsWordChar;
    WordStands(line, i, t);
    if words != [] {
      MatchIs(line, i, t, words[0]);
      FirstWordIs(line, i, t, words[1..]);
      assert words == [words[0]] + words[1..];
    }
  }

  /** No word of the table begins with a sign. */
  lemma {:induction false} NoWordAtSign(line: string, i: nat, words: seq<Highlight.Word>)
    requires i < |line| && !IsWordChar(line[i]) && forall k :: 0 <= k < |words| ==> IsWord(words[k])
    ensures FirstWord(line, i, words) == None
    decreases |words|
  {
    if words != [] {
      assert IsWord(words[0]);
      if OccursAt(line, words[0], i) {
        NoSignInWord(line, i, words[0]);
      }
      hide MatchKeyword;
      NoWordAtSign(line, i, words[1..]);
    }
  }

  lemma NoSignInWord(line: string, i: nat, w: string)
    requires i < |line| && IsWord(w) && OccursAt(line, w, i)
    ensures IsWordChar(line[i])
  {
    WordStands(line, i, w);
    assert line[i + 0] == w[0];
  }

  lemma NoCommentAt(line: string, i: nat, l: Language)
    requires LegalLanguage(l) && i < |line| && (IsWordChar(line[i]) || line[i] == '"' || line[i] == '\'')
    ensures !OccursAt(line, l.comment, i)
  {
    Mismatch2(line, l.comment, i);
  }

  lemma Mismatch2(line: string, t: string, i: nat)
    requires t != "" && i < |line| && line[i] != t[0]
    ensures !OccursAt(line, t, i)
  {
    if i + |t| <= |line| {
      Mismatch(line, t, i, 0);
    }
  }

  // ----- strings and numbers -----

  lemma {:induction false} StringEnds(line: string, j: nat, quote: char, body: string, k: nat)
    requires 0 < j && k <= |body| && j + |body| < |line| && line[j + |body|] == quote && quote != '\\'
    requires (forall m :: 0 <= m < |body| ==> line[j + m] == body[m]) && line[j - 1] == quote
    requires QuotesEscaped(quote, body) && (body != "" ==> body[|body| - 1] != '\\')
    ensures StringEnd(line, j + k, quote) == j + |body| + 1
    decreases |body| - k
  {
    if k < |body| {
      assert line[j + k] == body[k] && (k > 0 ==> line[j + (k - 1)] == body[k - 1]);
      StringEnds(line, j, quote, body, k + 1);
    } else if k > 0 {
      assert line[j + (k - 1)] == body[k - 1];
    }
  }

  lemma {:induction false} StringRuns(line: string, j: nat, quote: char, body: string, k: nat)
    requires 0 < j && k <= |body| && j + |body| == |line| && quote != '\\'
    requires forall m :: 0 <= m < |body| ==> line[j + m] == body[m]
    requires QuotesEscaped(quote, body)
    ensures StringEnd(line, j + k, quote) == |line|
    decreases |body| - k
  {
    if k < |body| {
      assert line[j + k] == body[k] && (k > 0 ==> line[j + (k - 1)] == body[k - 1]);
      StringRuns(line, j, quote, body, k + 1);
    }
  }

  lemma {:induction false} NumberEnds(line: string, i: nat, n: nat)
    requires i <= n <= |line| && (forall k :: i <= k < n ==> IsNumberChar(line[k]))
    requires n < |line| ==> !IsNumberChar(line[n])
    ensures NumberEnd(line, i) == n
    decreases n - i
  {
    if i < n {
      NumberEnds(line, i + 1, n);
    }
  }

  // ----- one lexeme -----

  lemma StepIs(line: string, i: nat, l: Language, code: Option<string>, end: nat)
    requires i < |line| && !ToEnd(line, i, l) && Piece(line, i, l) == (code, end)
    ensures end <= |line| && HighlightFrom(line, i, l) == Coloured(code, line[i..end]) + HighlightFrom(line, end, l)
  {
    hide Piece, ToEnd, Coloured;
    FromUnfold(line, i, l);
  }

  lemma NotToEnd(line: string, i: nat, l: Language)
    requires LegalLanguage(l) && i < |line| && (IsWordChar(line[i]) || line[i] == '"' || line[i] == '\'')
    ensures !ToEnd(line, i, l)
  {
    NoCommentAt(line, i, l);
  }

  /** A character inside a word. */
  lemma InsideWord(line: string, i: nat, l: Language)
    requires LegalLanguage(l) && 0 < i < |line| && IsWordChar(line[i]) && IsWordChar(line[i - 1])
    ensures HighlightFrom(line, i, l) == [line[i]] + HighlightFrom(line, i + 1, l)
  {
    NotToEnd(line, i, l);
    BoundaryIs(line[i - 1]);
    PieceIs(line, i, l);
    StepIs(line, i, l, None, i + 1);
    assert line[i..i + 1] == [line[i]];
  }

  lemma {:induction false} RestOfWord(line: string, i: nat, t: string, k: nat, l: Language)
    requires LegalLanguage(l) && OccursAt(line, t, i) && IsWord(t) && 0 < k <= |t|
    ensures i + |t| <= |line| && HighlightFrom(line, i + k, l) == t[k..] + HighlightFrom(line, i + |t|, l)
    decreases |t| - k
  {
    hide HighlightFrom, LegalLanguage, IsWord;
    WordStands(line, i, t);
    if k == |t| {
      assert t[k..] == "" && "" + HighlightFrom(line, i + |t|, l) == HighlightFrom(line, i + |t|, l);
    } else {
      InWord(line, i, t, k);
      InWord(line, i, t, k - 1);
      InsideWord(line, i + k, l);
      RestOfWord(line, i, t, k + 1, l);
      assert t[k..] == [t[k]] + t[k + 1..];
    }
  }

  lemma WordPieceIs(line: string, i: nat, t: string, l: Language)
    requires LegalLanguage(l) && OccursAt(line, t, i) && IsWord(t)
    requires i > 0 ==> i <= |line| && !IsWordChar(line[i - 1])
    requires i + |t| < |line| ==> !IsWordChar(line[i + |t|])
    ensures i < |line| && i + |t| <= |line| && !ToEnd(line, i, l)
    ensures Piece(line, i, l) == if t in l.keywords then (Some("\U{1B}[1;33m"), i + |t|)
                                 else if t in l.types then (Some("\U{1B}[36m"), i + |t|)
                                 else (None, i + 1)
  {
    InWord(line, i, t, 0);
    WordStands(line, i, t);
    NotToEnd(line, i, l);
    PieceIs(line, i, l);
    if i > 0 { BoundaryIs(line[i - 1]); }
    FirstWordIs(line, i, t, l.keywords);
    FirstWordIs(line, i, t, l.types);
    assert line[i + 0] == t[0];
    hide FirstWord, IsWord, OccursAt;
  }

  lemma WordHere(line: string, i: nat, t: string, l: Language)
    requires LegalLanguage(l) && OccursAt(line, t, i) && IsWord(t)
    requires i > 0 ==> i <= |line| && !IsWordChar(line[i - 1])
    requires i + |t| < |line| ==> !IsWordChar(line[i + |t|])
    ensures i + |t| <= |line| && HighlightFrom(line, i, l) == Output(Word(t), l) + HighlightFrom(line, i + |t|, l)
  {
    hide Piece, ToEnd, HighlightFrom, LegalLanguage;
    WordPieceIs(line, i, t, l);
    WordStands(line, i, t);
    var (code, end) := Piece(line, i, l);
    StepIs(line, i, l, code, end);
    assert line[i..i + |t|] == t;
    if code == None {
      RestOfWord(line, i, t, 1, l);
      assert line[i..i + 1] == t[..1] && t == t[..1] + t[1..];
    }
  }

  lemma NumberHere(line: string, i: nat, t: string, l: Language)
    requires LegalLanguage(l) && OccursAt(line, t, i) && LegalLexeme(Number(t), l)
    requires i > 0 ==> i <= |line| && !IsWordChar(line[i - 1])
    requires i + |t| < |line| ==> !IsNumberChar(line[i + |t|])
    ensures i + |t| <= |line| && HighlightFrom(line, i, l) == Output(Number(t), l) + HighlightFrom(line, i + |t|, l)
  {
    hide HighlightFrom;
    WordStands(line, i, t);
    assert line[i + 0] == t[0];
    forall k | i <= k < i + |t| ensures IsNumberChar(line[k]) {
      assert line[i + (k - i)] == t[k - i];
    }
    NumberEnds(line, i, i + |t|);
    NotToEnd(line, i, l);
    PieceIs(line, i, l);
    if i > 0 { BoundaryIs(line[i - 1]); }
    StepIs(line, i, l, Some("\U{1B}[35m"), i + |t|);
    assert line[i..i + |t|] == t;
  }

  lemma QuotedHere(line: string, i: nat, quote: char, body: string, l: Language)
    requires LegalLanguage(l) && OccursAt(line, [quote] + body + [quote], i) && LegalLexeme(Quoted(quote, body), l)
    ensures var n := i + |body| + 2;
            n <= |line| && HighlightFrom(line, i, l) == Output(Quoted(quote, body), l) + HighlightFrom(line, n, l)
  {
    hide HighlightFrom;
    var t := [quote] + body + [quote];
    QuoteChars(line, i, quote, body, [quote]);
    StringEnds(line, i + 1, quote, body, 0);
    NotToEnd(line, i, l);
    PieceIs(line, i, l);
    StepIs(line, i, l, Some("\U{1B}[32m"), i + |t|);
    assert line[i..i + |t|] == t;
  }

  lemma QuoteChars(line: string, i: nat, quote: char, body: string, close: string)
    requires OccursAt(line, [quote] + body + close, i)
    ensures i + 1 + |body| + |close| <= |line| && line[i] == quote
    ensures (forall m :: 0 <= m < |body| ==> line[i + 1 + m] == body[m])
    ensures forall m :: 0 <= m < |close| ==> line[i + 1 + |body| + m] == close[m]
  {
    var t := [quote] + body + close;
    WordStands(line, i, t);
    assert line[i + 0] == t[0];
    forall m | 0 <= m < |body| ensures line[i + 1 + m] == body[m] {
      assert line[i + (1 + m)] == t[1 + m];
    }
    forall m | 0 <= m < |close| ensures line[i + 1 + |body| + m] == close[m] {
      assert line[i + (1 + |body| + m)] == t[1 + |body| + m];
    }
  }

  lemma UnclosedHere(line: string, i: nat, quote: char, body: string, l: Language)
    requires LegalLanguage(l) && OccursAt(line, [quote] + body, i) && LegalLexeme(Unclosed(quote, body), l)
    requires i + 1 + |body| == |line|
    ensures HighlightFrom(line, i, l) == Output(Unclosed(quote, body), l) + OFF
  {
    var t := [quote] + body;
    assert t + "" == t;
    QuoteChars(line, i, quote, body, "");
    StringRuns(line, i + 1, quote, body, 0);
    NotToEnd(line, i, l);
    PieceIs(line, i, l);
    StepIs(line, i, l, Some("\U{1B}[32m"), |line|);
    assert line[i..|line|] == t;
  }

  lemma SignHere(line: string, i: nat, c: char, l: Language)
    requires LegalLanguage(l) && i < |line| && line[i] == c && LegalLexeme(Sign(c), l)
    requires !OccursAt(line, l.comment, i) && (c == '#' && l.preprocessor ==> i > 0)
    ensures HighlightFrom(line, i, l) == [c] + HighlightFrom(line, i + 1, l)
  {
    NoWordAtSign(line, i, l.keywords);
    NoWordAtSign(line, i, l.types);
    PieceIs(line, i, l);
    StepIs(line, i, l, None, i + 1);
    assert line[i..i + 1] == [c];
  }

  lemma EndHere(line: string, i: nat, t: string, l: Language)
    requires i < |line| && line[i..] == t
    requires l.comment <= t || (i == 0 && l.preprocessor && t[0] == '#')
    ensures HighlightFrom(line, i, l) == (if l.comment <= t then "\U{1B}[2;37m" else "\U{1B}[1;35m") + t + OFF
  {
    assert l.comment <= t <==> OccursAt(line, l.comment, i) by {
      if |l.comment| <= |t| {
        assert line[i..i + |l.comment|] == line[i..][..|l.comment|];
      }
    }
  }

  // ----- whole lines -----

  lemma LexemeStands(pre: string, x: string, rest: string)
    ensures var line := pre + (x + rest);
            && OccursAt(line, x, |pre|) && line == (pre + x) + rest && line[|pre|..] == x + rest
            && (pre != "" ==> line[|pre| - 1] == pre[|pre| - 1])
            && (rest != "" ==> |pre| + |x| < |line| && line[|pre| + |x|] == rest[0])
            && (rest == "" ==> |pre| + |x| == |line|)
  {
    var line := pre + (x + rest);
    assert line[|pre|..|pre| + |x|] == x;
  }

  lemma WordCase(pre: string, t: string, rest: string, l: Language)
    requires LegalLanguage(l) && IsWord(t) && MayFollow(pre, Word(t), l) && MayPrecede(Word(t), rest, l)
    ensures HighlightFrom(pre + (t + rest), |pre|, l)
            == Output(Word(t), l) + HighlightFrom(pre + (t + rest), |pre + t|, l)
  {
    hide HighlightFrom, LegalLanguage, IsWordChar, OccursAt, Output, IsWord;
    LexemeStands(pre, t, rest);
    WordHere(pre + (t + rest), |pre|, t, l);
  }

  lemma NumberCase(pre: string, t: string, rest: string, l: Language)
    requires LegalLanguage(l) && LegalLexeme(Number(t), l)
    requires MayFollow(pre, Number(t), l) && MayPrecede(Number(t), rest, l)
    ensures HighlightFrom(pre + (t + rest), |pre|, l)
            == Output(Number(t), l) + HighlightFrom(pre + (t + rest), |pre + t|, l)
  {
    hide HighlightFrom, LegalLanguage, IsWordChar, IsNumberChar, OccursAt, Output, LegalLexeme;
    LexemeStands(pre, t, rest);
    NumberHere(pre + (t + rest), |pre|, t, l);
  }

  lemma QuotedCase(pre: string, quote: char, body: string, rest: string, l: Language)
    requires LegalLanguage(l) && LegalLexeme(Quoted(quote, body), l)
    ensures var t := [quote] + body + [quote];
            HighlightFrom(pre + (t + rest), |pre|, l)
            == Output(Quoted(quote, body), l) + HighlightFrom(pre + (t + rest), |pre + t|, l)
  {
    hide HighlightFrom, LegalLanguage, OccursAt, Output, LegalLexeme;
    var t := [quote] + body + [quote];
    LexemeStands(pre, t, rest);
    QuotedHere(pre + (t + rest), |pre|, quote, body, l);
  }

  lemma SignCase(pre: string, c: char, rest: string, l: Language)
    requires LegalLanguage(l) && LegalLexeme(Sign(c), l)
    requires MayFollow(pre, Sign(c), l) && MayPrecede(Sign(c), rest, l)
    ensures HighlightFrom(pre + ([c] + rest), |pre|, l) == [c] + HighlightFrom(pre + ([c] + rest), |pre + [c]|, l)
  {
    hide HighlightFrom, LegalLanguage, IsWordChar, OccursAt, LegalLexeme;
    var line := pre + ([c] + rest);
    LexemeStands(pre, [c], rest);
    PrefixOccurs(line, |pre|, l.comment);
    SignHere(line, |pre|, c, l);
  }

  lemma PrefixOccurs(line: string, i: nat, t: string)
    requires i <= |line|
    ensures OccursAt(line, t, i) <==> t <= line[i..]
  {
    if i + |t| <= |line| {
      assert line[i..i + |t|] == line[i..][..|t|];
    }
  }

  /** A lexeme that does not run to the end of the line. */
  lemma LexemeHere(pre: string, x: Lexeme, rest: string, l: Language)
    requires LegalLanguage(l) && LegalLexeme(x, l) && MayFollow(pre, x, l) && MayPrecede(x, rest, l) && !ToLineEnd(x)
    ensures var line := pre + (Source(x) + rest);
            HighlightFrom(line, |pre|, l) == Output(x, l) + HighlightFrom(line, |pre + Source(x)|, l)
  {
    hide HighlightFrom, LegalLanguage, IsWordChar, IsNumberChar, QuotesEscaped, IsWord, MayFollow, MayPrecede;
    match x
    case Word(t) => WordCase(pre, t, rest, l);
    case Number(t) => NumberCase(pre, t, rest, l);
    case Quoted(quote, body) => QuotedCase(pre, quote, body, rest, l);
    case Sign(c) => SignCase(pre, c, rest, l);
  }

  /** A lexeme that runs to the end. */
  lemma LastHere(pre: string, x: Lexeme, l: Language)
    requires LegalLanguage(l) && LegalLexeme(x, l) && MayFollow(pre, x, l) && ToLineEnd(x)
    ensures HighlightFrom(pre + Source(x), |pre|, l) == Output(x, l) + OFF
  {
    hide HighlightFrom, LegalLanguage, IsWordChar, IsNumberChar, OccursAt, QuotesEscaped;
    var line := pre + Source(x);
    LexemeStands(pre, Source(x), "");
    assert pre + (Source(x) + "") == line && Source(x) + "" == Source(x);
    match x
    case Unclosed(quote, body) => UnclosedHere(line, |pre|, quote, body, l);
    case Comment(t) => EndHere(line, |pre|, t, l);
    case Directive(t) => EndHere(line, |pre|, t, l);
  }

  lemma {:induction false} LexemesHighlighted(pre: string, xs: seq<Lexeme>, l: Language)
    requires LegalLanguage(l) && LegalLine(pre, xs, l)
    ensures HighlightFrom(pre + Sources(xs), |pre|, l) == Outputs(xs, l)
    decreases |xs|
  {
    hide HighlightFrom, LegalLanguage, LegalLexeme, Source, Output, MayFollow, MayPrecede, ToLineEnd;
    if xs == [] {
      AtLineEnd(pre + Sources(xs), |pre|, l);
    } else {
      var x, rest := xs[0], Sources(xs[1..]);
      if ToLineEnd(x) {
        assert xs[1..] == [] && Source(x) + "" == Source(x);
        LastHere(pre, x, l);
      } else {
        LexemeHere(pre, x, rest, l);
        LexemesHighlighted(pre + Source(x), xs[1..], l);
        assert pre + (Source(x) + rest) == (pre + Source(x)) + rest;
      }
    }
  }

  lemma AtLineEnd(line: string, i: nat, l: Language)
    requires i == |line|
    ensures HighlightFrom(line, i, l) == OFF
  {
  }

  /** A line of lexemes is coloured lexeme by lexeme: the words of the tables, numbers, strings, comments and
      preprocessor lines in their colours, everything else in the base colour. */
  lemma LineHighlighted(xs: seq<Lexeme>, l: Language)
    requires LegalLanguage(l) && LegalLine("", xs, l)
    ensures HighlightLine(Sources(xs), Some(l)) == BASE + Outputs(xs, l)
    ensures HighlightLine(Sources(xs), None) == BASE + Sources(xs) + OFF
  {
    hide LegalLine, LegalLanguage, HighlightFrom;
    LexemesHighlighted("", xs, l);
    assert "" + Sources(xs) == Sources(xs);
  }
}
