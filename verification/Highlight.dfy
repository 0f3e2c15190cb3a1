/** The line highlighter of src/tui/highlight.cpp. The keyword tables are parameters. */
module Highlight {
  import opened Ansi
  import opened Text
  import opened Wrappers

  type Word = w: string | w != "" witness "a"

  /** A language family: its keywords, its type names, its comment prefix, and whether a line that starts with
      `#` is a preprocessor line. */
  datatype Language = Language(keywords: seq<Word>, types: seq<Word>, comment: Word, preprocessor: bool)

  const KEYWORD := "\U{1B}[1;33m"
  const STRING := "\U{1B}[32m"
  const COMMENT := "\U{1B}[2;37m"
  const NUMBER := "\U{1B}[35m"
  const TYPE := "\U{1B}[36m"
  const PREPROC := "\U{1B}[1;35m"
  const CODE_BASE := "\U{1B}[36m"

  predicate IsDigit(c: char) {
    '0' <= c <= '9'
  }

  predicate IsBoundary(c: char) {
    !IsLetter(c) && !IsDigit(c) && c != '_'
  }

  predicate AtBoundary(line: string, i: nat)
    requires i <= |line|
  {
    i == 0 || IsBoundary(line[i - 1])
  }

  predicate MatchKeyword(line: string, i: nat, kw: string)
    requires i <= |line|
  {
    OccursAt(line, kw, i) && AtBoundary(line, i) && (i + |kw| < |line| ==> IsBoundary(line[i + |kw|]))
  }

  /** The first word of the table that stands at `i`. */
  function FirstWord(line: string, i: nat, words: seq<Word>): (r: Option<Word>)
    requires i <= |line|
    ensures r.Some? ==> MatchKeyword(line, i, r.value)
  {
    if words == [] then None
    else if MatchKeyword(line, i, words[0]) then Some(words[0])
    else FirstWord(line, i, words[1..])
  }

  /** The position after the closing quote of a string whose body starts at `j`, or the end of the line. */
  function StringEnd(line: string, j: nat, quote: char): (e: nat)
    requires 0 < j <= |line|
    ensures j <= e <= |line|
    decreases |line| - j
  {
    if j == |line| then j
    else if line[j] == quote && line[j - 1] != '\\' then j + 1
    else StringEnd(line, j + 1, quote)
  }

  function NumberEnd(line: string, j: nat): (e: nat)
    requires j <= |line|
    ensures j <= e <= |line| && (j < |line| && IsDigit(line[j]) ==> j < e)
    decreases |line| - j
  {
    if j < |line| && (IsDigit(line[j]) || line[j] in {'.', 'x', 'f'}) then NumberEnd(line, j + 1) else j
  }

  /** A keyword, a type name or a single character. */
  function WordPiece(line: string, i: nat, lang: Language): (r: (Option<string>, nat))
    requires i < |line|
    ensures i < r.1 <= |line|
  {
    var keyword, typed := FirstWord(line, i, lang.keywords), FirstWord(line, i, lang.types);
    if keyword.Some? then (Some(KEYWORD), i + |keyword.value|)
    else if typed.Some? then (Some(TYPE), i + |typed.value|)
    else (None, i + 1)
  }

  /** The colour, if any, and the end of the piece that starts at `i`. */
  function Piece(line: string, i: nat, lang: Language): (r: (Option<string>, nat))
    requires i < |line|
    ensures i < r.1 <= |line|
  {
    if OccursAt(line, lang.comment, i) then (Some(COMMENT), |line|)
    else if i == 0 && lang.preprocessor && line[0] == '#' then (Some(PREPROC), |line|)
    else if line[i] == '"' || line[i] == '\'' then (Some(STRING), StringEnd(line, i + 1, line[i]))
    else if IsDigit(line[i]) && AtBoundary(line, i) then (Some(NUMBER), NumberEnd(line, i))
    else if AtBoundary(line, i) then WordPiece(line, i, lang)
    else (None, i + 1)
  }

  /** Comments and preprocessor lines end in a reset and nothing follows them. */
  predicate ToEnd(line: string, i: nat, lang: Language)
    requires i < |line|
  {
    OccursAt(line, lang.comment, i) || (i == 0 && lang.preprocessor && line[0] == '#')
  }

  function Front(code: Option<string>): string {
    match code case None => "" case Some(c) => c
  }

  function Coloured(code: Option<string>, text: string): string {
    match code case None => text case Some(c) => c + text + CODE_BASE
  }

  function HighlightFrom(line: string, i: nat, lang: Language): string
    requires i <= |line|
    decreases |line| - i
  {
    if i == |line| then RESET
    else
      var (code, end) := Piece(line, i, lang);
      if ToEnd(line, i, lang) then Front(code) + line[i..] + RESET
      else Coloured(code, line[i..end]) + HighlightFrom(line, end, lang)
  }

  function HighlightLine(line: string, lang: Option<Language>): string {
    match lang
    case None => CODE_BASE + line + RESET
    case Some(l) => CODE_BASE + HighlightFrom(line, 0, l)
  }

  method FindWord(line: string, i: nat, words: seq<Word>) returns (r: Option<Word>)
    requires i <= |line|
    ensures r == FirstWord(line, i, words)
  {
    for k := 0 to |words|
      invariant FirstWord(line, i, words[k..]) == FirstWord(line, i, words)
    {
      if MatchKeyword(line, i, words[k]) { return Some(words[k]); }
      assert words[k..][1..] == words[k + 1..];
    }
    return None;
  }

  /** The two searches for a word that starts at `i`, the second only when the first fails. */
  method ScanWord(line: string, i: nat, l: Language) returns (code: Option<string>, end: nat)
    requires i < |line|
    ensures (code, end) == WordPiece(line, i, l)
    ensures i < end <= |line|
  {
    hide FirstWord;
    var word := FindWord(line, i, l.keywords);
    if word.Some? { return Some(KEYWORD), i + |word.value|; }
    word := FindWord(line, i, l.types);
    if word.Some? { return Some(TYPE), i + |word.value|; }
    return None, i + 1;
  }

  /** The piece at `i`, neither comment nor preprocessor line: a string, a number, a word or a character. */
  method ScanPiece(line: string, i: nat, l: Language) returns (code: Option<string>, end: nat, unclosed: bool)
    requires i < |line| && !ToEnd(line, i, l)
    ensures (code, end) == Piece(line, i, l) && i < end <= |line| && (unclosed ==> end == |line|)
  {
    PieceIs(line, i, l);
    hide Piece, WordPiece, StringEnd, NumberEnd;
    unclosed := false;
    if line[i] == '"' || line[i] == '\'' {
      var closed;
      end, closed := ScanString(line, i);
      code, unclosed := Some(STRING), !closed;
    } else if IsDigit(line[i]) && AtBoundary(line, i) {
      end := ScanNumber(line, i);
      code := Some(NUMBER);
    } else if AtBoundary(line, i) {
      code, end := ScanWord(line, i, l);
    } else {
      code, end := None, i + 1;
    }
  }

  /** The loop over the line. */
  method HighlightLineLoop(line: string, lang: Option<Language>) returns (r: string)
    ensures r == HighlightLine(line, lang)
  {
    if lang.None? { return CODE_BASE + line + RESET; }
    var l := lang.value;
    hide HighlightFrom, Piece, Coloured, OccursAt;
    StartOfLine(line, l);
    var out := "";
    var inString := false;
    var i := 0;
    while i < |line|
      invariant 0 <= i <= |line| && (inString ==> i == |line|)
      invariant out + HighlightFrom(line, i, l) == HighlightFrom(line, 0, l)
    {
      if OccursAt(line, l.comment, i) {
        EndOfLine(line, i, l, out);
        return CODE_BASE + (out + COMMENT + line[i..] + RESET);
      }
      if i == 0 && l.preprocessor && line[0] == '#' {
        EndOfLine(line, i, l, out);
        return CODE_BASE + (out + PREPROC + line + RESET);
      }
      NextPiece(line, i, l, out);
      var code, end;
      code, end, inString := ScanPiece(line, i, l);
      out := out + Coloured(code, line[i..end]);
      i := end;
    }
    EndReached(line, l, out);
    return CODE_BASE + (out + RESET);
  }

  lemma StartOfLine(line: string, l: Language)
    ensures "" + HighlightFrom(line, 0, l) == HighlightFrom(line, 0, l)
  {
  }

  lemma EndReached(line: string, l: Language, out: string)
    ensures out + HighlightFrom(line, |line|, l) == out + RESET
  {
  }

  lemma EndOfLine(line: string, i: nat, l: Language, out: string)
    requires i < |line| && (OccursAt(line, l.comment, i) || (i == 0 && l.preprocessor && line[0] == '#'))
    ensures out + HighlightFrom(line, i, l)
            == out + (if OccursAt(line, l.comment, i) then COMMENT else PREPROC) + line[i..] + RESET
    ensures line[0..] == line
  {
  }

  lemma FromUnfold(line: string, i: nat, l: Language)
    requires i <= |line|
    ensures i == |line| ==> HighlightFrom(line, i, l) == RESET && line[i..] == ""
    ensures i < |line| ==>
              var (code, end) := Piece(line, i, l);
              HighlightFrom(line, i, l) ==
              if ToEnd(line, i, l) then Front(code) + line[i..] + RESET
              else Coloured(code, line[i..end]) + HighlightFrom(line, end, l)
  {
    hide Piece, ToEnd;
  }

  lemma PieceIs(line: string, i: nat, l: Language)
    requires i < |line| && !ToEnd(line, i, l)
    ensures var quoted, number := line[i] == '"' || line[i] == '\'', IsDigit(line[i]) && AtBoundary(line, i);
            && (quoted ==> Piece(line, i, l) == (Some(STRING), StringEnd(line, i + 1, line[i])))
            && (!quoted && number ==> Piece(line, i, l) == (Some(NUMBER), NumberEnd(line, i)))
            && (!quoted && !number ==>
                  Piece(line, i, l) == if AtBoundary(line, i) then WordPiece(line, i, l) else (None, i + 1))
  {
  }

  /** The next step of the loop. */
  lemma NextPiece(line: string, i: nat, l: Language, out: string)
    requires i < |line| && !ToEnd(line, i, l)
    ensures var (code, end) := Piece(line, i, l);
            out + HighlightFrom(line, i, l) == (out + Coloured(code, line[i..end])) + HighlightFrom(line, end, l)
  {
    hide HighlightFrom, Piece, Coloured, OccursAt;
    FromUnfold(line, i, l);
    var (code, end) := Piece(line, i, l);
    var piece := Coloured(code, line[i..end]);
    assert out + (piece + HighlightFrom(line, end, l)) == (out + piece) + HighlightFrom(line, end, l);
  }

  method ScanString(line: string, i: nat) returns (end: nat, closed: bool)
    requires i < |line|
    ensures end == StringEnd(line, i + 1, line[i]) && (closed || end == |line|)
  {
    end, closed := i + 1, false;
    while end < |line|
      invariant i < end <= |line|
      invariant StringEnd(line, end, line[i]) == StringEnd(line, i + 1, line[i])
    {
      if line[end] == line[i] && line[end - 1] != '\\' {
        return end + 1, true;
      }
      end := end + 1;
    }
  }

  method ScanNumber(line: string, i: nat) returns (end: nat)
    requires i <= |line|
    ensures end == NumberEnd(line, i)
  {
    end := i;
    while end < |line| && (IsDigit(line[end]) || line[end] == '.' || line[end] == 'x' || line[end] == 'f')
      invariant i <= end <= |line|
      invariant NumberEnd(line, end) == NumberEnd(line, i)
    {
      end := end + 1;
    }
  }

  // ----- the text is preserved -----

  ghost predicate CodeOf(code: Option<string>) {
    code.Some? ==> IsCode(code.value)
  }

  lemma Codes()
    ensures IsCode(KEYWORD) && IsCode(STRING) && IsCode(COMMENT) && IsCode(NUMBER) && IsCode(TYPE)
    ensures IsCode(PREPROC) && IsCode(CODE_BASE) && IsCode(RESET)
  {
  }

  lemma PieceShows(code: Option<string>, text: string)
    requires CodeOf(code) && EscapeFree(text)
    ensures Shows(Coloured(code, text), text)
  {
    ShowsItself(text);
    if code.Some? {
      Codes();
      ShowsNothing(code.value);
      ShowsNothing(CODE_BASE);
      hide Shows, IsCode;
      ShowsConcat(code.value, "", text, text);
      ShowsConcat(code.value + text, "" + text, CODE_BASE, "");
      assert "" + text + "" == text;
    }
  }

  lemma PieceCode(line: string, i: nat, l: Language)
    requires i < |line|
    ensures CodeOf(Piece(line, i, l).0) && (ToEnd(line, i, l) ==> Piece(line, i, l).0.Some?)
  {
    Codes();
    hide IsCode, FirstWord, OccursAt;
  }

  lemma {:induction false} HighlightFromShows(line: string, i: nat, l: Language)
    requires i <= |line| && EscapeFree(line)
    ensures Shows(HighlightFrom(line, i, l), line[i..])
    decreases |line| - i
  {
    hide HighlightFrom, Shows, IsCode, EscapeFree, Piece, ToEnd, Coloured;
    FromUnfold(line, i, l);
    Codes();
    ShowsNothing(RESET);
    if i < |line| {
      var (code, end) := Piece(line, i, l);
      PieceCode(line, i, l);
      assert EscapeFree(line[i..]) && EscapeFree(line[i..end]) by { EscapeFreeSlice(line, i, end); }
      if ToEnd(line, i, l) {
        ShowsStyled(code.value, line[i..]);
      } else {
        PieceShows(code, line[i..end]);
        HighlightFromShows(line, end, l);
        var piece := Coloured(code, line[i..end]);
        ShowsConcat(piece, line[i..end], HighlightFrom(line, end, l), line[end..]);
        assert line[i..end] + line[end..] == line[i..];
      }
    }
  }

  lemma EscapeFreeSlice(line: string, i: nat, end: nat)
    requires EscapeFree(line) && i <= end <= |line|
    ensures EscapeFree(line[i..]) && EscapeFree(line[i..end])
  {
  }

  /** Whatever the language and its tables, a highlighted line shows the line. */
  lemma HighlightPreservesText(line: string, lang: Option<Language>)
    requires EscapeFree(line)
    ensures Shows(HighlightLine(line, lang), line)
  {
    Codes();
    match lang
    case None => ShowsStyled(CODE_BASE, line);
    case Some(l) =>
      ShowsNothing(CODE_BASE);
      HighlightFromShows(line, 0, l);
      ShowsConcat(CODE_BASE, "", HighlightFrom(line, 0, l), line[0..]);
      assert "" + line[0..] == line;
  }
}
