/** Replacing annotation tags by summaries (`strip_annotations`, src/annotation/annotation.cpp). Each kind of tag has
    its own loop, which rewrites the first annotation of its kind until there is none; each loop ends for its own
    reason. The colour codes of the theme are parameters. */
module StripAnnotations {
  import opened Text
  import opened Wrappers

  const ESC := '\U{1B}'

  datatype Kind = Write | StrReplace | Read | Search | AddLine | DeleteLine

  datatype Theme = Theme(warning: string, info: string, reset: string)

  /** What a colour code is: nothing, or an escape sequence. */
  predicate IsCode(s: string) {
    s == "" || (s[0] == ESC && s[|s| - 1] == 'm' && '"' !in s && '<' !in s && '>' !in s)
  }

  predicate Codes(theme: Theme) {
    IsCode(theme.warning) && IsCode(theme.info) && IsCode(theme.reset) && theme.reset != ""
  }

  function Open(kind: Kind): string {
    match kind
    case Write => "<write file=\""
    case StrReplace => "<str_replace "
    case Read => "<read "
    case Search => "<search>"
    case AddLine => "<add_line "
    case DeleteLine => "<delete_line "
  }

  function Close(kind: Kind): string {
    match kind
    case Write => "</write>"
    case StrReplace => "</str_replace>"
    case Read => ">"
    case Search => "</search>"
    case AddLine => "/>"
    case DeleteLine => "/>"
  }

  function Label(kind: Kind): string {
    match kind
    case Write => "[proposed: write "
    case StrReplace => "[proposed: str_replace "
    case Read => "[read "
    case Search => "[search: "
    case AddLine => "[proposed: add line to "
    case DeleteLine => "[proposed: delete line from "
  }

  function Color(kind: Kind, theme: Theme): string {
    if kind == Read || kind == Search then theme.info else theme.warning
  }

  function Summary(kind: Kind, path: string, theme: Theme): string {
    Color(kind, theme) + Label(kind) + path + "]" + theme.reset
  }

  // ----- searching in a text whose front is replaced -----

  /** `x + s` holds `t` behind `x` where `s` does. */
  lemma OccursBehind(x: string, s: string, t: string, k: int)
    ensures OccursAt(x + s, t, |x| + k) && k >= 0 <==> OccursAt(s, t, k)
  {
    if 0 <= k && k + |t| <= |s| {
      assert (x + s)[|x| + k..|x| + k + |t|] == s[k..k + |t|];
    }
  }

  lemma FindBehind(x: string, s: string, t: string, k: nat)
    ensures Find(x + s, t, |x| + k) == if Find(s, t, k) < 0 then -1 else |x| + Find(s, t, k)
  {
    hide OccursAt;
    var r, q := Find(x + s, t, |x| + k), Find(s, t, k);
    if q >= 0 {
      OccursBehind(x, s, t, q);
    }
    if r >= 0 {
      OccursBehind(x, s, t, r - |x|);
    }
  }

  lemma FindLater(s: string, t: string, i: nat, j: nat)
    requires i <= j && (Find(s, t, i) < 0 || Find(s, t, i) >= j)
    ensures Find(s, t, j) == Find(s, t, i)
  {
    hide OccursAt;
  }

  lemma CharNotIn(t: string, c: char, i: int)
    requires c !in t
    ensures 0 <= i < |t| ==> t[i] != c
  {
  }

  // ----- one round of a loop -----

  /** The value of an attribute of a tag, "" when there is none. */
  function Attr(tag: string, name: string): string {
    var key := name + "=\"";
    var pos := Find(tag, key, 0);
    if pos < 0 then ""
    else
      var end := Find(tag, "\"", pos + |key|);
      if end < 0 then "" else tag[pos + |key|..end]
  }

  /** The text from `from` to the next quote. */
  function Quoted(text: string, from: nat): (r: Option<string>)
    ensures r.Some? ==> '"' !in r.value && from + |r.value| < |text| && text[from..from + |r.value|] == r.value
                        && text[from + |r.value|] == '"'
  {
    var end := Find(text, "\"", from);
    if end < 0 then None
    else
      QuoteHere(text, from, end);
      Some(text[from..end])
  }

  lemma QuoteHere(text: string, from: nat, end: nat)
    requires Find(text, "\"", from) == end
    ensures from <= end < |text| && text[end] == '"' && '"' !in text[from..end]
  {
    OccursChars(text, "\"", end);
    assert text[end + 0] == '"';
    forall k | from <= k < end ensures text[k] != '"' {
      assert !OccursAt(text, "\"", k);
      if text[k] == '"' {
        OneChar(text, k);
      }
    }
  }

  lemma OneChar(text: string, k: nat)
    requires k < |text|
    ensures OccursAt(text, [text[k]], k)
  {
    assert text[k..k + 1] == [text[k]];
  }

  lemma QuotedBehind(x: string, s: string, k: nat)
    ensures Quoted(x + s, |x| + k) == Quoted(s, k)
  {
    hide Find;
    FindBehind(x, s, "\"", k);
    var end := Find(s, "\"", k);
    if end >= 0 {
      QuoteHere(s, k, end);
      assert (x + s)[|x| + k..|x| + end] == s[k..end];
    }
  }

  /** What the summary shows of the annotation between `start` and its closer at `end`. */
  function Shown(kind: Kind, text: string, start: nat, end: nat): Option<string>
    requires start + |Open(kind)| <= end && end + |Close(kind)| <= |text|
  {
    match kind
    case Write => Quoted(text, start + 13)
    case StrReplace =>
      var path := Find(text, "path=\"", start);
      if path < 0 then None else Quoted(text, path + 6)
    case Search => Some(text[start + 8..end])
    case _ => Some(Attr(text[start..end + |Close(kind)|], "path"))
  }

  lemma Openers(kind: Kind, i: nat)
    requires i < |Open(kind)|
    ensures Open(kind)[i] == Close(kind)[0] ==> i == 0 && |Close(kind)| > 1 && Open(kind)[1] != Close(kind)[1]
    ensures Open(kind)[i] == '<' <==> i == 0
    ensures |Open(kind)| > 1
  {
  }

  /** A closer is not found inside the opener. */
  lemma BlockShape(kind: Kind, text: string, start: nat, end: nat)
    requires OccursAt(text, Open(kind), start) && Find(text, Close(kind), start) == end
    ensures start + |Open(kind)| <= end && end + |Close(kind)| <= |text|
  {
    hide Open, Close;
    assert OccursAt(text, Close(kind), end);
    OccursChars(text, Open(kind), start);
    if end < start + |Open(kind)| {
      NotInOpener(kind, text, start, end - start);
    }
  }

  lemma NotInOpener(kind: Kind, text: string, start: nat, i: nat)
    requires OccursAt(text, Open(kind), start) && i < |Open(kind)|
    ensures !OccursAt(text, Close(kind), start + i)
  {
    hide Open;
    OccursChars(text, Open(kind), start);
    Openers(kind, i);
    assert text[start + i] == Open(kind)[i];
    if text[start + i] != Close(kind)[0] {
      Mismatch(text, Close(kind), start + i, 0);
    } else {
      assert text[start + 1] == Open(kind)[1];
      Mismatch(text, Close(kind), start, 1);
    }
  }

  /** One round of a loop: the text with its first annotation of the kind replaced, or nothing when the loop ends. */
  function Step(kind: Kind, text: string, theme: Theme): Option<string> {
    var start := Find(text, Open(kind), 0);
    if start < 0 then None
    else
      var end := Find(text, Close(kind), start);
      if end < 0 then None
      else
        BlockShape(kind, text, start, end);
        match Shown(kind, text, start, end)
        case None => None
        case Some(path) => Some(text[..start] + Summary(kind, path, theme) + text[end + |Close(kind)|..])
  }

  // ----- why the loops end -----

  /** The character that gets rarer. */
  function Weight(kind: Kind): char {
    match kind
    case Write => '"'
    case StrReplace => '"'
    case Read => '>'
    case Search => '<'
    case AddLine => '<'
    case DeleteLine => '<'
  }

  lemma CountPositive(s: string, c: char, i: nat)
    requires i < |s| && s[i] == c
    ensures CountChar(s, c) > 0
  {
    CountCharConcat(s[..i], s[i..], c);
    assert s == s[..i] + s[i..];
  }

  lemma CountSlice(s: string, c: char, i: nat, j: nat)
    requires i <= j <= |s|
    ensures CountChar(s[i..j], c) <= CountChar(s, c)
  {
    CountCharConcat(s[..i], s[i..j], c);
    CountCharConcat(s[..j], s[j..], c);
    assert s[..j] == s[..i] + s[i..j] && s == s[..j] + s[j..];
  }

  /** An attribute is a part of its tag, between quotes, and does not begin the tag. */
  lemma AttrIsInside(tag: string, name: string) returns (i: nat, j: nat)
    requires |tag| > 1 && tag[|tag| - 1] != '"'
    ensures 1 <= i <= j < |tag| && Attr(tag, name) == tag[i..j]
  {
    hide Find;
    var key := name + "=\"";
    var pos := Find(tag, key, 0);
    if pos >= 0 && Find(tag, "\"", pos + |key|) >= 0 {
      i, j := pos + |key|, Find(tag, "\"", pos + |key|);
      QuoteHere(tag, i, j);
    } else {
      i, j := 1, 1;
    }
  }

  /** What is shown of an annotation weighs less than the annotation. */
  lemma ShownIsLighter(kind: Kind, text: string, start: nat, end: nat)
    requires kind != StrReplace && start + |Open(kind)| <= end && end + |Close(kind)| <= |text|
    requires OccursAt(text, Open(kind), start) && OccursAt(text, Close(kind), end)
    requires Shown(kind, text, start, end).Some?
    ensures CountChar(Shown(kind, text, start, end).value, Weight(kind))
            < CountChar(text[start..end + |Close(kind)|], Weight(kind))
  {
    hide CountChar, Find, Attr, Quoted, OccursAt;
    var block := text[start..end + |Close(kind)|];
    var shown := Shown(kind, text, start, end).value;
    BlockChars(kind, text, start, end);
    var first, last := block[0], block[|block| - 1];
    if kind == Write {
      assert block[12] == Open(Write)[12] == '"';
      CountPositive(block, '"', 12);
      CountCharAbsent(shown, '"');
    } else if kind == Search {
      SliceOfSlice(text, start, end + 9, 8, end - start);
      assert first == '<';
      FirstLighter(block, '<', 8, end - start);
    } else if kind == Read {
      assert last == '>';
      var i, j := AttrIsInside(block, "path");
      LastLighter(block, '>', i, j);
    } else {
      assert first == '<' && last == '>';
      var i, j := AttrIsInside(block, "path");
      FirstLighter(block, '<', i, j);
    }
  }

  lemma BlockChars(kind: Kind, text: string, start: nat, end: nat)
    requires start + |Open(kind)| <= end && end + |Close(kind)| <= |text|
    requires OccursAt(text, Open(kind), start) && OccursAt(text, Close(kind), end)
    ensures var block := text[start..end + |Close(kind)|];
            && (forall i :: 0 <= i < |Open(kind)| ==> block[i] == Open(kind)[i])
            && block[|block| - 1] == Close(kind)[|Close(kind)| - 1]
  {
    OccursChars(text, Open(kind), start);
    OccursChars(text, Close(kind), end);
    hide Open, Close;
    ClosersEnd(kind);
    var block := text[start..end + |Close(kind)|];
    var n := |Close(kind)| - 1;
    assert block[|block| - 1] == text[end + n];
    forall i | 0 <= i < |Open(kind)| ensures block[i] == Open(kind)[i] {
      assert block[i] == text[start + i];
    }
  }

  lemma ClosersEnd(kind: Kind)
    ensures |Close(kind)| > 0 && |Open(kind)| > 0
  {
  }

  lemma SliceOfSlice(s: string, a: nat, b: nat, i: nat, j: nat)
    requires a <= b <= |s| && i <= j <= b - a
    ensures s[a..b][i..j] == s[a + i..a + j]
  {
    assert |s[a..b][i..j]| == |s[a + i..a + j]|;
    forall k | 0 <= k < j - i ensures s[a..b][i..j][k] == s[a + i..a + j][k] {
    }
  }

  lemma FirstLighter(s: string, c: char, i: nat, j: nat)
    requires 1 <= i <= j <= |s| && s[0] == c
    ensures CountChar(s[i..j], c) < CountChar(s, c)
  {
    var rest := s[1..|s|];
    SliceOfSlice(s, 1, |s|, i - 1, j - 1);
    CountSlice(rest, c, i - 1, j - 1);
    CountCharConcat([c], rest, c);
    assert s == [c] + rest;
  }

  lemma LastLighter(s: string, c: char, i: nat, j: nat)
    requires i <= j < |s| && s[|s| - 1] == c
    ensures CountChar(s[i..j], c) < CountChar(s, c)
  {
    var n := |s| - 1;
    assert s[i..j] == s[..n][i..j];
    CountSlice(s[..n], c, i, j);
    CountCharConcat(s[..n], [c], c);
    assert s == s[..n] + [c];
  }

  lemma SummaryWeight(kind: Kind, path: string, theme: Theme)
    requires Codes(theme)
    ensures CountChar(Summary(kind, path, theme), Weight(kind)) == CountChar(path, Weight(kind))
  {
    hide CountChar;
    var w := Weight(kind);
    var color, name := Color(kind, theme), Label(kind);
    CountCharConcat(color + name + path + "]", theme.reset, w);
    CountCharConcat(color + name + path, "]", w);
    CountCharConcat(color + name, path, w);
    CountCharConcat(color, name, w);
    CountCharAbsent(color, w);
    CountCharAbsent(name, w);
    CountCharAbsent("]", w);
    CountCharAbsent(theme.reset, w);
  }

  /** Every loop but one ends because its character gets rarer. */
  lemma StepShrinks(kind: Kind, text: string, theme: Theme)
    requires Codes(theme) && kind != StrReplace && Step(kind, text, theme).Some?
    ensures CountChar(Step(kind, text, theme).value, Weight(kind)) < CountChar(text, Weight(kind))
  {
    hide CountChar, Weight, Open, Close, Summary, Shown, Codes;
    var start := Find(text, Open(kind), 0);
    var end := Find(text, Close(kind), start);
    BlockShape(kind, text, start, end);
    var after := end + |Close(kind)|;
    var w, path := Weight(kind), Shown(kind, text, start, end).value;
    ShownIsLighter(kind, text, start, end);
    SummaryWeight(kind, path, theme);
    CountCharConcat(text[..start], text[start..after], w);
    CountCharConcat(text[..after], text[after..], w);
    assert text[..after] == text[..start] + text[start..after] && text == text[..after] + text[after..];
    CountCharConcat(text[..start] + Summary(kind, path, theme), text[after..], w);
    CountCharConcat(text[..start], Summary(kind, path, theme), w);
  }

  /** A whole loop. */
  function Loop(kind: Kind, text: string, theme: Theme): string
    requires Codes(theme) && kind != StrReplace
    decreases CountChar(text, Weight(kind))
  {
    match Step(kind, text, theme)
    case None => text
    case Some(next) =>
      StepShrinks(kind, text, theme);
      Loop(kind, next, theme)
  }

  lemma LoopUnfold(kind: Kind, text: string, theme: Theme)
    requires Codes(theme) && kind != StrReplace
    ensures Step(kind, text, theme) == None ==> Loop(kind, text, theme) == text
    ensures Step(kind, text, theme).Some? ==>
              var next := Step(kind, text, theme).value;
              && Loop(kind, text, theme) == Loop(kind, next, theme)
              && CountChar(next, Weight(kind)) < CountChar(text, Weight(kind))
  {
    hide Step, CountChar, Weight, Codes;
    if Step(kind, text, theme).Some? {
      StepShrinks(kind, text, theme);
    }
  }

  /** A loop leaves nothing that it could replace. */
  lemma {:induction false} LoopStops(kind: Kind, text: string, theme: Theme)
    requires Codes(theme) && kind != StrReplace
    ensures Step(kind, Loop(kind, text, theme), theme) == None
    decreases CountChar(text, Weight(kind))
  {
    hide Step, CountChar, Weight, Codes, Loop;
    LoopUnfold(kind, text, theme);
    if Step(kind, text, theme).Some? {
      LoopStops(kind, Step(kind, text, theme).value, theme);
    }
  }

  /** After the loops for reads, searches and single lines no opener of the kind has a later closer. */
  lemma NoOpenerClosed(kind: Kind, text: string, theme: Theme, open: nat, close: nat)
    requires Codes(theme) && kind != StrReplace && kind != Write && open <= close
    ensures var r := Loop(kind, text, theme); !(OccursAt(r, Open(kind), open) && OccursAt(r, Close(kind), close))
  {
    hide Loop, OccursAt, Open, Close, Codes, Attr;
    LoopStops(kind, text, theme);
  }

  // ----- rounds -----

  /** The text after `n` rounds of a loop, or nothing when the loop has ended before. */
  function Rounds(kind: Kind, text: string, n: nat, theme: Theme): Option<string>
    decreases n
  {
    if n == 0 then Some(text)
    else
      match Step(kind, text, theme)
      case None => None
      case Some(next) => Rounds(kind, next, n - 1, theme)
  }

  lemma {:induction false} RoundsCompose(kind: Kind, text: string, m: nat, n: nat, theme: Theme)
    requires Rounds(kind, text, m, theme).Some?
    ensures Rounds(kind, text, m + n, theme) == Rounds(kind, Rounds(kind, text, m, theme).value, n, theme)
    decreases m
  {
    hide Step;
    if m > 0 {
      RoundsCompose(kind, Step(kind, text, theme).value, m - 1, n, theme);
    }
  }

  /** Where the rounds stop is what the loop returns. */
  lemma {:induction false} LoopIsRounds(kind: Kind, text: string, n: nat, result: string, theme: Theme)
    requires Codes(theme) && kind != StrReplace && Rounds(kind, text, n, theme) == Some(result)
    requires Step(kind, result, theme) == None
    ensures Loop(kind, text, theme) == result
    decreases n
  {
    hide Step, Loop, Codes;
    LoopUnfold(kind, text, theme);
    if n > 0 {
      LoopIsRounds(kind, Step(kind, text, theme).value, n - 1, result, theme);
    }
  }

  // ----- the loops of the source -----

  method StripWrite(text: string, theme: Theme) returns (result: string)
    requires Codes(theme)
    ensures result == Loop(Write, text, theme)
  {
    hide Loop, Codes, Find, OccursAt, Summary, CountChar;
    result := text;
    while true
      invariant Loop(Write, result, theme) == Loop(Write, text, theme)
      decreases CountChar(result, '"')
    {
      LoopUnfold(Write, result, theme);
      var start := Find(result, "<write file=\"", 0);
      if start < 0 { break; }
      var pathStart := start + 13;
      var pathEnd := Find(result, "\"", pathStart);
      var end := Find(result, "</write>", start);
      if pathEnd < 0 { break; }
      QuoteHere(result, pathStart, pathEnd);
      var path := result[pathStart..pathEnd];
      if end < 0 { break; }
      BlockShape(Write, result, start, end);
      result := result[..start] + Summary(Write, path, theme) + result[end + 8..];
    }
  }

  method StripRead(text: string, theme: Theme) returns (result: string)
    requires Codes(theme)
    ensures result == Loop(Read, text, theme)
  {
    hide Loop, Codes, Find, OccursAt, Summary, CountChar, Attr;
    result := text;
    while true
      invariant Loop(Read, result, theme) == Loop(Read, text, theme)
      decreases CountChar(result, '>')
    {
      LoopUnfold(Read, result, theme);
      var start := Find(result, "<read ", 0);
      if start < 0 { break; }
      var end := Find(result, ">", start);
      if end < 0 { break; }
      BlockShape(Read, result, start, end);
      var path := Attr(result[start..end + 1], "path");
      result := result[..start] + Summary(Read, path, theme) + result[end + 1..];
    }
  }

  method StripSearch(text: string, theme: Theme) returns (result: string)
    requires Codes(theme)
    ensures result == Loop(Search, text, theme)
  {
    hide Loop, Codes, Find, OccursAt, Summary, CountChar;
    result := text;
    while true
      invariant Loop(Search, result, theme) == Loop(Search, text, theme)
      decreases CountChar(result, '<')
    {
      LoopUnfold(Search, result, theme);
      var start := Find(result, "<search>", 0);
      if start < 0 { break; }
      var end := Find(result, "</search>", start);
      if end < 0 { break; }
      BlockShape(Search, result, start, end);
      var query := result[start + 8..end];
      result := result[..start] + Summary(Search, query, theme) + result[end + 9..];
    }
  }

  /** The loops for `<add_line .../>` and `<delete_line .../>`, which differ in nothing but their texts. */
  method StripLine(kind: Kind, text: string, theme: Theme) returns (result: string)
    requires Codes(theme) && (kind == AddLine || kind == DeleteLine)
    ensures result == Loop(kind, text, theme)
  {
    hide Loop, Codes, Find, OccursAt, Summary, CountChar, Attr;
    result := text;
    while true
      invariant Loop(kind, result, theme) == Loop(kind, text, theme)
      decreases CountChar(result, '<')
    {
      LoopUnfold(kind, result, theme);
      var start := Find(result, Open(kind), 0);
      if start < 0 { break; }
      var end := Find(result, "/>", start);
      if end < 0 { break; }
      BlockShape(kind, result, start, end);
      var path := Attr(result[start..end + 2], "path");
      result := result[..start] + Summary(kind, path, theme) + result[end + 2..];
    }
  }

  // ----- what the first loop leaves -----

  const WRITE := "<write file=\""

  /** An opener with a closer somewhere after it. */
  ghost predicate LeftBehind(text: string, open: nat, close: nat) {
    open <= close && OccursAt(text, WRITE, open) && OccursAt(text, "</write>", close)
  }

  /** The first opener has a closer but no closing quote. */
  predicate Unquoted(text: string) {
    var start := Find(text, WRITE, 0);
    start >= 0 && Quoted(text, start + 13).None? && Find(text, "</write>", start) >= 0
  }

  /** When the loop ends, an opener is left with a later closer exactly when the first one has no closing quote. */
  lemma WriteLeaves(text: string, theme: Theme)
    requires Codes(theme)
    ensures var r := Loop(Write, text, theme);
            (exists open: nat, close: nat :: LeftBehind(r, open, close)) <==> Unquoted(r)
  {
    hide Codes, Loop, OccursAt, Quoted, Summary;
    var r := Loop(Write, text, theme);
    LoopStops(Write, text, theme);
    var start := Find(r, WRITE, 0);
    if Unquoted(r) {
      assert LeftBehind(r, start, Find(r, "</write>", start));
    } else {
      forall open: nat, close: nat ensures !LeftBehind(r, open, close) {
        NoneLeft(r, open, close, theme);
      }
    }
  }

  lemma NoneLeft(r: string, open: nat, close: nat, theme: Theme)
    requires Step(Write, r, theme) == None && !Unquoted(r)
    ensures !LeftBehind(r, open, close)
  {
    hide Quoted, Summary, OccursAt;
    var start := Find(r, WRITE, 0);
    if start >= 0 {
      assert Find(r, "</write>", start) < 0;
    }
  }

  /** Every opener has a closing quote. */
  ghost predicate AllQuoted(text: string) {
    forall k: nat :: OccursAt(text, WRITE, k) ==> Quoted(text, k + 13).Some?
  }

  lemma SummaryChars(path: string, theme: Theme)
    requires Codes(theme) && '"' !in path
    ensures var s := Summary(Write, path, theme);
            |s| > 0 && '"' !in s && s[|s| - 1] == 'm'
  {
    var words := Label(Write);
    assert '"' !in words && '"' !in theme.warning && '"' !in theme.reset;
    assert Summary(Write, path, theme)[|Summary(Write, path, theme)| - 1] == theme.reset[|theme.reset| - 1];
  }

  lemma NoLetterM(i: int)
    ensures 0 <= i < 13 ==> WRITE[i] != 'm'
  {
    CharNotIn(WRITE, 'm', i);
  }

  /** An opener in the new text is in the part that was not rewritten. */
  lemma OpenerIsBehind(text: string, before: string, summary: string, rest: string, k: nat)
    requires before <= text && Find(text, WRITE, 0) == |before|
    requires |summary| > 0 && '"' !in summary && summary[|summary| - 1] == 'm'
    requires OccursAt(before + summary + rest, WRITE, k)
    ensures k >= |before| + |summary|
  {
    hide Find;
    var next, at := before + summary + rest, |before| + |summary|;
    assert next == before + (summary + rest);
    OccursChars(next, WRITE, k);
    assert next[k + 12] == '"';
    if k + 13 <= |before| {
      NotEarlier(text, before, summary + rest, k);
    } else if k < at {
      SummaryBetween(before, summary, rest, if k + 12 < at then k + 12 else at - 1);
      NoLetterM(at - 1 - k);
    }
  }

  lemma NotEarlier(text: string, before: string, tail: string, k: nat)
    requires before <= text && Find(text, WRITE, 0) == |before| && k + 13 <= |before|
    ensures !OccursAt(before + tail, WRITE, k)
  {
    assert !OccursAt(text, WRITE, k);
    assert (before + tail)[k..k + 13] == before[k..k + 13] == text[k..k + 13];
  }

  lemma SummaryBetween(before: string, summary: string, rest: string, i: nat)
    requires |before| <= i < |before| + |summary|
    ensures (before + summary + rest)[i] in summary
    ensures i == |before| + |summary| - 1 ==> (before + summary + rest)[i] == summary[|summary| - 1]
  {
    assert (before + summary + rest)[i] == summary[i - |before|];
  }

  // ----- the exact inputs on which an opener is left with a later closer -----

  /** `text.rfind(t, upTo - 1)`: the greatest index below `upTo` where `t` occurs, or -1. */
  function FindLast(text: string, t: string, upTo: nat): (r: int)
    ensures r == -1 || (0 <= r < upTo && OccursAt(text, t, r))
    ensures forall k: nat :: r < k < upTo ==> !OccursAt(text, t, k)
    decreases upTo
  {
    if upTo == 0 then -1 else if OccursAt(text, t, upTo - 1) then upTo - 1 else FindLast(text, t, upTo - 1)
  }

  /** The last opener has a closer but no closing quote after it, and is not inside the annotation that the opener
      before it begins. */
  predicate StuckLast(text: string) {
    var last := FindLast(text, WRITE, |text|);
    && last >= 0 && Quoted(text, last + 13).None? && Find(text, "</write>", last) >= 0
    && var previous := FindLast(text, WRITE, last);
       previous < 0 || Find(text, "</write>", previous) < last
  }

  /** Rewritten: `before` and what `rest` follows are the same, and only the openers in `rest` are left. */
  ghost predicate Rewritten(text: string, after: nat, next: string, at: nat) {
    && after <= |text| && at <= |next| && text[after..] == next[at..]
    && forall k: nat :: OccursAt(next, WRITE, k) ==> k >= at
  }

  lemma SuffixOccurs(text: string, after: nat, next: string, at: nat, t: string, i: nat)
    requires after <= |text| && at <= |next| && text[after..] == next[at..]
    ensures OccursAt(text, t, after + i) <==> OccursAt(next, t, at + i)
  {
    hide OccursAt;
    OccursBehind(text[..after], text[after..], t, i);
    OccursBehind(next[..at], next[at..], t, i);
    assert text == text[..after] + text[after..] && next == next[..at] + next[at..];
  }

  lemma SuffixFinds(text: string, after: nat, next: string, at: nat, t: string, i: nat)
    requires after <= |text| && at <= |next| && text[after..] == next[at..]
    ensures Find(next, t, at + i) == if Find(text, t, after + i) < 0 then -1 else Find(text, t, after + i) - after + at
    ensures Quoted(next, at + i) == Quoted(text, after + i)
  {
    hide *;
    var rest := text[after..];
    FindBehind(text[..after], rest, t, i);
    FindBehind(next[..at], rest, t, i);
    QuotedBehind(text[..after], rest, i);
    QuotedBehind(next[..at], rest, i);
    assert text == text[..after] + rest && next == next[..at] + rest;
  }

  /** The last opener is found in the rest, when it is there. */
  lemma LastMoves(text: string, after: nat, next: string, at: nat, i: nat)
    requires Rewritten(text, after, next, at)
    ensures var last := FindLast(text, WRITE, after + i);
            FindLast(next, WRITE, at + i) == if last < after then -1 else last - after + at
  {
    hide OccursAt;
    var last, moved := FindLast(text, WRITE, after + i), FindLast(next, WRITE, at + i);
    if last >= after {
      SuffixOccurs(text, after, next, at, WRITE, last - after);
    }
    if moved >= at {
      SuffixOccurs(text, after, next, at, WRITE, moved - at);
    }
  }

  /** An opener in front of the end of a closer begins before it. */
  lemma OpenerBeforeCloser(text: string, k: nat, end: nat)
    requires OccursAt(text, WRITE, k) && OccursAt(text, "</write>", end) && k < end + 8
    ensures k < end
  {
    OccursChars(text, WRITE, k);
    OccursChars(text, "</write>", end);
    assert text[k + 0] == '<' && text[k + 1] == 'w';
    if k >= end {
      NoOpenerInCloser(k - end);
      assert text[end + (k - end)] == "</write>"[k - end];
      SlashAfter(text, end);
    }
  }

  lemma SlashAfter(text: string, end: nat)
    requires OccursAt(text, "</write>", end)
    ensures text[end + 1] == '/'
  {
    OccursChars(text, "</write>", end);
  }

  lemma NoOpenerInCloser(i: nat)
    ensures 0 < i < 8 ==> "</write>"[i] != '<'
  {
    CharNotIn("/write>", '<', i - 1);
    assert i > 0 ==> "</write>"[1..] == "/write>";
  }

  /** What comes before the last opener in the rest: the previous opener is in the rest too, or in the replaced
      annotation, whose closer then stands between the two. */
  lemma PreviousMoves(text: string, start: nat, end: nat, next: string, at: nat, last: nat)
    requires Find(text, "</write>", start) == end && OccursAt(text, "</write>", end)
    requires forall k: nat :: OccursAt(text, WRITE, k) ==> k >= start
    requires Rewritten(text, end + 8, next, at) && last >= end + 8
    ensures var (p, q) := (FindLast(text, WRITE, last), FindLast(next, WRITE, last - end - 8 + at));
            (p < 0 || Find(text, "</write>", p) < last) <==> (q < 0 || Find(next, "</write>", q) < last - end - 8 + at)
  {
    hide Find, Quoted, OccursAt, FindLast;
    var after := end + 8;
    LastMoves(text, after, next, at, last - after);
    var previous := FindLast(text, WRITE, last);
    if previous >= after {
      SuffixFinds(text, after, next, at, "</write>", previous - after);
    } else if previous >= 0 {
      OpenerBeforeCloser(text, previous, end);
      assert Find(text, "</write>", previous) <= end;
    }
  }

  /** Inside the replaced annotation no opener is stuck. */
  lemma InsideIsNotStuck(text: string, start: nat, end: nat)
    requires Find(text, WRITE, 0) == start && Find(text, "</write>", start) == end && Quoted(text, start + 13).Some?
    requires OccursAt(text, WRITE, start) && OccursAt(text, "</write>", end)
    requires FindLast(text, WRITE, |text|) < end + 8
    ensures !StuckLast(text)
  {
    hide Find, Quoted, OccursAt, FindLast;
    var last := FindLast(text, WRITE, |text|);
    if last > start {
      OpenerBeforeCloser(text, last, end);
      var previous := FindLast(text, WRITE, last);
      assert previous >= start;
      assert !(0 <= Find(text, "</write>", previous) < end);
    }
  }

  /** Behind a replaced annotation nothing has changed: the last opener is stuck before iff it is stuck after. */
  lemma StuckMoves(text: string, start: nat, end: nat, next: string, at: nat)
    requires Find(text, WRITE, 0) == start && Find(text, "</write>", start) == end && Quoted(text, start + 13).Some?
    requires OccursAt(text, WRITE, start) && OccursAt(text, "</write>", end)
    requires Rewritten(text, end + 8, next, at)
    ensures StuckLast(text) <==> StuckLast(next)
  {
    hide *;
    var after := end + 8;
    SameLength(text, after, next, at);
    LastMoves(text, after, next, at, |text| - after);
    var last := FindLast(text, WRITE, |text|);
    if last >= after {
      StuckInRest(text, start, end, next, at, last);
    } else {
      InsideIsNotStuck(text, start, end);
      StuckIs(next);
    }
  }

  lemma StuckInRest(text: string, start: nat, end: nat, next: string, at: nat, last: nat)
    requires Find(text, WRITE, 0) == start && Find(text, "</write>", start) == end && OccursAt(text, "</write>", end)
    requires Rewritten(text, end + 8, next, at) && last >= end + 8
    requires FindLast(text, WRITE, |text|) == last && FindLast(next, WRITE, |next|) == last - end - 8 + at
    ensures StuckLast(text) <==> StuckLast(next)
  {
    hide *;
    var after, i := end + 8, last - end - 8;
    SameLength(text, after, next, at);
    SuffixFinds(text, after, next, at, "</write>", i);
    SuffixFinds(text, after, next, at, "</write>", i + 13);
    AllBehindFirst(text, start);
    PreviousMoves(text, start, end, next, at, last);
    StuckIs(text);
    StuckIs(next);
  }

  lemma AllBehindFirst(text: string, start: nat)
    requires Find(text, WRITE, 0) == start
    ensures forall k: nat :: OccursAt(text, WRITE, k) ==> k >= start
  {
    hide Find, OccursAt;
  }

  lemma StuckIs(text: string)
    ensures var last := FindLast(text, WRITE, |text|);
            && (last < 0 ==> !StuckLast(text))
            && (last >= 0 ==>
                  var previous := FindLast(text, WRITE, last);
                  StuckLast(text) <==>
                  && Quoted(text, last + 13).None? && Find(text, "</write>", last) >= 0
                  && (previous < 0 || Find(text, "</write>", previous) < last))
  {
    hide Find, FindLast, Quoted;
  }

  lemma SameLength(text: string, after: nat, next: string, at: nat)
    requires Rewritten(text, after, next, at)
    ensures after <= |text| && at <= |next| && text[after..] == next[at..] && |next| - at == |text| - after
  {
    assert |text[after..]| == |next[at..]|;
  }

  lemma StuckStays(text: string, theme: Theme)
    requires Codes(theme) && Step(Write, text, theme).Some?
    ensures StuckLast(text) <==> StuckLast(Step(Write, text, theme).value)
  {
    hide Codes, OccursAt, Quoted, Summary, Find, StuckLast;
    var start := Find(text, WRITE, 0);
    var end := Find(text, "</write>", start);
    BlockShape(Write, text, start, end);
    var path := Quoted(text, start + 13).value;
    var summary := Summary(Write, path, theme);
    SummaryChars(path, theme);
    var before, rest := text[..start], text[end + 8..];
    var next, at := before + summary + rest, start + |summary|;
    forall k: nat | OccursAt(next, WRITE, k) ensures k >= at {
      OpenerIsBehind(text, before, summary, rest, k);
    }
    assert next[at..] == rest;
    StuckMoves(text, start, end, next, at);
  }

  /** When the loop has ended, the last opener is stuck iff the first one has a closer but no closing quote. */
  lemma StuckAtEnd(r: string, theme: Theme)
    requires Step(Write, r, theme) == None
    ensures StuckLast(r) <==> Unquoted(r)
  {
    hide Find, Quoted, OccursAt, FindLast, Summary;
    var start, last := Find(r, WRITE, 0), FindLast(r, WRITE, |r|);
    if start < 0 {
    } else {
      assert OccursAt(r, WRITE, start);
      OpenerFits(r, start);
      assert last >= start;
      if last > start && Quoted(r, start + 13).None? {
        NoLaterOpener(r, start, last);
      } else if last == start {
        assert FindLast(r, WRITE, last) == -1;
      } else {
        assert Find(r, "</write>", start) < 0;
      }
    }
  }

  lemma OpenerFits(text: string, k: nat)
    requires OccursAt(text, WRITE, k)
    ensures k < |text|
  {
  }

  /** Without a closing quote there is no later opener: it would hold one. */
  lemma NoLaterOpener(text: string, start: nat, k: nat)
    requires OccursAt(text, WRITE, start) && Quoted(text, start + 13).None? && k > start
    ensures !OccursAt(text, WRITE, k)
  {
    if OccursAt(text, WRITE, k) {
      OpenersApart(text, start, k);
      OccursChars(text, WRITE, k);
      QuoteAfter(text, start + 13, k + 12);
    }
  }

  lemma QuoteAfter(text: string, from: nat, k: nat)
    requires from <= k < |text| && text[k] == '"'
    ensures Quoted(text, from).Some?
  {
    OneChar(text, k);
  }

  lemma OpenersApart(text: string, j: nat, k: nat)
    requires OccursAt(text, WRITE, j) && OccursAt(text, WRITE, k) && j < k
    ensures k >= j + 13
  {
    OccursChars(text, WRITE, j);
    OccursChars(text, WRITE, k);
    assert text[k + 0] == '<';
    if k < j + 13 {
      assert text[j + (k - j)] == WRITE[k - j];
      Openers(Write, k - j);
    }
  }

  /** The write loop leaves an opener with a later closer exactly on the inputs whose last opener is stuck. */
  lemma {:induction false} WriteLeavesIff(text: string, theme: Theme)
    requires Codes(theme)
    ensures (exists open: nat, close: nat :: LeftBehind(Loop(Write, text, theme), open, close)) <==> StuckLast(text)
    decreases CountChar(text, '"')
  {
    hide Codes, Step, LeftBehind, CountChar, Unquoted, StuckLast, Loop;
    LoopUnfold(Write, text, theme);
    if Step(Write, text, theme).Some? {
      StuckStays(text, theme);
      WriteLeavesIff(Step(Write, text, theme).value, theme);
    } else {
      WriteLeaves(text, theme);
      StuckAtEnd(text, theme);
    }
  }

  /** When every opener of the input has a closing quote, no opener is left with a later closer. */
  lemma QuotedLeavesNone(text: string, theme: Theme, open: nat, close: nat)
    requires Codes(theme) && AllQuoted(text)
    ensures !LeftBehind(Loop(Write, text, theme), open, close)
  {
    assert !StuckLast(text) by {
      hide Quoted, OccursAt, Find;
      var last := FindLast(text, WRITE, |text|);
      assert last >= 0 ==> OccursAt(text, WRITE, last);
    }
    hide *;
    WriteLeavesIff(text, theme);
  }

  /** Without a closing quote nothing is replaced, although there is a closer. */
  lemma UnquotedStays(path: string, tail: string, theme: Theme)
    requires Codes(theme) && '"' !in path && '"' !in tail
    ensures var text := WRITE + path + "</write>" + tail;
            Loop(Write, text, theme) == text && LeftBehind(text, 0, 13 + |path|)
  {
    hide Codes, Loop, Summary;
    var text := WRITE + path + "</write>" + tail;
    assert text[0..13] == WRITE && text[13 + |path|..21 + |path|] == "</write>";
    FindIs(text, WRITE, 0, 0);
    assert text[13..] == path + "</write>" + tail;
    NoQuoteFrom(text, 13);
    LoopUnfold(Write, text, theme);
  }

  lemma NoQuoteFrom(text: string, from: nat)
    requires from <= |text| && '"' !in text[from..]
    ensures Quoted(text, from) == None
  {
    var end := Find(text, "\"", from);
    if end >= 0 {
      QuoteHere(text, from, end);
      InTail(text, from, end);
    }
  }

  lemma InTail(text: string, from: nat, k: nat)
    requires from <= k < |text|
    ensures text[k] in text[from..]
  {
    assert text[from..][k - from] == text[k];
  }
}
