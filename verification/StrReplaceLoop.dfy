/** The one loop of `strip_annotations` that may run forever (src/annotation/annotation.cpp): it searches for the
    `path` attribute beyond the end of the annotation, and copies what it finds into the text. */
module StrReplaceLoop {
  import opened Text
  import opened StripAnnotations
  import opened Wrappers

  const OPEN := "<str_replace "
  const CLOSE := "</str_replace>"
  const PATH := "path=\""

  // ----- the trap -----

  /** A path that holds an opener and, after it, a closer. */
  predicate HoldsBlock(path: string) {
    var open := Find(path, OPEN, 0);
    open >= 0 && Find(path, CLOSE, open) >= 0
  }

  /** The first annotation takes its path from behind its own end, and that path holds an annotation. */
  predicate Trap(text: string) {
    var start := Find(text, OPEN, 0);
    start >= 0 &&
    var end, path := Find(text, CLOSE, start), Find(text, PATH, start);
    end >= 0 && path >= end + 14 && Quoted(text, path + 6).Some? && HoldsBlock(Quoted(text, path + 6).value)
  }

  // ----- where things are after a round -----

  /** A round, taken apart. */
  datatype Round = Round(before: string, path: string, rest: string, end: nat, at: nat)

  ghost predicate IsRound(text: string, r: Round, theme: Theme) {
    var start := |r.before|;
    && OccursAt(text, OPEN, start) && Find(text, OPEN, 0) == start && r.before == text[..start]
    && OccursAt(text, CLOSE, r.end) && Find(text, CLOSE, start) == r.end && start + 13 <= r.end
    && r.end + 14 <= |text| && r.rest == text[r.end + 14..]
    && OccursAt(text, PATH, r.at) && Find(text, PATH, start) == r.at && Quoted(text, r.at + 6) == Some(r.path)
    && '"' !in r.path
    && Step(StrReplace, text, theme) == Some(Next(r, theme))
  }

  /** What stands before the copy of the path, and between it and the rest. */
  function Left(r: Round, theme: Theme): string {
    r.before + (theme.warning + "[proposed: str_replace ")
  }

  function Right(theme: Theme): string {
    "]" + theme.reset
  }

  function Next(r: Round, theme: Theme): string {
    Left(r, theme) + r.path + Right(theme) + r.rest
  }

  lemma TakeApart(text: string, theme: Theme) returns (r: Round)
    requires Step(StrReplace, text, theme).Some?
    ensures IsRound(text, r, theme)
  {
    hide Find, OccursAt, Quoted;
    var start := Find(text, OPEN, 0);
    var end := Find(text, CLOSE, start);
    var at := Find(text, PATH, start);
    BlockShape(StrReplace, text, start, end);
    assert OccursAt(text, OPEN, start) && OccursAt(text, CLOSE, end) && OccursAt(text, PATH, at);
    var path := Quoted(text, at + 6).value;
    r := Round(text[..start], path, text[end + 14..], end, at);
    SameSummary(text[..start], path, r.rest, theme, r);
  }

  lemma SameSummary(before: string, path: string, rest: string, theme: Theme, r: Round)
    requires r.before == before && r.path == path && r.rest == rest
    ensures before + Summary(StrReplace, path, theme) + rest == Next(r, theme)
  {
    var w, m := theme.warning + "[proposed: str_replace ", "]" + theme.reset;
    assert Summary(StrReplace, path, theme) == w + path + m;
    assert before + (w + path + m) + rest == (before + w) + path + m + rest;
  }

  /** Where the rest begins in the new text. */
  function RestAt(r: Round, theme: Theme): nat {
    |Left(r, theme)| + |r.path| + |Right(theme)|
  }

  lemma LeftChars(r: Round, theme: Theme, i: nat)
    requires Codes(theme) && |r.before| <= i < |Left(r, theme)|
    ensures Left(r, theme)[i] != '<' && Left(r, theme)[i] != '"'
    ensures i == |r.before| ==> Left(r, theme)[i] == ESC || Left(r, theme)[i] == '['
  {
    var w := theme.warning + "[proposed: str_replace ";
    assert Left(r, theme)[i] == w[i - |r.before|];
    assert forall c :: c in "[proposed: str_replace " ==> c != '<' && c != '"';
    if i - |r.before| < |theme.warning| {
      assert w[i - |r.before|] in theme.warning;
    } else {
      assert w[i - |r.before|] in "[proposed: str_replace ";
    }
  }

  lemma RightChars(theme: Theme, i: nat)
    requires Codes(theme) && i < |Right(theme)|
    ensures Right(theme)[i] != '<' && Right(theme)[i] != '"'
    ensures Right(theme)[0] == ']' && Right(theme)[|Right(theme)| - 1] == 'm'
  {
    if i > 0 {
      assert Right(theme)[i] in theme.reset;
    }
  }

  /** The characters of the new text, up to the rest. */
  lemma NextChars(r: Round, theme: Theme, i: nat)
    requires Codes(theme) && '"' !in r.path && |r.before| <= i < RestAt(r, theme)
    ensures var (next, copy) := (Next(r, theme), |Left(r, theme)|);
            && |r.before| < copy && RestAt(r, theme) <= |next| && next[i] != '"'
            && (i < copy ==> next[i] != '<') && (i == |r.before| ==> next[i] == ESC || next[i] == '[')
            && (i >= copy + |r.path| ==> next[i] != '<') && (i == copy + |r.path| ==> next[i] == ']')
            && (i == RestAt(r, theme) - 1 ==> next[i] == 'm')
  {
    hide Codes;
    var left, right := Left(r, theme), Right(theme);
    if i < |left| {
      LeftChars(r, theme, i);
      assert Next(r, theme)[i] == left[i];
    } else if i < |left| + |r.path| {
      assert Next(r, theme)[i] == r.path[i - |left|];
    } else {
      RightChars(theme, i - |left| - |r.path|);
      assert Next(r, theme)[i] == right[i - |left| - |r.path|];
    }
  }

  /** A tag in the new text, from the copied path on, is in the copied path or in the rest. */
  lemma TagInNext(r: Round, theme: Theme, t: string, k: nat)
    requires Codes(theme) && '"' !in r.path && t != "" && t[0] == '<' && ']' !in t
    requires OccursAt(Next(r, theme), t, k) && |Left(r, theme)| <= k < RestAt(r, theme)
    ensures OccursAt(r.path, t, k - |Left(r, theme)|)
  {
    hide Codes, Left, Right;
    var next, copy := Next(r, theme), |Left(r, theme)|;
    BeforeCopy(r, theme);
    OccursChars(next, t, k);
    assert next[k + 0] == '<';
    NextChars(r, theme, k);
    NextChars(r, theme, copy + |r.path|);
    CharNotIn(t, ']', copy + |r.path| - k);
    InsideCopy(r, theme, t, k);
  }

  lemma BeforeCopy(r: Round, theme: Theme)
    requires Codes(theme)
    ensures |r.before| < |Left(r, theme)| <= |Left(r, theme)| + |r.path| < RestAt(r, theme) <= |Next(r, theme)|
  {
  }

  lemma InsideCopy(r: Round, theme: Theme, t: string, k: nat)
    requires |Left(r, theme)| <= k && k + |t| <= |Left(r, theme)| + |r.path|
    ensures OccursAt(Next(r, theme), t, k) <==> OccursAt(r.path, t, k - |Left(r, theme)|)
  {
    hide Left, Right;
    var i := k - |Left(r, theme)|;
    assert Next(r, theme)[k..k + |t|] == r.path[i..i + |t|];
  }

  /** No opener stands before the copied path. */
  lemma OpenerInNext(text: string, r: Round, theme: Theme, k: nat)
    requires Codes(theme) && IsRound(text, r, theme) && OccursAt(Next(r, theme), OPEN, k)
    ensures k >= |Left(r, theme)|
  {
    hide Codes, Left, Right, Step, Find, Quoted;
    var next := Next(r, theme);
    BeforeCopy(r, theme);
    OccursChars(next, OPEN, k);
    assert next[k + 0] == '<';
    if k < |r.before| {
      NextChars(r, theme, |r.before|);
      PlainOpener(|r.before| - k);
      assert k + 13 <= |r.before|;
      EarlierOpener(text, r, theme, k);
    } else if k < |Left(r, theme)| {
      NextChars(r, theme, k);
    }
  }

  lemma PlainOpener(i: nat)
    ensures i < 13 ==> OPEN[i] != ESC && OPEN[i] != '['
  {
    CharNotIn(OPEN, ESC, i);
    CharNotIn(OPEN, '[', i);
  }

  lemma EarlierOpener(text: string, r: Round, theme: Theme, k: nat)
    requires IsRound(text, r, theme) && k + 13 <= |r.before|
    ensures !OccursAt(Next(r, theme), OPEN, k)
  {
    hide Step, Find, Quoted;
    assert Find(text, OPEN, 0) > k;
    assert !OccursAt(text, OPEN, k);
    assert Next(r, theme)[k..k + 13] == r.before[k..k + 13] == text[k..k + 13];
  }

  /** The attribute in the new text, from the replaced annotation on, is in the rest. */
  lemma PathInNext(r: Round, theme: Theme, k: nat)
    requires Codes(theme) && '"' !in r.path && OccursAt(Next(r, theme), PATH, k) && k >= |r.before|
    ensures k >= RestAt(r, theme)
  {
    hide Codes, Left, Right, Next;
    BeforeCopy(r, theme);
    OccursChars(Next(r, theme), PATH, k);
    assert Next(r, theme)[k + 5] == '"';
    if k < RestAt(r, theme) {
      if k + 5 < RestAt(r, theme) {
        NextChars(r, theme, k + 5);
      } else {
        NextChars(r, theme, RestAt(r, theme) - 1);
        CharNotIn(PATH, 'm', RestAt(r, theme) - 1 - k);
      }
    }
  }

  // ----- the trap never opens -----

  function RestOf(r: Round, theme: Theme): string {
    Left(r, theme) + r.path + Right(theme)
  }

  /** What the next round finds when the copied path holds an annotation. */
  lemma NextFinds(text: string, r: Round, theme: Theme)
    requires Codes(theme) && IsRound(text, r, theme) && HoldsBlock(r.path)
    ensures var (next, copy) := (Next(r, theme), |Left(r, theme)|);
            var open := Find(r.path, OPEN, 0);
            && Find(next, OPEN, 0) == copy + open && Find(next, CLOSE, copy + open) == copy + Find(r.path, CLOSE, open)
  {
    hide Codes, Left, Right, Step, Quoted, Next, Find, OccursAt;
    var next, copy := Next(r, theme), |Left(r, theme)|;
    BeforeCopy(r, theme);
    var open := Find(r.path, OPEN, 0);
    var close := Find(r.path, CLOSE, open);
    assert OccursAt(r.path, OPEN, open) && OccursAt(r.path, CLOSE, close);
    Fits(r.path, OPEN, open);
    Fits(r.path, CLOSE, close);
    InsideCopy(r, theme, OPEN, copy + open);
    InsideCopy(r, theme, CLOSE, copy + close);
    forall k: nat | k < copy + open ensures !OccursAt(next, OPEN, k) {
      NoTagYet(text, r, theme, k, open);
    }
    FindIs(next, OPEN, 0, copy + open);
    forall k: nat | copy + open <= k < copy + close ensures !OccursAt(next, CLOSE, k) {
      NoCloserYet(r, theme, k, open, close);
    }
    FindIs(next, CLOSE, copy + open, copy + close);
  }

  lemma Fits(s: string, t: string, k: int)
    requires OccursAt(s, t, k)
    ensures 0 <= k && k + |t| <= |s|
  {
  }

  lemma NoTagYet(text: string, r: Round, theme: Theme, k: nat, open: nat)
    requires Codes(theme) && IsRound(text, r, theme) && Find(r.path, OPEN, 0) == open
    requires k < |Left(r, theme)| + open && open + 13 <= |r.path|
    ensures !OccursAt(Next(r, theme), OPEN, k)
  {
    hide Codes, Left, Right, Step, Quoted, Next, Find, OccursAt;
    if OccursAt(Next(r, theme), OPEN, k) {
      OpenerInNext(text, r, theme, k);
      InsideCopy(r, theme, OPEN, k);
    }
  }

  lemma NoCloserYet(r: Round, theme: Theme, k: nat, open: nat, close: nat)
    requires Find(r.path, CLOSE, open) == close && |Left(r, theme)| + open <= k < |Left(r, theme)| + close
    requires close + 14 <= |r.path|
    ensures !OccursAt(Next(r, theme), CLOSE, k)
  {
    hide Left, Right, Next, Find, OccursAt;
    InsideCopy(r, theme, CLOSE, k);
  }

  /** Both texts end with the rest. */
  lemma SameRest(text: string, r: Round, theme: Theme)
    requires IsRound(text, r, theme)
    ensures text == text[..r.end + 14] + r.rest
    ensures Next(r, theme) == RestOf(r, theme) + r.rest && |RestOf(r, theme)| == RestAt(r, theme)
  {
    hide Find, OccursAt, Quoted, Step, Left, Right;
  }

  lemma RoundFits(text: string, r: Round, theme: Theme)
    requires IsRound(text, r, theme)
    ensures r.end + 14 <= |text| && |text[..r.end + 14]| == r.end + 14
    ensures r.rest == text[r.end + 14..] && Find(text, PATH, |r.before|) == r.at && |r.before| + 13 <= r.end
    ensures Step(StrReplace, text, theme) == Some(Next(r, theme)) && '"' !in r.path
  {
    hide Find, OccursAt, Quoted, Next, Step;
  }

  lemma FoundBehind(text: string, x: string, s: string, t: string, k: nat)
    requires text == x + s
    ensures Find(text, t, |x| + k) == if Find(s, t, k) < 0 then -1 else |x| + Find(s, t, k)
    ensures Quoted(text, |x| + k) == Quoted(s, k)
  {
    hide *;
    FindBehind(x, s, t, k);
    QuotedBehind(x, s, k);
  }

  /** What the rest holds is found in both texts. */
  lemma FoundInRest(text: string, r: Round, theme: Theme, t: string, k: nat)
    requires IsRound(text, r, theme)
    ensures var (found, after) := (Find(r.rest, t, k), r.end + 14);
            && Find(text, t, after + k) == (if found < 0 then -1 else after + found)
            && Find(Next(r, theme), t, RestAt(r, theme) + k) == (if found < 0 then -1 else RestAt(r, theme) + found)
            && Quoted(text, after + k) == Quoted(r.rest, k) == Quoted(Next(r, theme), RestAt(r, theme) + k)
  {
    hide *;
    SameRest(text, r, theme);
    RoundFits(text, r, theme);
    FoundBehind(text, text[..r.end + 14], r.rest, t, k);
    FoundBehind(Next(r, theme), RestOf(r, theme), r.rest, t, k);
  }

  /** What the attribute of the next round is, wherever in front of the rest that round starts. */
  lemma NextPath(text: string, r: Round, theme: Theme, from: nat)
    requires Codes(theme) && IsRound(text, r, theme) && |r.before| <= from <= RestAt(r, theme) && r.at >= r.end + 14
    ensures var next := Next(r, theme);
            && Find(next, PATH, from) == RestAt(r, theme) + (r.at - r.end - 14)
            && Quoted(next, Find(next, PATH, from) + 6) == Some(r.path)
  {
    hide Codes, Step, Quoted, Find, OccursAt, Left, Right, Next, RestOf, RestAt;
    var next, at := Next(r, theme), r.at - r.end - 14;
    FindLater(text, PATH, |r.before|, r.end + 14);
    FoundInRest(text, r, theme, PATH, 0);
    NoPathBefore(r, theme, from);
    FindLater(next, PATH, from, RestAt(r, theme));
    FoundInRest(text, r, theme, PATH, at + 6);
  }

  lemma NoPathBefore(r: Round, theme: Theme, from: nat)
    requires Codes(theme) && '"' !in r.path && |r.before| <= from
    ensures var at := Find(Next(r, theme), PATH, from); at < 0 || at >= RestAt(r, theme)
  {
    hide Codes, Find, OccursAt, Next, RestAt;
    var at := Find(Next(r, theme), PATH, from);
    if at >= 0 {
      PathInNext(r, theme, at);
    }
  }

  /** From a trap, a round leads to a trap. */
  lemma TrapRepeats(text: string, theme: Theme)
    requires Codes(theme) && Trap(text)
    ensures Step(StrReplace, text, theme).Some? && Trap(Step(StrReplace, text, theme).value)
  {
    hide *;
    TrapSteps(text, theme);
    var r := TakeApart(text, theme);
    TrapRound(text, r, theme);
    RoundFits(text, r, theme);
    NextFinds(text, r, theme);
    var open := Find(r.path, OPEN, 0);
    var from := |Left(r, theme)| + open;
    CopyFits(r, theme, Find(r.path, CLOSE, open));
    NextPath(text, r, theme, from);
    IsTrap(Next(r, theme), from, |Left(r, theme)| + Find(r.path, CLOSE, open), Find(Next(r, theme), PATH, from));
  }

  lemma CopyFits(r: Round, theme: Theme, close: nat)
    requires Codes(theme) && OccursAt(r.path, CLOSE, close)
    ensures |r.before| <= |Left(r, theme)| && |Left(r, theme)| + close + 14 <= RestAt(r, theme)
  {
  }

  lemma IsTrap(text: string, start: nat, end: nat, path: nat)
    requires Find(text, OPEN, 0) == start && Find(text, CLOSE, start) == end && Find(text, PATH, start) == path
    requires path >= end + 14 && Quoted(text, path + 6).Some? && HoldsBlock(Quoted(text, path + 6).value)
    ensures Trap(text)
  {
    hide Find, Quoted, HoldsBlock;
  }

  lemma TrapSteps(text: string, theme: Theme)
    requires Trap(text)
    ensures Step(StrReplace, text, theme).Some?
  {
    hide Find, Quoted, Summary;
  }

  lemma TrapRound(text: string, r: Round, theme: Theme)
    requires Trap(text) && IsRound(text, r, theme)
    ensures HoldsBlock(r.path) && r.at >= r.end + 14
    ensures Find(r.path, OPEN, 0) >= 0 && Find(r.path, CLOSE, Find(r.path, OPEN, 0)) >= 0
    ensures OccursAt(r.path, CLOSE, Find(r.path, CLOSE, Find(r.path, OPEN, 0)))
  {
    hide Find, Quoted, Step, Next;
    assert HoldsBlock(r.path);
  }

  /** Whatever the number of rounds, the loop has not ended. */
  lemma {:induction false} TrapNeverEnds(text: string, n: nat, theme: Theme)
    requires Codes(theme) && Trap(text)
    ensures Rounds(StrReplace, text, n, theme).Some?
    decreases n
  {
    hide Step, Trap;
    if n > 0 {
      TrapRepeats(text, theme);
      TrapNeverEnds(Step(StrReplace, text, theme).value, n - 1, theme);
    }
  }

  // ----- every other round makes progress -----

  /** How many times `t` occurs in `s` from `from` on. */
  ghost function CountFrom(s: string, t: string, from: nat): nat
    decreases |s| - from
  {
    if from >= |s| then 0 else (if OccursAt(s, t, from) then 1 else 0) + CountFrom(s, t, from + 1)
  }

  lemma {:induction false} CountBehind(x: string, s: string, t: string, k: nat)
    ensures CountFrom(x + s, t, |x| + k) == CountFrom(s, t, k)
    decreases |s| - k
  {
    hide OccursAt;
    if k < |s| {
      OccursBehind(x, s, t, k);
      CountBehind(x, s, t, k + 1);
    }
  }

  lemma {:induction false} CountSkip(s: string, t: string, i: nat, j: nat)
    requires i <= j && forall k: nat :: i <= k < j ==> !OccursAt(s, t, k)
    ensures CountFrom(s, t, i) == CountFrom(s, t, j)
    decreases j - i
  {
    hide OccursAt;
    if i < j {
      CountSkip(s, t, i + 1, j);
    }
  }

  lemma {:induction false} CountLess(s: string, t: string, i: nat, j: nat)
    requires i <= j
    ensures CountFrom(s, t, i) >= CountFrom(s, t, j)
    decreases j - i
  {
    hide OccursAt;
    if i < j {
      CountLess(s, t, i + 1, j);
    }
  }

  ghost function Quotes(text: string): nat {
    CountChar(text, '"')
  }

  /** The closers from the first opener on. */
  ghost function Closers(text: string): nat {
    var start := Find(text, OPEN, 0);
    if start < 0 then 0 else CountFrom(text, CLOSE, start)
  }

  lemma QuotesOfNext(text: string, r: Round, theme: Theme)
    requires Codes(theme) && IsRound(text, r, theme)
    ensures |r.before| <= r.end + 14 <= |text|
    ensures Quotes(text) == Quotes(Next(r, theme)) + Quotes(text[|r.before|..r.end + 14])
  {
    hide Find, Quoted, Step, CountChar, OccursAt;
    var block, w, m := text[|r.before|..r.end + 14], theme.warning + "[proposed: str_replace ", Right(theme);
    assert text == r.before + block + r.rest;
    CountCharConcat(r.before + block, r.rest, '"');
    CountCharConcat(r.before, block, '"');
    CountCharConcat(r.before + w + r.path + m, r.rest, '"');
    CountCharConcat(r.before + w + r.path, m, '"');
    CountCharConcat(r.before + w, r.path, '"');
    CountCharConcat(r.before, w, '"');
    CountCharAbsent(r.path, '"');
    CountCharAbsent(w, '"');
    CountCharAbsent(m, '"');
  }

  /** A path from inside the annotation is not there any more. */
  lemma QuotesDrop(text: string, r: Round, theme: Theme)
    requires Codes(theme) && IsRound(text, r, theme) && r.at < r.end + 14
    ensures Quotes(Next(r, theme)) < Quotes(text)
  {
    hide Find, Quoted, Step, CountChar, Next, Codes;
    QuotesOfNext(text, r, theme);
    OccursChars(text, PATH, r.at);
    OccursChars(text, CLOSE, r.end);
    assert text[r.at + 5] == '"' && text[r.end + 13] == '>';
    CharNotIn(PATH, '>', r.end + 13 - r.at);
    assert r.at + 5 < r.end + 14;
    CountPositive(text[|r.before|..r.end + 14], '"', r.at + 5 - |r.before|);
  }

  /** A path from behind the annotation, without an annotation of its own: one closer less. */
  lemma ClosersDrop(text: string, r: Round, theme: Theme)
    requires Codes(theme) && IsRound(text, r, theme) && !HoldsBlock(r.path)
    ensures Closers(Next(r, theme)) < Closers(text)
  {
    ClosersBefore(text, r, theme);
    ClosersAfter(text, r, theme);
  }

  lemma ClosersBefore(text: string, r: Round, theme: Theme)
    requires IsRound(text, r, theme)
    ensures Closers(text) > CountFrom(r.rest, CLOSE, 0)
  {
    hide Quoted, Step, OccursAt, Next;
    var after := r.end + 14;
    CountLess(text, CLOSE, |r.before|, r.end);
    CountLess(text, CLOSE, r.end + 1, after);
    assert text == text[..after] + r.rest;
    CountBehind(text[..after], r.rest, CLOSE, 0);
  }

  lemma ClosersAfter(text: string, r: Round, theme: Theme)
    requires Codes(theme) && IsRound(text, r, theme) && !HoldsBlock(r.path)
    ensures Closers(Next(r, theme)) <= CountFrom(r.rest, CLOSE, 0)
  {
    hide Codes, Quoted, Step, OccursAt, Find, IsRound, Left, Right, Next;
    var next, at := Next(r, theme), RestAt(r, theme);
    var start := Find(next, OPEN, 0);
    if start >= 0 {
      SameRest(text, r, theme);
      RoundFits(text, r, theme);
      CountBehind(RestOf(r, theme), r.rest, CLOSE, 0);
      CountLess(next, CLOSE, at, if start < at then at else start);
      if start < at {
        forall k: nat | start <= k < at ensures !OccursAt(next, CLOSE, k) {
          NoCloserInCopy(text, r, theme, start, k);
        }
        CountSkip(next, CLOSE, start, at);
      }
    }
  }

  lemma NoCloserInCopy(text: string, r: Round, theme: Theme, start: nat, k: nat)
    requires Codes(theme) && IsRound(text, r, theme) && !HoldsBlock(r.path)
    requires OccursAt(Next(r, theme), OPEN, start) && start <= k < RestAt(r, theme)
    ensures !OccursAt(Next(r, theme), CLOSE, k)
  {
    hide Codes, Quoted, Step, OccursAt, Find, IsRound, Left, Right, Next;
    RoundFits(text, r, theme);
    if OccursAt(Next(r, theme), CLOSE, k) {
      OpenerInNext(text, r, theme, start);
      NoBracket();
      TagInNext(r, theme, OPEN, start);
      TagInNext(r, theme, CLOSE, k);
    }
  }

  lemma NoBracket()
    ensures ']' !in OPEN && ']' !in CLOSE && OPEN[0] == '<' && CLOSE[0] == '<'
  {
  }

  /** Outside a trap, a round leaves fewer quotes, or as many quotes and fewer closers. */
  lemma RoundShrinks(text: string, theme: Theme)
    requires Codes(theme) && Step(StrReplace, text, theme).Some? && !Trap(text)
    ensures var next := Step(StrReplace, text, theme).value;
            Quotes(next) < Quotes(text) || (Quotes(next) == Quotes(text) && Closers(next) < Closers(text))
  {
    hide *;
    var r := TakeApart(text, theme);
    RoundFits(text, r, theme);
    if r.at < r.end + 14 {
      QuotesDrop(text, r, theme);
    } else {
      QuotesOfNext(text, r, theme);
      NoTrapNoBlock(text, r, theme);
      ClosersDrop(text, r, theme);
    }
  }

  lemma NoTrapNoBlock(text: string, r: Round, theme: Theme)
    requires IsRound(text, r, theme) && r.at >= r.end + 14 && !Trap(text)
    ensures !HoldsBlock(r.path)
  {
    hide Find, Quoted, Step, OccursAt, HoldsBlock;
  }

  // ----- exactly when the loop ends -----

  ghost predicate Ends(text: string, theme: Theme) {
    exists n: nat :: Rounds(StrReplace, text, n, theme).None?
  }

  /** Whether the rounds come to a trap. Every round on the way there makes progress, so this can be computed before
      the loop is run. */
  predicate ReachesTrap(text: string, theme: Theme)
    requires Codes(theme)
    decreases Quotes(text), Closers(text)
  {
    if Trap(text) then true
    else
      match Step(StrReplace, text, theme)
      case None => false
      case Some(next) =>
        RoundShrinks(text, theme);
        ReachesTrap(next, theme)
  }

  lemma ReachesUnfold(text: string, theme: Theme)
    requires Codes(theme)
    ensures Trap(text) ==> ReachesTrap(text, theme)
    ensures !Trap(text) && Step(StrReplace, text, theme) == None ==> !ReachesTrap(text, theme)
    ensures !Trap(text) && Step(StrReplace, text, theme).Some? ==>
              var next := Step(StrReplace, text, theme).value;
              && ReachesTrap(text, theme) == ReachesTrap(next, theme)
              && (Quotes(next) < Quotes(text) || (Quotes(next) == Quotes(text) && Closers(next) < Closers(text)))
  {
    hide Step, Trap, Quotes, Closers, Codes;
    if !Trap(text) && Step(StrReplace, text, theme).Some? {
      RoundShrinks(text, theme);
    }
  }

  lemma {:induction false} UntrappedEnds(text: string, theme: Theme) returns (n: nat)
    requires Codes(theme) && !ReachesTrap(text, theme)
    ensures Rounds(StrReplace, text, n, theme).None?
    decreases Quotes(text), Closers(text)
  {
    hide Step, Trap, Quotes, Closers, ReachesTrap;
    ReachesUnfold(text, theme);
    n := 1;
    if Step(StrReplace, text, theme).Some? {
      var m := UntrappedEnds(Step(StrReplace, text, theme).value, theme);
      n := m + 1;
    }
  }

  lemma {:induction false} TrappedNeverEnds(text: string, n: nat, theme: Theme)
    requires Codes(theme) && ReachesTrap(text, theme)
    ensures Rounds(StrReplace, text, n, theme).Some?
    decreases n
  {
    hide Trap, Step, ReachesTrap;
    ReachesUnfold(text, theme);
    if Trap(text) {
      TrapNeverEnds(text, n, theme);
    } else if n > 0 {
      TrappedNeverEnds(Step(StrReplace, text, theme).value, n - 1, theme);
    }
  }

  /** The loop ends exactly when it does not come to a trap. */
  lemma EndsIffNoTrap(text: string, theme: Theme)
    requires Codes(theme)
    ensures Ends(text, theme) <==> !ReachesTrap(text, theme)
  {
    hide Rounds, ReachesTrap;
    if !ReachesTrap(text, theme) {
      var n := UntrappedEnds(text, theme);
    } else {
      forall n: nat ensures Rounds(StrReplace, text, n, theme).Some? {
        TrappedNeverEnds(text, n, theme);
      }
    }
  }

  // ----- texts that are known to be safe -----

  /** The path that begins at `k`, if it ends, holds no annotation. */
  ghost predicate SafePath(text: string, k: nat) {
    Quoted(text, k + 6).Some? ==> !HoldsBlock(Quoted(text, k + 6).value)
  }

  /** No quoted path after the first opener holds an annotation. */
  ghost predicate SafePaths(text: string) {
    forall k: nat :: OccursAt(text, PATH, k) && 0 <= Find(text, OPEN, 0) <= k ==> SafePath(text, k)
  }

  lemma SafeIsNoTrap(text: string)
    requires SafePaths(text)
    ensures !Trap(text)
  {
    hide Find, Quoted, HoldsBlock;
    var start := Find(text, OPEN, 0);
    if start >= 0 {
      var k := Find(text, PATH, start);
      if k >= 0 {
        assert OccursAt(text, PATH, k);
        assert SafePath(text, k);
      }
    }
  }

  lemma SafeStays(text: string, theme: Theme)
    requires Codes(theme) && SafePaths(text) && Step(StrReplace, text, theme).Some?
    ensures SafePaths(Step(StrReplace, text, theme).value)
  {
    hide *;
    var r := TakeApart(text, theme);
    RoundFits(text, r, theme);
    var next := Next(r, theme);
    NextSafe(text, r, theme);
    AllSafe(next);
  }

  lemma AllSafe(text: string)
    requires forall k: nat :: OccursAt(text, PATH, k) && 0 <= Find(text, OPEN, 0) <= k ==> SafePath(text, k)
    ensures SafePaths(text)
  {
    hide Find, OccursAt, SafePath;
  }

  lemma NextSafe(text: string, r: Round, theme: Theme)
    requires Codes(theme) && SafePaths(text) && IsRound(text, r, theme)
    ensures var next := Next(r, theme);
            forall k: nat :: OccursAt(next, PATH, k) && 0 <= Find(next, OPEN, 0) <= k ==> SafePath(next, k)
  {
    hide *;
    var next := Next(r, theme);
    forall k: nat | OccursAt(next, PATH, k) && 0 <= Find(next, OPEN, 0) <= k ensures SafePath(next, k) {
      assert OccursAt(next, OPEN, Find(next, OPEN, 0));
      OpenerInNext(text, r, theme, Find(next, OPEN, 0));
      BeforeCopy(r, theme);
      RoundFits(text, r, theme);
      PathInNext(r, theme, k);
      PathInText(text, r, theme, k - RestAt(r, theme));
    }
  }

  lemma PathInText(text: string, r: Round, theme: Theme, i: nat)
    requires IsRound(text, r, theme) && SafePaths(text) && OccursAt(Next(r, theme), PATH, RestAt(r, theme) + i)
    ensures SafePath(Next(r, theme), RestAt(r, theme) + i)
  {
    hide *;
    SameRest(text, r, theme);
    RoundFits(text, r, theme);
    var after := r.end + 14;
    PathMoves(Next(r, theme), RestOf(r, theme), text, text[..after], r.rest, i);
    OpenerFirst(text, r, theme);
    SafeHere(text, after + i);
    SamePath(text, after + i, Next(r, theme), RestAt(r, theme) + i);
  }

  lemma PathMoves(s: string, x: string, t: string, y: string, rest: string, i: nat)
    requires s == x + rest && t == y + rest && OccursAt(s, PATH, |x| + i)
    ensures OccursAt(t, PATH, |y| + i) && Quoted(t, |y| + i + 6) == Quoted(s, |x| + i + 6)
  {
    hide *;
    OccursBehind(x, rest, PATH, i);
    OccursBehind(y, rest, PATH, i);
    QuotedBehind(x, rest, i + 6);
    QuotedBehind(y, rest, i + 6);
  }

  lemma OpenerFirst(text: string, r: Round, theme: Theme)
    requires IsRound(text, r, theme)
    ensures Find(text, OPEN, 0) == |r.before|
  {
    hide Find, OccursAt, Quoted, Step, Next;
  }

  lemma SafeHere(text: string, k: nat)
    requires SafePaths(text) && OccursAt(text, PATH, k) && 0 <= Find(text, OPEN, 0) <= k
    ensures SafePath(text, k)
  {
    hide Find, OccursAt, SafePath;
  }

  lemma SamePath(s: string, i: nat, t: string, j: nat)
    requires SafePath(s, i) && Quoted(t, j + 6) == Quoted(s, i + 6)
    ensures SafePath(t, j)
  {
    hide Quoted, HoldsBlock;
  }

  /** A safe text never leads to a trap. */
  lemma {:induction false} SafeIsNeverTrapped(text: string, theme: Theme)
    requires Codes(theme) && SafePaths(text)
    ensures !ReachesTrap(text, theme)
    decreases Quotes(text), Closers(text)
  {
    hide Step, SafePaths, Trap, Quotes, Closers, ReachesTrap;
    SafeIsNoTrap(text);
    ReachesUnfold(text, theme);
    if Step(StrReplace, text, theme).Some? {
      SafeStays(text, theme);
      SafeIsNeverTrapped(Step(StrReplace, text, theme).value, theme);
    }
  }

  // ----- the whole loop -----

  /** The loop, wherever it ends. */
  ghost function StrLoop(text: string, theme: Theme): string
    requires Codes(theme) && !ReachesTrap(text, theme)
    decreases Quotes(text), Closers(text)
  {
    match Step(StrReplace, text, theme)
    case None => text
    case Some(next) =>
      RoundShrinks(text, theme);
      StrLoop(next, theme)
  }

  lemma StrLoopUnfold(text: string, theme: Theme)
    requires Codes(theme) && !ReachesTrap(text, theme)
    ensures Step(StrReplace, text, theme) == None ==> StrLoop(text, theme) == text
    ensures Step(StrReplace, text, theme).Some? ==>
              var next := Step(StrReplace, text, theme).value;
              && !ReachesTrap(next, theme) && StrLoop(text, theme) == StrLoop(next, theme)
              && (Quotes(next) < Quotes(text) || (Quotes(next) == Quotes(text) && Closers(next) < Closers(text)))
  {
    hide Step, ReachesTrap, Quotes, Closers, Trap, Codes;
    ReachesUnfold(text, theme);
  }

  /** The loop of the source, on every text on which it ends. */
  method StripStrReplace(text: string, theme: Theme) returns (result: string)
    requires Codes(theme) && !ReachesTrap(text, theme)
    ensures result == StrLoop(text, theme)
  {
    hide StrLoop, ReachesTrap, Quotes, Closers, Codes, Find, OccursAt, Summary;
    result := text;
    while true
      invariant !ReachesTrap(result, theme) && StrLoop(result, theme) == StrLoop(text, theme)
      decreases Quotes(result), Closers(result)
    {
      StrLoopUnfold(result, theme);
      var start := Find(result, "<str_replace ", 0);
      if start < 0 { break; }
      var path := Find(result, "path=\"", start);
      if path < 0 { break; }
      var end := Find(result, "</str_replace>", start);
      var pathEnd := Find(result, "\"", path + 6);
      if pathEnd < 0 { break; }
      QuoteHere(result, path + 6, pathEnd);
      var value := result[path + 6..pathEnd];
      if end < 0 { break; }
      BlockShape(StrReplace, result, start, end);
      result := result[..start] + Summary(StrReplace, value, theme) + result[end + 14..];
    }
  }

  /** Where the rounds stop is what the loop returns. */
  lemma {:induction false} StrLoopIsRounds(text: string, n: nat, result: string, theme: Theme)
    requires Codes(theme) && Rounds(StrReplace, text, n, theme) == Some(result)
    requires Step(StrReplace, result, theme) == None
    ensures !ReachesTrap(text, theme) && StrLoop(text, theme) == result
    decreases n
  {
    hide Step, ReachesTrap, Ends;
    assert !ReachesTrap(text, theme) by {
      StopsUntrapped(text, n, result, theme);
    }
    StrLoopUnfold(text, theme);
    if n > 0 {
      StrLoopIsRounds(Step(StrReplace, text, theme).value, n - 1, result, theme);
    }
  }

  lemma StopsUntrapped(text: string, n: nat, result: string, theme: Theme)
    requires Codes(theme) && Rounds(StrReplace, text, n, theme) == Some(result)
    requires Step(StrReplace, result, theme) == None
    ensures !ReachesTrap(text, theme)
  {
    hide Step, ReachesTrap;
    RoundsCompose(StrReplace, text, n, 1, theme);
    assert Rounds(StrReplace, text, n + 1, theme).None?;
    EndsIffNoTrap(text, theme);
  }

  // ----- a text that traps the loop -----

  const BLOCK := "<str_replace </str_replace>"

  /** An empty annotation, and behind it a path that holds an empty annotation. */
  function Vicious(gap: string): string {
    BLOCK + gap + "path=\"" + BLOCK + "\""
  }

  lemma ViciousTraps(gap: string)
    requires '"' !in gap
    ensures Trap(Vicious(gap))
  {
    hide Find, OccursAt, Quoted, Trap, HoldsBlock;
    var text := Vicious(gap);
    var tail := gap + PATH + BLOCK + "\"";
    assert text == BLOCK + tail;
    BlockFinds();
    BlockInFront(tail);
    var path := 27 + |gap|;
    assert text == (BLOCK + gap) + (PATH + (BLOCK + "\""));
    FindBehind(BLOCK + gap, PATH + (BLOCK + "\""), PATH, 0);
    QuotedBehind(BLOCK + gap, PATH + (BLOCK + "\""), 6);
    PathHere();
    forall k: nat | k < path ensures !OccursAt(text, PATH, k) {
      NoQuoteYet(gap, k);
    }
    assert OccursAt(text, PATH, path);
    FindIs(text, PATH, 0, path);
    IsTrap(text, 0, 13, path);
  }

  lemma BlockFinds()
    ensures HoldsBlock(BLOCK) && OccursAt(BLOCK, OPEN, 0) && OccursAt(BLOCK, CLOSE, 13)
  {
    assert BLOCK[0..13] == OPEN && BLOCK[13..27] == CLOSE;
    FindIs(BLOCK, OPEN, 0, 0);
    assert OccursAt(BLOCK, CLOSE, 13);
  }

  lemma BlockInFront(tail: string)
    ensures Find(BLOCK + tail, OPEN, 0) == 0 && Find(BLOCK + tail, CLOSE, 0) == 13
  {
    var text := BLOCK + tail;
    assert text[0..13] == OPEN && text[13..27] == CLOSE;
    FindIs(text, OPEN, 0, 0);
    forall k: nat | k < 13 ensures !OccursAt(text, CLOSE, k) {
      NotInOpener(StrReplace, text, 0, k);
    }
    FindIs(text, CLOSE, 0, 13);
  }

  lemma PathHere()
    ensures Find(PATH + (BLOCK + "\""), PATH, 0) == 0 && OccursAt(PATH + (BLOCK + "\""), PATH, 0)
    ensures Quoted(PATH + (BLOCK + "\""), 6) == Some(BLOCK)
  {
    var s := PATH + (BLOCK + "\"");
    assert s[0..6] == PATH;
    FindIs(s, PATH, 0, 0);
    assert s[6..33] == BLOCK;
    assert '"' !in BLOCK;
    forall k | 6 <= k < 33 ensures s[k] != '"' {
      assert s[k] == BLOCK[k - 6];
      CharNotIn(BLOCK, '"', k - 6);
    }
    FindChar(s, '"', 6, 33);
  }

  lemma NoQuoteYet(gap: string, k: nat)
    requires '"' !in gap && k < 27 + |gap|
    ensures !OccursAt(Vicious(gap), PATH, k)
  {
    var text := Vicious(gap);
    if k + 5 < 27 + |gap| {
      assert text[k + 5] == (BLOCK + gap)[k + 5];
      assert '"' !in BLOCK + gap;
      CharNotIn(BLOCK + gap, '"', k + 5);
      Mismatch(text, PATH, k, 5);
    } else {
      var i := 27 + |gap| - k;
      assert text[27 + |gap|] == 'p';
      Mismatch(text, PATH, k, i);
    }
  }

  /** So the loop runs forever on such a text. */
  lemma ViciousNeverEnds(gap: string, theme: Theme)
    requires Codes(theme) && '"' !in gap
    ensures !Ends(Vicious(gap), theme)
  {
    hide Trap, Rounds;
    ViciousTraps(gap);
    forall n: nat ensures Rounds(StrReplace, Vicious(gap), n, theme).Some? {
      TrapNeverEnds(Vicious(gap), n, theme);
    }
  }
}
