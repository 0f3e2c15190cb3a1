/** `strip_ansi` (src/util/util.cpp): what a text shows on the terminal when its escape sequences are dropped. */
module Ansi {

  const ESC := '\U{1B}'
  const RESET := "\U{1B}[0m"

  predicate IsLetter(c: char) {
    'A' <= c <= 'Z' || 'a' <= c <= 'z'
  }

  /** The visible characters of `s`, read from inside or outside an escape sequence. */
  function Visible(s: string, inEscape: bool): string {
    if s == "" then ""
    else if s[0] == ESC then Visible(s[1..], true)
    else if inEscape then Visible(s[1..], !IsLetter(s[0]))
    else [s[0]] + Visible(s[1..], false)
  }

  /** Whether the reader is inside an escape sequence after `s`. */
  ghost function EscapeAfter(s: string, inEscape: bool): bool {
    if s == "" then inEscape
    else if s[0] == ESC then EscapeAfter(s[1..], true)
    else EscapeAfter(s[1..], inEscape && !IsLetter(s[0]))
  }

  function StripAnsi(s: string): string {
    Visible(s, false)
  }

  method StripAnsiLoop(s: string) returns (result: string)
    ensures result == StripAnsi(s)
  {
    result := "";
    var inEscape := false;
    for i := 0 to |s|
      invariant result + Visible(s[i..], inEscape) == StripAnsi(s)
    {
      assert s[i..][1..] == s[i + 1..];
      if s[i] == ESC {
        inEscape := true;
      } else if inEscape {
        if IsLetter(s[i]) { inEscape := false; }
      } else {
        result := result + [s[i]];
      }
    }
    assert s[|s|..] == "" && result + "" == result;
  }

  lemma {:induction false} VisibleConcat(a: string, b: string, inEscape: bool)
    ensures Visible(a + b, inEscape) == Visible(a, inEscape) + Visible(b, EscapeAfter(a, inEscape))
    ensures EscapeAfter(a + b, inEscape) == EscapeAfter(b, EscapeAfter(a, inEscape))
  {
    if a == "" {
      assert a + b == b;
    } else {
      assert (a + b)[1..] == a[1..] + b;
      VisibleConcat(a[1..], b, if a[0] == ESC then true else inEscape && !IsLetter(a[0]));
    }
  }

  // ----- outputs that show a text -----

  /** `out` shows `text` and leaves the reader outside an escape sequence. */
  ghost predicate Shows(out: string, text: string) {
    StripAnsi(out) == text && !EscapeAfter(out, false)
  }

  ghost predicate EscapeFree(s: string) {
    ESC !in s
  }

  /** Outputs compose. */
  lemma ShowsConcat(a: string, x: string, b: string, y: string)
    requires Shows(a, x) && Shows(b, y)
    ensures Shows(a + b, x + y)
  {
    VisibleConcat(a, b, false);
  }

  lemma {:induction false} ShowsItself(s: string)
    requires EscapeFree(s)
    ensures Shows(s, s)
  {
    if s != "" {
      ShowsItself(s[1..]);
      assert s == [s[0]] + s[1..];
    }
  }

  /** A control sequence: the escape character, parameters, and a letter. */
  ghost predicate IsCode(c: string) {
    |c| >= 2 && c[0] == ESC && IsLetter(c[|c| - 1]) && forall k :: 0 < k < |c| - 1 ==> c[k] != ESC && !IsLetter(c[k])
  }

  lemma {:induction false} SkipParameters(c: string)
    requires |c| >= 1 && IsLetter(c[|c| - 1]) && forall k :: 0 <= k < |c| - 1 ==> c[k] != ESC && !IsLetter(c[k])
    ensures Visible(c, true) == "" && !EscapeAfter(c, true)
  {
    if |c| > 1 {
      SkipParameters(c[1..]);
    }
  }

  lemma ShowsNothing(c: string)
    requires IsCode(c)
    ensures Shows(c, "")
  {
    SkipParameters(c[1..]);
  }

  /** A styled piece of text shows the text. */
  lemma ShowsStyled(code: string, text: string)
    requires IsCode(code) && EscapeFree(text)
    ensures Shows(code + text + RESET, text)
  {
    ShowsNothing(code);
    ShowsItself(text);
    ShowsNothing(RESET);
    ShowsConcat(code, "", text, text);
    ShowsConcat(code + text, "" + text, RESET, "");
    assert "" + text + "" == text;
  }
}
