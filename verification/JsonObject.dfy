/** `extract_braced` (src/json/json.cpp): finding the end of an object by counting braces outside strings. */
module JsonObject {
  import opened Json
  import JsonString
  import opened Text

  /** The index of the brace that closes the object, or -1, scanning from `i` at the given depth. */
  function CloseIndex(json: string, i: nat, depth: int, inString: bool, escaped: bool): (r: int)
    ensures r == -1 || i <= r < |json|
    decreases |json| - i
  {
    if i >= |json| then -1
    else
      var c := json[i];
      if inString then
        if escaped then CloseIndex(json, i + 1, depth, true, false)
        else if c == '\\' then CloseIndex(json, i + 1, depth, true, true)
        else CloseIndex(json, i + 1, depth, c != '"', false)
      else if c == '"' then CloseIndex(json, i + 1, depth, true, escaped)
      else if c == '{' then CloseIndex(json, i + 1, depth + 1, false, escaped)
      else if c == '}' then
        if depth == 1 then i else CloseIndex(json, i + 1, depth - 1, false, escaped)
      else CloseIndex(json, i + 1, depth, false, escaped)
  }

  function Braced(json: string, pos: nat): string {
    var close := CloseIndex(json, pos, 0, false, false);
    if close < 0 then "" else json[pos..close + 1]
  }

  method ExtractBraced(json: string, pos: nat) returns (obj: string)
    ensures obj == Braced(json, pos)
  {
    var depth, inString, escaped := 0, false, false;
    var i := pos;
    while i < |json|
      invariant pos <= i
      invariant CloseIndex(json, i, depth, inString, escaped) == CloseIndex(json, pos, 0, false, false)
    {
      var c := json[i];
      if inString {
        if escaped {
          escaped := false;
        } else if c == '\\' {
          escaped := true;
        } else if c == '"' {
          inString := false;
        }
      } else if c == '"' {
        inString := true;
      } else if c == '{' {
        depth := depth + 1;
      } else if c == '}' {
        depth := depth - 1;
        if depth == 0 { return json[pos..i + 1]; }
      }
      i := i + 1;
    }
    return "";
  }

  function ExtractObject(json: string, key: string): string {
    var pos := FindKeyValue(json, key);
    if pos < 0 || pos >= |json| || json[pos] != '{' then "" else Braced(json, pos)
  }

  // ----- printed objects -----

  /** What stands between two braces: text without quotes and braces, strings written with the escaper or in any legal
      pieces, and nested objects, in any order. */
  datatype Body =
    | End
    | Plain(c: char, rest: Body)
    | Quoted(s: string, rest: Body)
    | Pieces(ps: seq<JsonString.Piece>, rest: Body)
    | Nested(inner: Body, rest: Body)

  ghost predicate Printable(b: Body) {
    match b
    case End => true
    case Plain(c, rest) => c != '"' && c != '{' && c != '}' && Printable(rest)
    case Quoted(s, rest) => Printable(rest)
    case Pieces(ps, rest) => JsonString.AllLegal(ps) && Printable(rest)
    case Nested(inner, rest) => Printable(inner) && Printable(rest)
  }

  ghost function Print(b: Body): string {
    match b
    case End => ""
    case Plain(c, rest) => [c] + Print(rest)
    case Quoted(s, rest) => ("\"" + (Escape(s) + "\"")) + Print(rest)
    case Pieces(ps, rest) => ("\"" + (JsonString.AllWritten(ps) + "\"")) + Print(rest)
    case Nested(inner, rest) => ("{" + (Print(inner) + "}")) + Print(rest)
  }

  /** The scan passes over one escaped character of a string. */
  lemma SkipEscapeChar(json: string, i: nat, c: char, depth: int)
    requires StandsAt(json, i, EscapeChar(c))
    ensures CloseIndex(json, i, depth, true, false) == CloseIndex(json, i + |EscapeChar(c)|, depth, true, false)
  {
    StandsAtChars(json, i, EscapeChar(c));
    var n := |EscapeChar(c)|;
    assert json[i + 0] == EscapeChar(c)[0];
    if n > 1 {
      assert json[i + 1] == EscapeChar(c)[1];
      assert CloseIndex(json, i, depth, true, false) == CloseIndex(json, i + 2, depth, true, false);
    }
    if n == 6 {
      assert json[i + 2] == '0' && json[i + 3] == '0' && json[i + 4] == EscapeChar(c)[4]
             && json[i + 5] == EscapeChar(c)[5];
      assert CloseIndex(json, i + 2, depth, true, false) == CloseIndex(json, i + 3, depth, true, false);
      assert CloseIndex(json, i + 3, depth, true, false) == CloseIndex(json, i + 4, depth, true, false);
      assert CloseIndex(json, i + 4, depth, true, false) == CloseIndex(json, i + 5, depth, true, false);
    }
  }

  lemma SkipEndQuote(json: string, i: nat, depth: int)
    requires StandsAt(json, i, "\"")
    ensures CloseIndex(json, i, depth, true, false) == CloseIndex(json, i + 1, depth, false, false)
  {
    StandsAtChars(json, i, "\"");
    assert json[i + 0] == '"';
  }

  /** The scan passes over the rest of a string, whatever braces and quotes it holds. */
  lemma {:induction false} SkipString(json: string, i: nat, s: string, depth: int)
    requires StandsAt(json, i, Escape(s) + "\"")
    ensures CloseIndex(json, i, depth, true, false) == CloseIndex(json, i + |Escape(s)| + 1, depth, false, false)
    decreases |s|
  {
    hide EscapeChar, CloseIndex, StandsAt;
    StandsAtParts(json, i, Escape(s), "\"");
    if s == "" {
      SkipEndQuote(json, i, depth);
    } else {
      var first, rest := EscapeChar(s[0]), Escape(s[1..]);
      assert Escape(s) + "\"" == first + (rest + "\"");
      StandsAtParts(json, i, first, rest + "\"");
      SkipEscapeChar(json, i, s[0], depth);
      SkipString(json, i + |first|, s[1..], depth);
    }
  }

  /** The scan passes over one piece of a string. */
  lemma SkipPiece(json: string, i: nat, p: JsonString.Piece, depth: int)
    requires StandsAt(json, i, JsonString.Written(p)) && JsonString.Legal(p)
    ensures CloseIndex(json, i, depth, true, false)
            == CloseIndex(json, i + |JsonString.Written(p)|, depth, true, false)
  {
    hide JsonString.HexText, JsonString.HexNumber;
    StandsAtChars(json, i, JsonString.Written(p));
    match p
    case Numeric(digits) => SkipNumeric(json, i, digits, depth);
    case Plain(c) => assert json[i + 0] == c;
    case Short(letter) => TwoPassed(json, i, letter, depth);
    case Lone(c) => TwoPassed(json, i, c, depth);
  }

  lemma TwoPassed(json: string, i: nat, c: char, depth: int)
    requires StandsAt(json, i, ['\\', c])
    ensures CloseIndex(json, i, depth, true, false) == CloseIndex(json, i + 2, depth, true, false)
  {
    StandsAtChars(json, i, ['\\', c]);
    assert json[i + 0] == '\\' && json[i + 1] == c;
    assert CloseIndex(json, i + 1, depth, true, true) == CloseIndex(json, i + 2, depth, true, false);
  }

  lemma SkipNumeric(json: string, i: nat, digits: seq<JsonString.Hex>, depth: int)
    requires |digits| == 4 && JsonString.AllHex(digits) && StandsAt(json, i, "\\u" + JsonString.HexText(digits))
    ensures CloseIndex(json, i, depth, true, false) == CloseIndex(json, i + 6, depth, true, false)
  {
    hide JsonString.HexText, StandsAt;
    var text := JsonString.HexText(digits);
    var w := "\\u" + text;
    StandsChar(json, i, w, 0);
    StandsChar(json, i, w, 1);
    StandsAtParts(json, i, "\\u", text);
    assert CloseIndex(json, i, depth, true, false) == CloseIndex(json, i + 1, depth, true, true)
        == CloseIndex(json, i + 2, depth, true, false);
    hide CloseIndex;
    DigitPlain(json, i + 2, text, digits, 0, depth);
    DigitPlain(json, i + 2, text, digits, 1, depth);
    DigitPlain(json, i + 2, text, digits, 2, depth);
    DigitPlain(json, i + 2, text, digits, 3, depth);
  }

  lemma DigitPlain(json: string, at: nat, text: string, digits: seq<JsonString.Hex>, k: nat, depth: int)
    requires k < |digits| && JsonString.AllHex(digits) && text == JsonString.HexText(digits) && StandsAt(json, at, text)
    ensures CloseIndex(json, at + k, depth, true, false) == CloseIndex(json, at + k + 1, depth, true, false)
  {
    StandsChar(json, at, text, k);
    JsonString.HexAt(digits, k);
    JsonString.HexCharValue(digits[k]);
  }

  lemma {:induction false} SkipPieces(json: string, i: nat, ps: seq<JsonString.Piece>, depth: int)
    requires StandsAt(json, i, JsonString.AllWritten(ps) + "\"") && JsonString.AllLegal(ps)
    ensures CloseIndex(json, i, depth, true, false)
            == CloseIndex(json, i + |JsonString.AllWritten(ps)| + 1, depth, false, false)
    decreases |ps|
  {
    hide CloseIndex, StandsAt, JsonString.Written, JsonString.Legal;
    StandsAtParts(json, i, JsonString.AllWritten(ps), "\"");
    if ps == [] {
      SkipEndQuote(json, i, depth);
    } else {
      var first, rest := JsonString.Written(ps[0]), JsonString.AllWritten(ps[1..]);
      assert JsonString.AllWritten(ps) + "\"" == first + (rest + "\"");
      StandsAtParts(json, i, first, rest + "\"");
      SkipPiece(json, i, ps[0], depth);
      SkipPieces(json, i + |first|, ps[1..], depth);
    }
  }

  lemma SkipWritten(json: string, i: nat, ps: seq<JsonString.Piece>, depth: int)
    requires StandsAt(json, i, "\"" + (JsonString.AllWritten(ps) + "\"")) && JsonString.AllLegal(ps)
    ensures CloseIndex(json, i, depth, false, false)
            == CloseIndex(json, i + |JsonString.AllWritten(ps)| + 2, depth, false, false)
  {
    hide CloseIndex;
    StandsAtParts(json, i, "\"", JsonString.AllWritten(ps) + "\"");
    SkipBrace(json, i, '"', depth);
    SkipPieces(json, i + 1, ps, depth);
  }

  lemma SkipChar(json: string, i: nat, c: char, depth: int)
    requires StandsAt(json, i, [c]) && c != '"' && c != '{' && c != '}'
    ensures CloseIndex(json, i, depth, false, false) == CloseIndex(json, i + 1, depth, false, false)
  {
    StandsAtChars(json, i, [c]);
    assert json[i + 0] == c;
  }

  lemma SkipBrace(json: string, i: nat, c: char, depth: int)
    requires StandsAt(json, i, [c])
    ensures c == '"' ==> CloseIndex(json, i, depth, false, false) == CloseIndex(json, i + 1, depth, true, false)
    ensures c == '{' ==> CloseIndex(json, i, depth, false, false) == CloseIndex(json, i + 1, depth + 1, false, false)
    ensures c == '}' && depth != 1 ==>
              CloseIndex(json, i, depth, false, false) == CloseIndex(json, i + 1, depth - 1, false, false)
    ensures c == '}' && depth == 1 ==> CloseIndex(json, i, depth, false, false) == i
  {
    StandsAtChars(json, i, [c]);
    assert json[i + 0] == c;
  }

  lemma SkipQuoted(json: string, i: nat, s: string, depth: int)
    requires StandsAt(json, i, "\"" + (Escape(s) + "\""))
    ensures CloseIndex(json, i, depth, false, false) == CloseIndex(json, i + |Escape(s)| + 2, depth, false, false)
  {
    hide CloseIndex;
    StandsAtParts(json, i, "\"", Escape(s) + "\"");
    SkipBrace(json, i, '"', depth);
    SkipString(json, i + 1, s, depth);
  }

  lemma PrintParts(b: Body)
    ensures b.End? ==> Print(b) == ""
    ensures b.Plain? ==> Print(b) == [b.c] + Print(b.rest)
    ensures b.Quoted? ==> Print(b) == ("\"" + (Escape(b.s) + "\"")) + Print(b.rest)
    ensures b.Pieces? ==> Print(b) == ("\"" + (JsonString.AllWritten(b.ps) + "\"")) + Print(b.rest)
    ensures b.Nested? ==> Print(b) == ("{" + (Print(b.inner) + "}")) + Print(b.rest)
  {
  }

  /** Passing over what stands between two braces is passing over the braces too. */
  lemma SkipBraced(json: string, i: nat, inner: string, depth: nat)
    requires depth >= 1 && StandsAt(json, i, "{") && StandsAt(json, i + 1 + |inner|, "}")
    requires CloseIndex(json, i + 1, depth + 1, false, false)
             == CloseIndex(json, i + 1 + |inner|, depth + 1, false, false)
    ensures CloseIndex(json, i, depth, false, false) == CloseIndex(json, i + |inner| + 2, depth, false, false)
  {
    hide CloseIndex, StandsAt;
    SkipBrace(json, i, '{', depth);
    SkipBrace(json, i + 1 + |inner|, '}', depth + 1);
  }

  /** The scan passes over what stands between two braces and is back at the same depth. */
  lemma {:induction false} SkipBody(json: string, i: nat, b: Body, depth: nat)
    requires Printable(b) && depth >= 1 && StandsAt(json, i, Print(b))
    ensures CloseIndex(json, i, depth, false, false) == CloseIndex(json, i + |Print(b)|, depth, false, false)
    decreases b
  {
    hide CloseIndex, StandsAt, Print, Escape, JsonString.AllWritten, JsonString.AllLegal;
    PrintParts(b);
    match b
    case End =>
    case Plain(c, rest) =>
      StandsAtParts(json, i, [c], Print(rest));
      SkipChar(json, i, c, depth);
      SkipBody(json, i + 1, rest, depth);
    case Quoted(s, rest) =>
      var quoted := "\"" + (Escape(s) + "\"");
      StandsAtParts(json, i, quoted, Print(rest));
      SkipQuoted(json, i, s, depth);
      SkipBody(json, i + |quoted|, rest, depth);
    case Pieces(ps, rest) =>
      var quoted := "\"" + (JsonString.AllWritten(ps) + "\"");
      StandsAtParts(json, i, quoted, Print(rest));
      SkipWritten(json, i, ps, depth);
      SkipBody(json, i + |quoted|, rest, depth);
    case Nested(inner, rest) =>
      var braced := "{" + (Print(inner) + "}");
      StandsAtParts(json, i, braced, Print(rest));
      StandsAtParts(json, i, "{", Print(inner) + "}");
      StandsAtParts(json, i + 1, Print(inner), "}");
      SkipBody(json, i + 1, inner, depth + 1);
      SkipBraced(json, i, Print(inner), depth);
      SkipBody(json, i + |braced|, rest, depth);
  }

  /** A printed object is extracted whole, wherever it stands and whatever follows it. */
  lemma BracedIsObject(json: string, pos: nat, b: Body)
    requires Printable(b) && StandsAt(json, pos, "{" + (Print(b) + "}"))
    ensures Braced(json, pos) == "{" + (Print(b) + "}")
  {
    hide CloseIndex, Print, Printable, StandsAt;
    StandsAtParts(json, pos, "{", Print(b) + "}");
    StandsAtParts(json, pos + 1, Print(b), "}");
    SkipBrace(json, pos, '{', 0);
    SkipBody(json, pos + 1, b, 1);
    SkipBrace(json, pos + 1 + |Print(b)|, '}', 1);
    StandsAtSlice(json, pos, "{" + (Print(b) + "}"));
  }

  /** An object that is cut off gives nothing. */
  lemma TruncatedIsNothing(json: string, pos: nat, b: Body)
    requires Printable(b) && StandsAt(json, pos, "{" + Print(b)) && pos + 1 + |Print(b)| == |json|
    ensures Braced(json, pos) == ""
  {
    hide CloseIndex, Print, Printable, StandsAt;
    StandsAtParts(json, pos, "{", Print(b));
    SkipBrace(json, pos, '{', 0);
    SkipBody(json, pos + 1, b, 1);
    ScanEnds(json, |json|);
  }

  lemma ScanEnds(json: string, i: nat)
    requires i >= |json|
    ensures CloseIndex(json, i, 1, false, false) == -1
  {
  }

  lemma StandsAtSlice(json: string, i: nat, t: string)
    requires StandsAt(json, i, t)
    ensures i + |t| <= |json| && json[i..i + |t|] == t
  {
  }

  /** A nested object is extracted by its key exactly as it was printed. */
  lemma ObjectRoundTrip(json: string, before: string, key: string, blanks: string, b: Body, after: string)
    requires Printable(b) && forall k :: 0 <= k < |blanks| ==> JsonString.IsBlank(blanks[k])
    requires json == before + JsonString.Key(key) + blanks + ("{" + (Print(b) + "}") + after)
    requires JsonString.FirstKey(json, before, key)
    ensures ExtractObject(json, key) == "{" + (Print(b) + "}")
  {
    hide CloseIndex, Find, Print, Printable, JsonString.Key, JsonString.FirstKey, Braced, FindKeyValue, StandsAt;
    var printed := "{" + (Print(b) + "}");
    JsonString.ValueAt(json, before, key, blanks, printed + after);
    var pos := FindKeyValue(json, key);
    StandsChar(json, pos, printed + after, 0);
    StandsAtParts(json, pos, printed, after);
    BracedIsObject(json, pos, b);
  }

  /** A value that is no object gives nothing. */
  lemma NoObject(json: string, before: string, key: string, blanks: string, value: string)
    requires json == before + JsonString.Key(key) + blanks + value && JsonString.FirstKey(json, before, key)
    requires (forall k :: 0 <= k < |blanks| ==> JsonString.IsBlank(blanks[k]))
    requires value != "" ==> !JsonString.IsBlank(value[0]) && value[0] != '{'
    ensures ExtractObject(json, key) == ""
  {
    hide CloseIndex, Find, JsonString.Key, JsonString.FirstKey, Braced, FindKeyValue;
    JsonString.ValueAt(json, before, key, blanks, value);
    var pos := FindKeyValue(json, key);
    if value != "" {
      StandsChar(json, pos, value, 0);
    }
  }
}
