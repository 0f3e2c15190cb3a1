/** The JSON scanner and escaper of src/json/json.cpp. It has no parser: values are found by searching for their
    key, and strings and objects are delimited by scanning characters. */
module Json {
  import opened Text
  import opened Wrappers

  /** `None` is the exception `std::stoul` throws on four characters that do not start with a number. */
  // ----- escaping -----

  function HexDigit(d: nat): char
    requires d < 16
  {
    "0123456789abcdef"[d]
  }

  function EscapeChar(c: char): string {
    if c == '"' then "\\\""
    else if c == '\\' then "\\\\"
    else if c == '\U{8}' then "\\b"
    else if c == '\U{C}' then "\\f"
    else if c == '\n' then "\\n"
    else if c == '\r' then "\\r"
    else if c == '\t' then "\\t"
    else if c <= '\U{1F}' then "\\u00" + [HexDigit(c as int / 16), HexDigit(c as int % 16)]
    else [c]
  }

  function Escape(s: string): string {
    if s == "" then "" else EscapeChar(s[0]) + Escape(s[1..])
  }

  lemma {:induction false} EscapeConcat(a: string, b: string)
    ensures Escape(a + b) == Escape(a) + Escape(b)
  {
    if a == "" {
      assert a + b == b;
    } else {
      hide EscapeChar;
      assert (a + b)[1..] == a[1..] + b;
      EscapeConcat(a[1..], b);
    }
  }

  lemma EscapeSnoc(s: string, i: nat)
    requires i < |s|
    ensures Escape(s[..i + 1]) == Escape(s[..i]) + EscapeChar(s[i])
  {
    hide EscapeChar;
    assert s[..i + 1] == s[..i] + [s[i]];
    assert [s[i]][1..] == "";
    assert Escape([s[i]]) == EscapeChar(s[i]) + Escape([s[i]][1..]);
    EscapeConcat(s[..i], [s[i]]);
  }

  method EscapeJson(s: string) returns (out: string)
    ensures out == Escape(s)
  {
    out := "";
    for i := 0 to |s|
      invariant out == Escape(s[..i])
    {
      EscapeSnoc(s, i);
      out := out + EscapeChar(s[i]);
    }
    assert s[..|s|] == s;
  }

  // ----- decoding escapes -----

  predicate IsSpace(c: char) {
    c == ' ' || c == '\t' || c == '\n' || c == '\r' || c == '\U{B}' || c == '\U{C}'
  }

  function HexValue(c: char): (v: int)
    ensures -1 <= v < 16
  {
    if '0' <= c <= '9' then c as int - '0' as int
    else if 'a' <= c <= 'f' then c as int - 'a' as int + 10
    else if 'A' <= c <= 'F' then c as int - 'A' as int + 10
    else -1
  }

  function SkipSpaces(s: string): (r: string)
    ensures |r| <= |s|
  {
    if s != "" && IsSpace(s[0]) then SkipSpaces(s[1..]) else s
  }

  /** The hexadecimal number the leading digits of `s` spell, after `v`. */
  function HexPrefix(s: string, v: nat): nat {
    if s != "" && HexValue(s[0]) >= 0 then HexPrefix(s[1..], 16 * v + HexValue(s[0])) else v
  }

  /** `std::stoul(s, nullptr, 16)` for a short `s`: leading space, a sign and `0x` are accepted. */
  function Stoul(s: string): Option<nat> {
    var t := SkipSpaces(s);
    var negative := t != "" && t[0] == '-';
    var u := if t != "" && (t[0] == '-' || t[0] == '+') then t[1..] else t;
    var digits := if |u| >= 3 && u[0] == '0' && (u[1] == 'x' || u[1] == 'X') && HexValue(u[2]) >= 0 then u[2..] else u;
    if digits == "" || HexValue(digits[0]) < 0 then None
    else
      var v := HexPrefix(digits, 0);
      Some(if negative && 0 < v < 0x1_0000_0000_0000_0000 then 0x1_0000_0000_0000_0000 - v else v)
  }

  function Unescaped(c: char): Option<char> {
    if c == 'n' then Some('\n')
    else if c == 't' then Some('\t')
    else if c == 'r' then Some('\r')
    else if c == 'b' then Some('\U{8}')
    else if c == 'f' then Some('\U{C}')
    else if c == '"' || c == '\\' || c == '/' then Some(c)
    else None
  }

  /** The characters consumed beyond the backslash at `i` (0 when it is not an escape) and what they decode to. */
  function DecodeEscape(json: string, i: nat): (r: Option<(nat, string)>)
    requires i < |json|
    ensures r.Some? ==> i + r.value.0 < |json|
  {
    if i + 1 >= |json| then Some((0, ""))
    else
      match Unescaped(json[i + 1])
      case Some(c) => Some((1, [c]))
      case None =>
        if json[i + 1] != 'u' || i + 5 >= |json| then Some((0, ""))
        else
          match Stoul(json[i + 2..i + 6])
          case None => None
          case Some(cp) => Some((5, if cp < 128 then [cp as char] else ""))
  }

  // ----- the end of a string -----

  /** The number of consecutive backslashes just before `i`. */
  function BackslashRun(json: string, i: nat): nat
    requires i <= |json|
  {
    if i > 0 && json[i - 1] == '\\' then 1 + BackslashRun(json, i - 1) else 0
  }

  predicate EndQuote(json: string, i: nat)
    requires i < |json|
  {
    json[i] == '"' && BackslashRun(json, i) % 2 == 0
  }

  method IsEndQuote(json: string, i: nat) returns (r: bool)
    requires i < |json|
    ensures r == EndQuote(json, i)
  {
    if json[i] != '"' { return false; }
    var backslashes := 0;
    while i >= backslashes + 1 && json[i - 1 - backslashes] == '\\'
      invariant 0 <= backslashes <= i
      invariant BackslashRun(json, i) == backslashes + BackslashRun(json, i - backslashes)
    {
      backslashes := backslashes + 1;
    }
    return backslashes % 2 == 0;
  }

  /** The `escaped` flag of a forward scan that starts in a string at `start`, when it reaches `i`. */
  ghost function EscapedFlag(json: string, start: nat, i: nat): bool
    requires start <= i <= |json|
    decreases i
  {
    i > start && !EscapedFlag(json, start, i - 1) && json[i - 1] == '\\'
  }

  /** Counting backwards and scanning forwards agree at every position of a string. */
  lemma {:induction false} BackwardParityIsForwardFlag(json: string, start: nat, i: nat)
    requires start <= i <= |json| && BackslashRun(json, start) % 2 == 0
    ensures EscapedFlag(json, start, i) <==> BackslashRun(json, i) % 2 == 1
    decreases i
  {
    if i > start {
      BackwardParityIsForwardFlag(json, start, i - 1);
    }
  }

  // ----- extracting a string -----

  function Prepend(a: string, r: Option<string>): Option<string> {
    match r
    case None => None
    case Some(b) => Some(a + b)
  }

  /** The text decoded from position `i` to the end of the string. */
  function Decode(json: string, i: nat): Option<string>
    decreases |json| - i
  {
    if i >= |json| || EndQuote(json, i) then Some("")
    else if json[i] == '\\' then
      match DecodeEscape(json, i)
      case None => None
      case Some(step) =>
        if step.0 > 0 then Prepend(step.1, Decode(json, i + step.0 + 1)) else Prepend([json[i]], Decode(json, i + 1))
    else Prepend([json[i]], Decode(json, i + 1))
  }

  function SkipWs(json: string, pos: nat): (r: nat)
    ensures pos <= r
    decreases |json| - pos
  {
    if pos < |json| && (json[pos] == ' ' || json[pos] == '\t' || json[pos] == '\n' || json[pos] == '\r')
    then SkipWs(json, pos + 1) else pos
  }

  function Needle(key: string): string {
    "\"" + key + "\":"
  }

  /** The position of the value of a key, or -1. */
  function FindKeyValue(json: string, key: string): int {
    var pos := Find(json, Needle(key), 0);
    if pos < 0 then -1 else SkipWs(json, pos + |Needle(key)|)
  }

  function Bare(json: string, i: nat): string
    decreases |json| - i
  {
    if i >= |json| || json[i] == ',' || json[i] == '}' || json[i] == ' ' then "" else [json[i]] + Bare(json, i + 1)
  }

  function ExtractString(json: string, key: string): Option<string> {
    var pos := FindKeyValue(json, key);
    if pos < 0 || pos >= |json| then Some("")
    else if json[pos] != '"' then
      if OccursAt(json, "null", pos) || OccursAt(json, "true", pos) || OccursAt(json, "false", pos) then Some("")
      else Some(Bare(json, pos))
    else Decode(json, pos + 1)
  }

  /** The walk over a quoted value. */
  method DecodeString(json: string, start: nat) returns (r: Option<string>)
    ensures r == Decode(json, start)
  {
    var result := "";
    var i := start;
    PrependTwice("", "", Decode(json, start));
    while i < |json|
      invariant Decode(json, start) == Prepend(result, Decode(json, i))
    {
      hide Decode;
      DecodeUnfold(json, i);
      var atEnd := IsEndQuote(json, i);
      if atEnd { break; }
      var skip := 0;
      if json[i] == '\\' {
        match DecodeEscape(json, i) {
          case None => return None;
          case Some(step) =>
            skip := step.0;
            if skip > 0 {
              PrependTwice(result, step.1, Decode(json, i + skip + 1));
              result := result + step.1;
              i := i + skip + 1;
            }
        }
      }
      if skip == 0 {
        PrependTwice(result, [json[i]], Decode(json, i + 1));
        result := result + [json[i]];
        i := i + 1;
      }
    }
    DecodeUnfold(json, i);
    PrependTwice(result, "", Some(""));
    return Some(result);
  }

  lemma PrependTwice(a: string, b: string, r: Option<string>)
    ensures Prepend(a, Prepend(b, r)) == Prepend(a + b, r)
    ensures Prepend("", r) == r && Prepend(a, Some("")) == Some(a)
  {
    assert a + "" == a && (r.Some? ==> "" + r.value == r.value);
    if r.Some? {
      assert a + (b + r.value) == a + b + r.value;
    }
  }

  lemma DecodeUnfold(json: string, i: nat)
    ensures i >= |json| || EndQuote(json, i) ==> Decode(json, i) == Some("")
    ensures i < |json| && !EndQuote(json, i) && json[i] == '\\' ==>
              match DecodeEscape(json, i)
              case None => Decode(json, i) == None
              case Some(step) =>
                Decode(json, i) ==
                if step.0 > 0 then Prepend(step.1, Decode(json, i + step.0 + 1))
                  else Prepend([json[i]], Decode(json, i + 1))
    ensures i < |json| && !EndQuote(json, i) && json[i] != '\\' ==>
            Decode(json, i) == Prepend([json[i]], Decode(json, i + 1))
  {
  }

  // ----- what is escaped is decoded -----

  /** `t` stands at `i`. */
  ghost predicate StandsAt(json: string, i: nat, t: string) {
    i + |t| <= |json| && json[i..i + |t|] == t
  }

  lemma StandsAtParts(json: string, i: nat, a: string, b: string)
    requires StandsAt(json, i, a + b)
    ensures StandsAt(json, i, a) && StandsAt(json, i + |a|, b)
  {
    assert json[i..i + |a + b|][..|a|] == a;
    assert json[i..i + |a + b|][|a|..] == b;
  }

  lemma StandsAtChars(json: string, i: nat, t: string)
    requires StandsAt(json, i, t)
    ensures forall k :: 0 <= k < |t| ==> json[i + k] == t[k]
  {
    forall k | 0 <= k < |t| ensures json[i + k] == t[k] {
      assert json[i..i + |t|][k] == json[i + k];
    }
  }

  lemma StandsChar(json: string, i: nat, t: string, k: nat)
    requires StandsAt(json, i, t) && k < |t|
    ensures i + k < |json| && json[i + k] == t[k]
  {
    assert json[i..i + |t|][k] == json[i + k];
  }

  lemma StandsAtFits(json: string, i: nat, t: string)
    requires StandsAt(json, i, t)
    ensures i + |t| <= |json|
  {
  }

  lemma StandsIsOccurs(json: string, i: nat, t: string)
    requires StandsAt(json, i, t)
    ensures OccursAt(json, t, i)
  {
  }

  lemma HexRoundTrip(c: char)
    requires c <= '\U{1F}'
    ensures Stoul("00" + [HexDigit(c as int / 16), HexDigit(c as int % 16)]) == Some(c as int)
  {
    var hi, lo := HexDigit(c as int / 16), HexDigit(c as int % 16);
    var s := "00" + [hi, lo];
    assert HexValue(hi) == c as int / 16 && HexValue(lo) == c as int % 16;
    assert s[1..] == "0" + [hi, lo] && s[1..][1..] == [hi, lo] && [hi, lo][1..] == [lo] && [lo][1..] == "";
    assert HexPrefix([lo], c as int / 16) == c as int;
    assert HexPrefix([hi, lo], 0) == HexPrefix([lo], c as int / 16);
    assert HexPrefix("0" + [hi, lo], 0) == HexPrefix([hi, lo], 0);
    assert HexPrefix(s, 0) == HexPrefix("0" + [hi, lo], 0);
  }

  /** One escaped character decodes to itself and leaves the backslash parity even. */
  lemma DecodeOne(json: string, i: nat, c: char)
    requires i + |EscapeChar(c)| < |json| && StandsAt(json, i, EscapeChar(c)) && BackslashRun(json, i) % 2 == 0
    ensures Decode(json, i) == Prepend([c], Decode(json, i + |EscapeChar(c)|))
    ensures BackslashRun(json, i + |EscapeChar(c)|) % 2 == 0
  {
    hide Decode, StandsAt;
    var n := |EscapeChar(c)|;
    StandsChar(json, i, EscapeChar(c), 0);
    if n == 2 {
      DecodeShort(json, i, c);
    } else {
      DecodeUnfold(json, i);
    }
    if n == 6 {
      StandsChar(json, i, EscapeChar(c), 5);
      DecodeControl(json, i, c);
    }
  }

  /** The long escape of a control character is decoded to the character. */
  lemma DecodeShort(json: string, i: nat, c: char)
    requires |EscapeChar(c)| == 2 && StandsAt(json, i, EscapeChar(c)) && BackslashRun(json, i) % 2 == 0
    ensures i + 2 <= |json| && BackslashRun(json, i + 2) % 2 == 0
    ensures Decode(json, i) == Prepend([c], Decode(json, i + 2))
  {
    hide Decode, StandsAt;
    StandsChar(json, i, EscapeChar(c), 0);
    StandsChar(json, i, EscapeChar(c), 1);
    DecodeUnfold(json, i);
    assert BackslashRun(json, i + 1) == BackslashRun(json, i) + 1;
    assert Unescaped(json[i + 1]) == Some(c);
  }

  lemma DecodeControl(json: string, i: nat, c: char)
    requires |EscapeChar(c)| == 6 && StandsAt(json, i, EscapeChar(c))
    ensures i < |json| && DecodeEscape(json, i) == Some((5, [c]))
  {
    hide Stoul;
    StandsChar(json, i, EscapeChar(c), 1);
    StandsChar(json, i, EscapeChar(c), 5);
    assert json[i..i + 6] == EscapeChar(c);
    assert json[i + 2..i + 6] == json[i..i + 6][2..];
    assert EscapeChar(c)[2..] == "00" + [HexDigit(c as int / 16), HexDigit(c as int % 16)];
    HexRoundTrip(c);
  }

  /** Any string written with the escaper and closed by a quote is read back unchanged, wherever it stands. */
  lemma {:induction false} DecodeInvertsEscape(json: string, i: nat, s: string)
    requires StandsAt(json, i, Escape(s) + "\"") && BackslashRun(json, i) % 2 == 0
    ensures Decode(json, i) == Some(s)
    ensures BackslashRun(json, i + |Escape(s)|) % 2 == 0
    decreases |s|
  {
    hide EscapeChar, Decode, DecodeEscape;
    StandsAtParts(json, i, Escape(s), "\"");
    if s == "" {
      assert json[i..i + 1][0] == '"';
      DecodeUnfold(json, i);
    } else {
      var first, rest := EscapeChar(s[0]), Escape(s[1..]);
      assert Escape(s) + "\"" == first + (rest + "\"");
      StandsAtParts(json, i, first, rest + "\"");
      DecodeOne(json, i, s[0]);
      DecodeInvertsEscape(json, i + |first|, s[1..]);
      assert s == [s[0]] + s[1..];
    }
  }

  /** A field whose key is found at `|before|` gives back the string it was written from. */
  lemma FieldRoundTrip(json: string, before: string, key: string, s: string, after: string)
    requires json == before + (Needle(key) + "\"") + (Escape(s) + "\"") + after
    requires Find(json, Needle(key), 0) == |before|
    ensures ExtractString(json, key) == Some(s)
  {
    hide Decode, Escape, Find;
    var pos := |before| + |Needle(key)|;
    assert json[pos] == '"';
    assert json[pos + 1..pos + 1 + |Escape(s) + "\""|] == Escape(s) + "\"";
    assert BackslashRun(json, pos + 1) == 0;
    DecodeInvertsEscape(json, pos + 1, s);
  }

  // ----- the second decoder -----

  predicate ShortEscape(c: char) {
    c == '"' || c == '\\' || c == 'n' || c == 'r' || c == 't'
  }

  function ShortValue(c: char): char {
    if c == 'n' then '\n' else if c == 'r' then '\r' else if c == 't' then '\t' else c
  }

  /** `unescape_json`: only the short escapes are decoded, everything else is kept. */
  function Unescape(s: string): string {
    if s == "" then ""
    else if s[0] == '\\' && |s| > 1 then (if ShortEscape(s[1]) then [ShortValue(s[1])] else s[..2]) + Unescape(s[2..])
    else [s[0]] + Unescape(s[1..])
  }

  method UnescapeJson(s: string) returns (out: string)
    ensures out == Unescape(s)
  {
    hide Unescape;
    out := "";
    var i := 0;
    while i < |s|
      invariant 0 <= i <= |s|
      invariant out + Unescape(s[i..]) == Unescape(s)
    {
      UnescapeAt(s, i, out);
      if s[i] == '\\' && i + 1 < |s| {
        i := i + 1;
        if ShortEscape(s[i]) {
          out := out + [ShortValue(s[i])];
        } else {
          out := out + ['\\', s[i]];
        }
      } else {
        out := out + [s[i]];
      }
      i := i + 1;
    }
    UnescapeEmpty();
    assert s[i..] == "" && out + "" == out;
  }

  lemma UnescapeAt(s: string, i: nat, out: string)
    requires i < |s|
    ensures s[i] == '\\' && i + 1 < |s| ==>
              out + Unescape(s[i..])
              == (if ShortEscape(s[i + 1]) then out + [ShortValue(s[i + 1])] else out + ['\\', s[i + 1]])
                + Unescape(s[i + 2..])
    ensures !(s[i] == '\\' && i + 1 < |s|) ==> out + Unescape(s[i..]) == (out + [s[i]]) + Unescape(s[i + 1..])
  {
    var tail := s[i..];
    assert tail[1..] == s[i + 1..];
    if i + 1 < |s| {
      assert tail[2..] == s[i + 2..] && tail[..2] == [s[i], s[i + 1]];
    }
  }

  /** A backslash followed by a character that makes a short escape. */
  ghost predicate HasShortEscape(s: string) {
    exists i :: 0 <= i < |s| - 1 && s[i] == '\\' && ShortEscape(s[i + 1])
  }

  lemma {:induction false} UnescapeShrinks(s: string)
    ensures |Unescape(s)| <= |s|
    ensures HasShortEscape(s) ==> |Unescape(s)| < |s|
    ensures !HasShortEscape(s) ==> Unescape(s) == s
    decreases |s|
  {
    if s == "" {
    } else if s[0] == '\\' && |s| > 1 {
      var tail := s[2..];
      UnescapeShrinks(tail);
      assert s == s[..2] + tail;
      if HasShortEscape(tail) {
        var i :| 0 <= i < |tail| - 1 && tail[i] == '\\' && ShortEscape(tail[i + 1]);
        assert s[i + 2] == '\\' && ShortEscape(s[(i + 2) + 1]);
      }
      if HasShortEscape(s) && !ShortEscape(s[1]) {
        var i :| 0 <= i < |s| - 1 && s[i] == '\\' && ShortEscape(s[i + 1]);
        assert tail[i - 2] == '\\' && ShortEscape(tail[(i - 2) + 1]);
      }
      if ShortEscape(s[1]) {
        assert s[0] == '\\' && ShortEscape(s[0 + 1]);
      }
    } else {
      var tail := s[1..];
      UnescapeShrinks(tail);
      assert s == [s[0]] + tail;
      if HasShortEscape(tail) {
        var i :| 0 <= i < |tail| - 1 && tail[i] == '\\' && ShortEscape(tail[i + 1]);
        assert s[i + 1] == '\\' && ShortEscape(s[(i + 1) + 1]);
      }
      if HasShortEscape(s) {
        var i :| 0 <= i < |s| - 1 && s[i] == '\\' && ShortEscape(s[i + 1]);
        assert tail[i - 1] == '\\' && ShortEscape(tail[(i - 1) + 1]);
      }
    }
  }

  /** `unescape_json` leaves a text alone exactly when no backslash starts a short escape in it. */
  lemma UnescapeFixes(s: string)
    ensures Unescape(s) == s <==> !HasShortEscape(s)
  {
    UnescapeShrinks(s);
  }

  /** The control characters that the escaper writes in a form the second decoder does not know. */
  predicate Foreign(c: char) {
    c <= '\U{1F}' && c != '\n' && c != '\r' && c != '\t'
  }

  lemma UnescapeOne(c: char, rest: string)
    ensures var r := Unescape(EscapeChar(c) + rest);
            if Foreign(c) then |r| >= 2 + |Unescape(rest)| else r == [c] + Unescape(rest)
  {
    var e := EscapeChar(c);
    var s := e + rest;
    if |e| == 1 {
      assert s[1..] == rest;
    } else if |e| == 2 {
      assert s[2..] == rest && s[..2] == e;
    } else {
      var h0, h1 := e[4], e[5];
      var t := [h0] + ([h1] + rest);
      assert HexDigit(c as int / 16) != '\\' && HexDigit(c as int % 16) != '\\';
      assert s[2..] == "0" + ("0" + t) && s[..2] == "\\u";
      assert Unescape(s) == "\\u" + Unescape("0" + ("0" + t));
      hide Unescape, EscapeChar;
      UnescapePlain('0', "0" + t);
      UnescapePlain('0', t);
      UnescapePlain(h0, [h1] + rest);
      UnescapePlain(h1, rest);
    }
  }

  lemma UnescapePlain(c: char, rest: string)
    requires c != '\\'
    ensures Unescape([c] + rest) == [c] + Unescape(rest)
  {
    assert ([c] + rest)[1..] == rest;
  }

  /** The second decoder inverts the escaper exactly on texts without foreign control characters. */
  lemma {:induction false} UnescapeInvertsEscape(s: string)
    ensures |Unescape(Escape(s))| >= |s|
    ensures Unescape(Escape(s)) == s <==> forall i :: 0 <= i < |s| ==> !Foreign(s[i])
    ensures (exists i :: 0 <= i < |s| && Foreign(s[i])) ==> |Unescape(Escape(s))| > |s|
  {
    hide EscapeChar, Unescape;
    if s == "" {
      UnescapeEmpty();
    } else {
      UnescapeOne(s[0], Escape(s[1..]));
      UnescapeInvertsEscape(s[1..]);
      assert s == [s[0]] + s[1..];
      assert forall i :: 1 <= i < |s| ==> s[i] == s[1..][i - 1];
    }
  }

  lemma UnescapeEmpty()
    ensures Unescape("") == ""
  {
  }

  /** A control character is left in its numeric form. */
  lemma ControlIsNotUnescaped()
    ensures Unescape(Escape("\U{1}")) == "\\u0001"
  {
    var e := "\\u0001";
    assert Escape("\U{1}") == EscapeChar('\U{1}') + Escape("") == e;
    hide Unescape, Escape;
    assert !HasShortEscape(e) by {
      assert e[1] == 'u' && forall i :: 1 <= i < |e| ==> e[i] != '\\';
    }
    UnescapeFixes(e);
  }
}
