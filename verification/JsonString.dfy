/** What the string decoder of src/json/json.cpp reads, piece by piece: plain characters, the short escapes, numeric
    escapes, and backslashes before any other character. */
module JsonString {
  import opened Json
  import opened Text
  import opened Wrappers

  // ----- numeric escapes -----

  const LOWER := "0123456789abcdef"
  const UPPER := "0123456789ABCDEF"

  /** A hexadecimal digit and the case it is written in. */
  datatype Hex = Hex(value: nat, upper: bool)

  ghost predicate IsHex(h: Hex) {
    h.value < 16
  }

  ghost function HexChar(h: Hex): char {
    if h.value >= 16 then ' ' else if h.upper then UPPER[h.value] else LOWER[h.value]
  }

  ghost function HexText(hs: seq<Hex>): (r: string)
    ensures |r| == |hs|
    decreases |hs|
  {
    if hs == [] then "" else [HexChar(hs[0])] + HexText(hs[1..])
  }

  /** The number that the digits spell. */
  ghost function HexNumber(hs: seq<Hex>): nat
    decreases |hs|
  {
    if hs == [] then 0 else 16 * HexNumber(hs[..|hs| - 1]) + hs[|hs| - 1].value
  }

  ghost predicate AllHex(hs: seq<Hex>) {
    forall k :: 0 <= k < |hs| ==> IsHex(hs[k])
  }

  lemma HexCharValue(h: Hex)
    requires IsHex(h)
    ensures HexValue(HexChar(h)) == h.value
    ensures !IsSpace(HexChar(h)) && HexChar(h) !in {'+', '-', 'x', 'X', '"', '\\'}
    ensures HexChar(h) == '0' <==> h.value == 0
  {
  }

  lemma HexParts(done: seq<Hex>, hs: seq<Hex>, rest: string)
    requires AllHex(hs)
    ensures hs == [] ==> HexText(hs) + rest == rest && done + hs == done
    ensures hs != [] ==>
              && IsHex(hs[0]) && AllHex(hs[1..]) && done + hs == (done + [hs[0]]) + hs[1..]
              && HexText(hs) + rest == [HexChar(hs[0])] + (HexText(hs[1..]) + rest)
  {
    hide HexChar, IsHex;
  }

  lemma NumberEnds(rest: string, v: nat)
    requires rest == "" || HexValue(rest[0]) < 0
    ensures HexPrefix(rest, v) == v
  {
  }

  lemma OneDigit(done: seq<Hex>, h: Hex, s: string)
    requires HexValue(HexChar(h)) == h.value
    ensures HexPrefix([HexChar(h)] + s, HexNumber(done)) == HexPrefix(s, HexNumber(done + [h]))
  {
    hide HexChar, HexValue;
    assert ([HexChar(h)] + s)[1..] == s;
    assert (done + [h])[..|done|] == done;
  }

  lemma {:induction false} HexPrefixReads(done: seq<Hex>, hs: seq<Hex>, rest: string)
    requires AllHex(hs) && (rest == "" || HexValue(rest[0]) < 0)
    ensures HexPrefix(HexText(hs) + rest, HexNumber(done)) == HexNumber(done + hs)
    decreases |hs|
  {
    hide *;
    HexParts(done, hs, rest);
    if hs == [] {
      NumberEnds(rest, HexNumber(done));
    } else {
      var h, tail := hs[0], hs[1..];
      HexCharValue(h);
      HexPrefixReads(done + [h], tail, rest);
      OneDigit(done, h, HexText(tail) + rest);
    }
  }

  lemma {:induction false} HexAt(hs: seq<Hex>, k: nat)
    requires k < |hs|
    ensures HexText(hs)[k] == HexChar(hs[k])
    decreases |hs|
  {
    hide HexChar;
    if k > 0 {
      HexAt(hs[1..], k - 1);
    }
  }

  ghost predicate White(s: string) {
    forall k :: 0 <= k < |s| ==> s[k] in {' ', '\t', '\n', '\U{B}', '\U{C}', '\r'}
  }

  ghost predicate IsDigit(c: char) {
    c in "0123456789abcdefABCDEF"
  }

  lemma DigitIs(c: char)
    ensures HexValue(c) >= 0 <==> IsDigit(c)
    ensures IsSpace(c) <==> White([c])
  {
    assert IsSpace(c) <==> [c][0] in {' ', '\t', '\n', '\U{B}', '\U{C}', '\r'};
    assert HexValue(c) >= 0 <==> '0' <= c <= '9' || 'a' <= c <= 'f' || 'A' <= c <= 'F';
    LiteralDigits(c);
  }

  lemma LiteralDigits(c: char)
    ensures IsDigit(c) <==> '0' <= c <= '9' || 'a' <= c <= 'f' || 'A' <= c <= 'F'
  {
    var digits := "0123456789abcdefABCDEF";
    forall k | 0 <= k < |digits| ensures '0' <= digits[k] <= '9' || 'a' <= digits[k] <= 'f' || 'A' <= digits[k] <= 'F' {
    }
    if '0' <= c <= '9' {
      assert digits[c as int - '0' as int] == c;
    } else if 'a' <= c <= 'f' {
      assert digits[10 + (c as int - 'a' as int)] == c;
    } else if 'A' <= c <= 'F' {
      assert digits[16 + (c as int - 'A' as int)] == c;
    }
  }

  lemma {:induction false} SpacesSkipped(blanks: string, s: string)
    requires White(blanks) && (s == "" || !IsSpace(s[0]))
    ensures SkipSpaces(blanks + s) == s
    decreases |blanks|
  {
    if blanks == "" {
      assert blanks + s == s;
    } else {
      assert (blanks + s)[1..] == blanks[1..] + s;
      DigitIs(blanks[0]);
      SpacesSkipped(blanks[1..], s);
    }
  }

  /** What `std::stoul(s, nullptr, 16)` makes of blanks, a sign, a prefix, and digits with anything behind them. */
  lemma StoulReads(blanks: string, sign: string, prefix: string, hs: seq<Hex>, rest: string)
    requires White(blanks) && sign in {"", "+", "-"} && prefix in {"", "0x", "0X"}
    requires hs != [] && AllHex(hs) && (rest == "" || !IsDigit(rest[0]))
    requires !(&& prefix == "" && |hs| == 1 && hs[0].value == 0
               && |rest| >= 2 && rest[0] in {'x', 'X'} && IsDigit(rest[1]))
    ensures var v := HexNumber(hs);
            Stoul(blanks + (sign + (prefix + (HexText(hs) + rest))))
            == Some(if sign == "-" && 0 < v < 0x1_0000_0000_0000_0000 then 0x1_0000_0000_0000_0000 - v else v)
  {
    hide *;
    var digits := HexText(hs) + rest;
    FirstDigits(hs, rest);
    if prefix != "" {
      assert prefix[0] == '0' && (prefix + digits)[0] == '0';
    } else {
      assert prefix + digits == digits;
    }
    assert sign != "" ==> (sign + (prefix + digits))[0] == sign[0];
    assert sign == "" ==> sign + (prefix + digits) == prefix + digits;
    SpacesSkipped(blanks, sign + (prefix + digits));
    assert [] + hs == hs;
    NoDigits();
    if rest != "" { DigitIs(rest[0]); }
    HexPrefixReads([], hs, rest);
    StoulOf(blanks + (sign + (prefix + digits)), sign, prefix, digits);
  }

  lemma StoulOf(s: string, sign: string, prefix: string, digits: string)
    requires SkipSpaces(s) == sign + (prefix + digits) && sign in {"", "+", "-"} && prefix in {"", "0x", "0X"}
    requires digits != "" && HexValue(digits[0]) >= 0 && digits[0] != '+' && digits[0] != '-'
    requires prefix == "" && |digits| >= 3 && digits[0] == '0' && digits[1] in {'x', 'X'} ==> HexValue(digits[2]) < 0
    ensures var v := HexPrefix(digits, 0);
            Stoul(s) == Some(if sign == "-" && 0 < v < 0x1_0000_0000_0000_0000 then 0x1_0000_0000_0000_0000 - v else v)
  {
    hide HexPrefix, SkipSpaces, HexValue;
    var u := prefix + digits;
    if prefix == "" {
      assert u == digits;
    } else {
      assert u[2..] == digits && u[0] == '0' && u[1] == prefix[1] && u[2] == digits[0];
    }
    assert sign == "" ==> sign + u == u;
    assert sign != "" ==> (sign + u)[1..] == u && (sign + u)[0] == sign[0];
  }

  lemma NoDigits()
    ensures HexNumber([]) == 0 && HexText([]) == ""
  {
  }

  /** The first characters of a number: no blank, no sign, and no prefix `0x`. */
  lemma FirstDigits(hs: seq<Hex>, rest: string)
    requires hs != [] && AllHex(hs) && (rest == "" || !IsDigit(rest[0]))
    ensures var digits := HexText(hs) + rest;
            && digits != "" && HexValue(digits[0]) >= 0 && !IsSpace(digits[0]) && digits[0] != '+' && digits[0] != '-'
            && (|digits| >= 3 && digits[0] == '0' && digits[1] in {'x', 'X'} && HexValue(digits[2]) >= 0 ==>
              |hs| == 1 && hs[0].value == 0 && |rest| >= 2 && rest[0] in {'x', 'X'} && IsDigit(rest[1]))
            && !IsSpace('+') && !IsSpace('-') && !IsSpace('0')
  {
    HexCharValue(hs[0]);
    if |hs| > 1 {
      HexCharValue(hs[1]);
      assert HexText(hs)[1] == HexText(hs[1..])[0] == HexChar(hs[1]);
    } else {
      assert HexText(hs) == [HexChar(hs[0])];
      if |rest| >= 2 {
        DigitIs(rest[1]);
      }
    }
  }

  /** Without a digit after blanks and a sign the conversion throws. */
  lemma StoulThrows(blanks: string, sign: string, rest: string)
    requires White(blanks) && sign in {"", "+", "-"}
    requires rest == "" || !IsDigit(rest[0])
    requires sign == "" && rest != "" ==> !White([rest[0]]) && rest[0] !in {'+', '-'}
    ensures Stoul(blanks + (sign + rest)) == None
  {
    if rest != "" { DigitIs(rest[0]); }
    SpacesSkipped(blanks, sign + rest);
    assert sign == "" ==> sign + rest == rest;
    assert sign != "" ==> (sign + rest)[1..] == rest;
  }

  // ----- the pieces of a string -----

  /** A character that stands for itself, a short escape, a numeric escape, and a backslash that makes no escape. */
  datatype Piece = Plain(c: char) | Short(letter: char) | Numeric(digits: seq<Hex>) | Lone(c: char)

  ghost predicate Legal(p: Piece) {
    match p
    case Plain(c) => c != '"' && c != '\\'
    case Short(letter) => letter in {'n', 't', 'r', 'b', 'f', '"', '\\', '/'}
    case Numeric(digits) => |digits| == 4 && AllHex(digits)
    case Lone(c) => c !in {'n', 't', 'r', 'b', 'f', '"', '\\', '/', 'u'}
  }

  /** How the piece is written. */
  ghost function Written(p: Piece): string {
    match p
    case Plain(c) => [c]
    case Short(letter) => ['\\', letter]
    case Numeric(digits) => "\\u" + HexText(digits)
    case Lone(c) => ['\\', c]
  }

  /** What the piece stands for. A numeric escape beyond the ASCII range stands for nothing. */
  ghost function Meaning(p: Piece): string {
    match p
    case Plain(c) => [c]
    case Short(letter) =>
      if letter == 'n' then "\n" else if letter == 't' then "\t" else if letter == 'r' then "\r"
      else if letter == 'b' then "\U{8}" else if letter == 'f' then "\U{C}" else [letter]
    case Numeric(digits) => if HexNumber(digits) < 128 then [HexNumber(digits) as char] else ""
    case Lone(c) => ['\\', c]
  }

  ghost function AllWritten(ps: seq<Piece>): string {
    if ps == [] then "" else Written(ps[0]) + AllWritten(ps[1..])
  }

  ghost function AllMeant(ps: seq<Piece>): string {
    if ps == [] then "" else Meaning(ps[0]) + AllMeant(ps[1..])
  }

  ghost predicate AllLegal(ps: seq<Piece>) {
    forall k :: 0 <= k < |ps| ==> Legal(ps[k])
  }

  lemma NumericRead(json: string, i: nat, digits: seq<Hex>)
    requires |digits| == 4 && AllHex(digits) && StandsAt(json, i, "\\u" + HexText(digits))
    ensures i + 6 <= |json|
    ensures DecodeEscape(json, i) == Some((5, if HexNumber(digits) < 128 then [HexNumber(digits) as char] else ""))
  {
    hide Stoul, HexText, HexNumber;
    var w := "\\u" + HexText(digits);
    StandsChar(json, i, w, 1);
    StandsAtParts(json, i, "\\u", HexText(digits));
    var s := json[i + 2..i + 6];
    assert s == HexText(digits);
    assert White("");
    StoulReads("", "", "", digits, "");
    assert "" + ("" + ("" + (s + ""))) == s;
  }

  /** Between the escapes the backslashes before a position are even in number. */
  lemma ParityAfter(json: string, i: nat, p: Piece)
    requires Legal(p) && StandsAt(json, i, Written(p)) && BackslashRun(json, i) % 2 == 0
    ensures i + |Written(p)| <= |json| && BackslashRun(json, i + |Written(p)|) % 2 == 0
  {
    var w := Written(p);
    StandsChar(json, i, w, |w| - 1);
    match p
    case Plain(c) =>
    case Numeric(digits) =>
      HexCharValue(digits[3]);
      assert HexText(digits)[3] == HexText(digits[1..])[2] == HexText(digits[1..][1..])[1]
          == HexText(digits[1..][1..][1..])[0] == HexChar(digits[3]);
    case Short(letter) =>
      StandsChar(json, i, w, 0);
      assert BackslashRun(json, i + 1) == BackslashRun(json, i) + 1;
    case Lone(c) =>
  }

  /** One piece is decoded to its meaning. */
  lemma PieceRead(json: string, i: nat, p: Piece)
    requires Legal(p) && StandsAt(json, i, Written(p)) && BackslashRun(json, i) % 2 == 0
    requires i + |Written(p)| < |json|
    ensures Decode(json, i) == Prepend(Meaning(p), Decode(json, i + |Written(p)|))
  {
    hide Decode, StandsAt, BackslashRun;
    StandsChar(json, i, Written(p), 0);
    DecodeUnfold(json, i);
    match p
    case Plain(c) =>
    case Numeric(digits) => NumericRead(json, i, digits);
    case Short(letter) => StandsChar(json, i, Written(p), 1);
    case Lone(c) =>
      StandsChar(json, i, Written(p), 1);
      DecodeUnfold(json, i + 1);
      PrependTwice("\\", [c], Decode(json, i + 2));
      assert "\\" + [c] == ['\\', c];
  }

  /** Any string that is written in these pieces and closed by a quote is read as the pieces' meanings, wherever it
      stands and whatever follows. */
  lemma {:induction false} PiecesRead(json: string, i: nat, ps: seq<Piece>)
    requires AllLegal(ps) && StandsAt(json, i, AllWritten(ps) + "\"") && BackslashRun(json, i) % 2 == 0
    ensures Decode(json, i) == Some(AllMeant(ps))
    decreases |ps|
  {
    hide Decode, Legal, Written, Meaning, BackslashRun;
    if ps == [] {
      StandsChar(json, i, "\"", 0);
      DecodeUnfold(json, i);
    } else {
      var first, rest := Written(ps[0]), AllWritten(ps[1..]);
      assert AllWritten(ps) + "\"" == first + (rest + "\"");
      StandsAtParts(json, i, first, rest + "\"");
      StandsAtFits(json, i + |first|, rest + "\"");
      ParityAfter(json, i, ps[0]);
      PieceRead(json, i, ps[0]);
      PiecesRead(json, i + |first|, ps[1..]);
    }
  }

  /** A numeric escape that does not start with a number makes the whole reading throw. */
  lemma BadNumericThrows(json: string, i: nat)
    requires i + 5 < |json| && json[i] == '\\' && json[i + 1] == 'u' && Stoul(json[i + 2..i + 6]) == None
    ensures Decode(json, i) == None
  {
    hide Stoul;
  }

  /** Too near the end of the text a numeric escape is kept as it is. */
  lemma ShortNumericKept(json: string, i: nat)
    requires i + 1 < |json| <= i + 5 && json[i] == '\\' && json[i + 1] == 'u'
    ensures Decode(json, i) == Prepend("\\", Decode(json, i + 1))
  {
    hide Stoul;
  }

  // ----- the value of a key -----

  ghost predicate IsBlank(c: char) {
    c == ' ' || c == '\t' || c == '\n' || c == '\r'
  }

  lemma {:induction false} BlanksSkipped(json: string, i: nat, j: nat)
    requires i <= j <= |json| && (forall k :: i <= k < j ==> IsBlank(json[k])) && (j < |json| ==> !IsBlank(json[j]))
    ensures SkipWs(json, i) == j
    decreases j - i
  {
    if i < j {
      BlanksSkipped(json, i + 1, j);
    }
  }

  /** How a key is written. */
  ghost function Key(key: string): string {
    "\"" + key + "\":"
  }

  /** The key stands behind `before`, and nowhere earlier. */
  ghost predicate FirstKey(json: string, before: string, key: string) {
    before + Key(key) <= json && forall k :: 0 <= k < |before| ==> !OccursAt(json, Key(key), k)
  }

  lemma KeyFound(json: string, before: string, key: string)
    requires FirstKey(json, before, key)
    ensures Find(json, Needle(key), 0) == |before| && Needle(key) == Key(key)
  {
    assert json[|before|..|before| + |Key(key)|] == Key(key);
    FindIs(json, Key(key), 0, |before|);
  }

  /** Where the value of a key begins: behind the blanks after the colon. */
  lemma ValueAt(json: string, before: string, key: string, blanks: string, value: string)
    requires json == before + Key(key) + blanks + value && FirstKey(json, before, key)
    requires (forall k :: 0 <= k < |blanks| ==> IsBlank(blanks[k])) && (value != "" ==> !IsBlank(value[0]))
    ensures var pos := |before + Key(key) + blanks|; FindKeyValue(json, key) == pos && StandsAt(json, pos, value)
  {
    hide Find, Key, FirstKey, IsBlank, Needle;
    KeyFound(json, before, key);
    var start, pos := |before + Key(key)|, |before + Key(key) + blanks|;
    assert json[pos..pos + |value|] == value;
    forall k | start <= k < pos ensures IsBlank(json[k]) {
      assert json[k] == blanks[k - start];
    }
    assert value != "" ==> json[pos] == value[0];
    BlanksSkipped(json, start, pos);
  }

  /** A string value is read as its pieces mean, whatever follows it. */
  lemma StringField(json: string, before: string, key: string, blanks: string, ps: seq<Piece>, after: string)
    requires json == before + Key(key) + blanks + ("\"" + (AllWritten(ps) + ("\"" + after))) && AllLegal(ps)
    requires FirstKey(json, before, key) && forall k :: 0 <= k < |blanks| ==> IsBlank(blanks[k])
    ensures ExtractString(json, key) == Some(AllMeant(ps))
  {
    hide Find, Key, FirstKey, Decode, AllWritten, AllMeant, FindKeyValue, StandsAt, AllLegal;
    var pos := |before + Key(key) + blanks|;
    var value := "\"" + (AllWritten(ps) + ("\"" + after));
    ValueAt(json, before, key, blanks, value);
    StandsChar(json, pos, value, 0);
    StandsAtParts(json, pos, "\"", AllWritten(ps) + ("\"" + after));
    assert AllWritten(ps) + ("\"" + after) == (AllWritten(ps) + "\"") + after;
    StandsAtParts(json, pos + 1, AllWritten(ps) + "\"", after);
    PiecesRead(json, pos + 1, ps);
  }

  ghost predicate IsLiteral(s: string) {
    "null" <= s || "true" <= s || "false" <= s
  }

  lemma LiteralStands(json: string, pos: nat, s: string)
    requires pos <= |json| && json[pos..] == s
    ensures IsLiteral(s) <==> OccursAt(json, "null", pos) || OccursAt(json, "true", pos) || OccursAt(json, "false", pos)
  {
    PrefixOccurs(json, pos, s, "null");
    PrefixOccurs(json, pos, s, "true");
    PrefixOccurs(json, pos, s, "false");
  }

  lemma PrefixOccurs(json: string, pos: nat, s: string, t: string)
    requires pos <= |json| && json[pos..] == s
    ensures t <= s <==> OccursAt(json, t, pos)
  {
    if |t| <= |s| {
      assert json[pos..pos + |t|] == json[pos..][..|t|];
    }
  }

  lemma {:induction false} BareRead(json: string, i: nat, v: string)
    requires StandsAt(json, i, v) && ',' !in v && '}' !in v && ' ' !in v
    requires i + |v| < |json| ==> json[i + |v|] in {',', '}', ' '}
    ensures Bare(json, i) == v
    decreases |v|
  {
    if v != "" {
      StandsChar(json, i, v, 0);
      assert v == [v[0]] + v[1..];
      StandsAtParts(json, i, [v[0]], v[1..]);
      BareRead(json, i + 1, v[1..]);
    }
  }

  /** An unquoted value is read up to a comma, a brace or a blank; but `null`, `true` and `false` are no text. */
  lemma BareField(json: string, before: string, key: string, blanks: string, v: string, after: string)
    requires json == before + Key(key) + blanks + (v + after) && FirstKey(json, before, key)
    requires forall k :: 0 <= k < |blanks| ==> IsBlank(blanks[k])
    requires v != "" && v[0] != '"' && !IsBlank(v[0]) && ',' !in v && '}' !in v && ' ' !in v
    requires after != "" ==> after[0] in {',', '}', ' '}
    ensures ExtractString(json, key) == Some(if IsLiteral(v + after) then "" else v)
  {
    hide Find, Key, FirstKey, Decode, FindKeyValue, Bare, IsLiteral;
    var pos := |before + Key(key) + blanks|;
    ValueAt(json, before, key, blanks, v + after);
    StandsChar(json, pos, v + after, 0);
    assert json[pos..] == v + after;
    LiteralStands(json, pos, v + after);
    assert json[pos..pos + |v|] == v;
    BareRead(json, pos, v);
  }

  /** Without the key, or without a value behind it, the answer is the empty text. */
  lemma NoField(json: string, key: string)
    requires forall k: nat :: OccursAt(json, Key(key), k) ==>
               forall i :: k + |Key(key)| <= i < |json| ==> IsBlank(json[i])
    ensures ExtractString(json, key) == Some("")
  {
    hide Find, Decode, Bare, OccursAt;
    assert Needle(key) == Key(key);
    var pos := Find(json, Needle(key), 0);
    if pos >= 0 {
      var i := pos + |Needle(key)|;
      assert i <= |json| by { OccursFits(json, Needle(key), pos); }
      BlanksSkipped(json, i, |json|);
    }
  }

  lemma OccursFits(s: string, t: string, k: int)
    requires OccursAt(s, t, k)
    ensures k + |t| <= |s|
  {
  }

  // ----- the escaper writes JSON -----

  /** The piece that stands for a character without a backslash that makes no escape. */
  ghost function PieceOf(c: char): Piece {
    if c == '"' || c == '\\' then Short(c)
    else if c == '\n' then Short('n') else if c == '\r' then Short('r') else if c == '\t' then Short('t')
    else if c == '\U{8}' then Short('b') else if c == '\U{C}' then Short('f')
    else if c <= '\U{1F}' then
      Numeric([Hex(0, false), Hex(0, false), Hex(c as nat / 16, false), Hex(c as nat % 16, false)])
    else Plain(c)
  }

  ghost function PiecesOf(s: string): seq<Piece> {
    if s == "" then [] else [PieceOf(s[0])] + PiecesOf(s[1..])
  }

  lemma CharIsPiece(c: char)
    ensures Legal(PieceOf(c)) && Written(PieceOf(c)) == EscapeChar(c) && Meaning(PieceOf(c)) == [c]
    ensures forall k :: 0 <= k < |EscapeChar(c)| ==> EscapeChar(c)[k] >= ' '
  {
    hide HexText, HexNumber;
    if PieceOf(c).Numeric? {
      ControlPiece(c);
    }
  }

  lemma ControlPiece(c: char)
    requires PieceOf(c).Numeric?
    ensures Legal(PieceOf(c)) && Written(PieceOf(c)) == EscapeChar(c) && Meaning(PieceOf(c)) == [c]
    ensures forall k :: 0 <= k < |EscapeChar(c)| ==> EscapeChar(c)[k] >= ' '
  {
    hide HexText, HexNumber;
    var hi, lo := c as nat / 16, c as nat % 16;
    NumericPiece(hi, lo);
    assert EscapeChar(c) == "\\u00" + [HexDigit(hi), HexDigit(lo)];
    assert "\\u" + ("00" + [HexDigit(hi), HexDigit(lo)]) == EscapeChar(c);
  }

  lemma HexCons(h: Hex, hs: seq<Hex>)
    ensures HexText([h] + hs) == [HexChar(h)] + HexText(hs)
  {
    hide HexChar;
    assert ([h] + hs)[1..] == hs;
  }

  lemma HexSnoc(hs: seq<Hex>, h: Hex)
    ensures HexNumber(hs + [h]) == 16 * HexNumber(hs) + h.value
  {
    assert (hs + [h])[..|hs|] == hs;
  }

  lemma NumericPiece(hi: nat, lo: nat)
    requires hi < 2 && lo < 16
    ensures var hs := [Hex(0, false), Hex(0, false), Hex(hi, false), Hex(lo, false)];
            HexText(hs) == "00" + [HexDigit(hi), HexDigit(lo)] && HexNumber(hs) == 16 * hi + lo
  {
    hide HexText, HexNumber;
    var a, c, d := Hex(0, false), Hex(hi, false), Hex(lo, false);
    HexCons(d, []);
    HexCons(c, [d]);
    HexCons(a, [c, d]);
    HexCons(a, [a, c, d]);
    assert [d] + [] == [d] && [c] + [d] == [c, d] && [a] + [c, d] == [a, c, d] && [a] + [a, c, d] == [a, a, c, d];
    NoDigits();
    HexSnoc([], a);
    HexSnoc([a], a);
    HexSnoc([a, a], c);
    HexSnoc([a, a, c], d);
    assert [] + [a] == [a] && [a] + [a] == [a, a] && [a, a] + [c] == [a, a, c] && [a, a, c] + [d] == [a, a, c, d];
  }

  /** What the escaper writes is the inside of a JSON string: legal pieces that mean the text, and no control
      character. */
  lemma {:induction false} EscapedIsJson(s: string)
    ensures AllLegal(PiecesOf(s)) && AllWritten(PiecesOf(s)) == Escape(s) && AllMeant(PiecesOf(s)) == s
    ensures forall k :: 0 <= k < |Escape(s)| ==> Escape(s)[k] >= ' '
    decreases |s|
  {
    hide Legal, Written, Meaning, EscapeChar, PieceOf;
    if s != "" {
      var first, rest := PieceOf(s[0]), PiecesOf(s[1..]);
      CharIsPiece(s[0]);
      EscapedIsJson(s[1..]);
      assert ([first] + rest)[1..] == rest;
      assert s == [s[0]] + s[1..];
    }
  }
}
