/** Saving and loading a conversation (src/session/session.cpp). Loading does not parse the file: it searches for
    the text `"role"` and extracts the next role and content fields from there. */
module Session {
  import opened Json
  import opened Text
  import opened Wrappers

  datatype Message = Message(role: string, content: string)

  const ROLE := "\"role\""

  // ----- saving -----

  const HEAD := "  {\"role\":\""
  const MID := "\",\"content\":\""

  /** One message as it is written. */
  function Row(m: Message, last: bool): string {
    HEAD + (m.role + (MID + (Escape(m.content) + ("\"}" + (if last then "\n" else ",\n")))))
  }

  function Rows(msgs: seq<Message>): string {
    if msgs == [] then "" else Row(msgs[0], |msgs| == 1) + Rows(msgs[1..])
  }

  function Save(msgs: seq<Message>): string {
    "[\n" + (Rows(msgs) + "]\n")
  }

  method SaveSession(msgs: seq<Message>) returns (f: string)
    ensures f == Save(msgs)
  {
    hide Row;
    f := "[\n";
    for i := 0 to |msgs|
      invariant f + (Rows(msgs[i..]) + "]\n") == Save(msgs)
    {
      var row := Row(msgs[i], i + 1 == |msgs|);
      assert msgs[i..][1..] == msgs[i + 1..];
      assert f + (row + Rows(msgs[i + 1..]) + "]\n") == f + row + (Rows(msgs[i + 1..]) + "]\n");
      f := f + row;
    }
    assert Rows(msgs[|msgs|..]) == "";
    f := f + "]\n";
  }

  // ----- loading -----

  /** The message read at an occurrence of `"role"`; `None` is an exception. */
  function ReadAt(json: string, p: nat): Option<Message>
    requires p <= |json|
  {
    if p == 0 then None
    else
      match ExtractString(json[p - 1..], "role")
      case None => None
      case Some(role) =>
        match ExtractString(json[p - 1..], "content")
        case None => None
        case Some(content) => Some(Message(role, content))
  }

  /** The messages found from `pos` on. */
  function Load(json: string, pos: nat): Option<seq<Message>>
    decreases |json| - pos
  {
    var p := Find(json, ROLE, pos);
    if p < 0 then Some([])
    else
      match ReadAt(json, p)
      case None => None
      case Some(m) =>
        match Load(json, p + 6)
        case None => None
        case Some(rest) => Some(Pushed(m) + rest)
  }

  /** A message without a role is dropped. */
  function Pushed(m: Message): seq<Message> {
    if m.role == "" then [] else [Message(m.role, Unescape(m.content))]
  }

  method LoadSession(json: string) returns (r: Option<seq<Message>>)
    ensures r == Load(json, 0)
  {
    hide *;
    var msgs: seq<Message> := [];
    var pos := 0;
    AfterTwice([], [], Load(json, 0));
    while true
      invariant 0 <= pos <= |json|
      invariant Load(json, 0) == After(msgs, Load(json, pos))
      decreases |json| - pos
    {
      var p := Find(json, ROLE, pos);
      LoadStep(json, pos, msgs);
      if p < 0 { break; }
      match ReadAt(json, p) {
        case None => return None;
        case Some(m) =>
          if m.role != "" {
            msgs := msgs + [Message(m.role, Unescape(m.content))];
          }
      }
      pos := p + 6;
    }
    return Some(msgs);
  }

  lemma LoadStep(json: string, pos: nat, msgs: seq<Message>)
    ensures var p := Find(json, ROLE, pos);
            && (p < 0 ==> After(msgs, Load(json, pos)) == Some(msgs))
            && (p >= 0 ==> pos <= p && p + 6 <= |json|)
            && (p >= 0 && ReadAt(json, p).None? ==> After(msgs, Load(json, pos)) == None)
            && (p >= 0 && ReadAt(json, p).Some? ==>
                  var m := ReadAt(json, p).value;
                  After(msgs, Load(json, pos))
                  == After(if m.role == "" then msgs else msgs + [Message(m.role, Unescape(m.content))],
                           Load(json, p + 6)))
  {
    hide ReadAt, Unescape;
    var p := Find(json, ROLE, pos);
    AfterTwice(msgs, [], None);
    if p >= 0 && ReadAt(json, p).Some? {
      AfterTwice(msgs, Pushed(ReadAt(json, p).value), Load(json, p + 6));
    }
  }

  ghost function After(msgs: seq<Message>, r: Option<seq<Message>>): Option<seq<Message>> {
    match r
    case None => None
    case Some(rest) => Some(msgs + rest)
  }

  lemma AfterTwice(a: seq<Message>, b: seq<Message>, r: Option<seq<Message>>)
    ensures After(a, After(b, r)) == After(a + b, r) && After([], r) == r && a + [] == a
  {
    if r.Some? {
      assert a + (b + r.value) == a + b + r.value;
      assert [] + r.value == r.value;
    }
  }

  // ----- where things are in a row that starts at `o` -----

  function RoleClose(o: nat, m: Message): nat {
    o + 11 + |m.role|
  }

  function ContentOpen(o: nat, m: Message): nat {
    RoleClose(o, m) + 12
  }

  function ContentClose(o: nat, m: Message): nat {
    ContentOpen(o, m) + 1 + |Escape(m.content)|
  }

  function NextRow(o: nat, m: Message, last: bool): nat {
    ContentClose(o, m) + (if last then 3 else 4)
  }

  /** A letter that makes an escape after a backslash. */
  predicate EscapeLetter(c: char) {
    Unescaped(c).Some? || c == 'u'
  }

  /** A text that the decoder gives back although it is written without escaping: it holds no quote, and every
      backslash is followed by a character with which it makes no escape. */
  predicate Kept(s: string) {
    forall i: nat :: i < |s| ==> KeptAt(s, i)
  }

  predicate KeptAt(s: string, i: nat)
    requires i < |s|
  {
    s[i] != '"' && (s[i] == '\\' ==> i + 1 < |s| && !EscapeLetter(s[i + 1]))
  }

  lemma KeptAtTail(s: string, i: nat)
    requires i + 1 < |s|
    ensures KeptAt(s[1..], i) <==> KeptAt(s, i + 1)
  {
    assert s[1..][i] == s[i + 1];
    if i + 2 < |s| {
      assert s[1..][i + 1] == s[i + 2];
    }
  }

  lemma KeptTail(s: string)
    requires s != ""
    ensures Kept(s) <==> s[0] != '"' && (s[0] == '\\' ==> |s| > 1 && !EscapeLetter(s[1])) && Kept(s[1..])
  {
    var t := s[1..];
    assert KeptAt(s, 0) <==> s[0] != '"' && (s[0] == '\\' ==> |s| > 1 && !EscapeLetter(s[1]));
    forall i: nat | i < |t| ensures KeptAt(t, i) <==> KeptAt(s, i + 1) {
      KeptAtTail(s, i);
    }
    if Kept(s) {
      assert Kept(t);
    } else if KeptAt(s, 0) {
      var i: nat :| i < |s| && !KeptAt(s, i);
      assert !KeptAt(t, i - 1);
    }
  }

  /** A role that comes back. */
  predicate PlainRole(role: string) {
    role != "" && Kept(role)
  }

  ghost predicate RowAt(json: string, o: nat, m: Message, last: bool) {
    PlainRole(m.role) && StandsAt(json, o, Row(m, last))
  }

  lemma RowParts(json: string, o: nat, m: Message, last: bool)
    requires StandsAt(json, o, Row(m, last))
    ensures StandsAt(json, o, HEAD) && StandsAt(json, o + 11, m.role) && StandsAt(json, RoleClose(o, m), MID)
    ensures StandsAt(json, ContentOpen(o, m) + 1, Escape(m.content)) && StandsAt(json, ContentClose(o, m), "\"}")
    ensures StandsAt(json, ContentClose(o, m) + 2, if last then "\n" else ",\n")
    ensures NextRow(o, m, last) == o + |Row(m, last)| <= |json|
  {
    hide Escape, StandsAt;
    var s5 := if last then "\n" else ",\n";
    var s4 := "\"}" + s5;
    var s3 := Escape(m.content) + s4;
    var s2 := MID + s3;
    var s1 := m.role + s2;
    StandsAtParts(json, o, HEAD, s1);
    StandsAtParts(json, o + 11, m.role, s2);
    StandsAtParts(json, RoleClose(o, m), MID, s3);
    StandsAtParts(json, ContentOpen(o, m) + 1, Escape(m.content), s4);
    StandsAtParts(json, ContentClose(o, m), "\"}", s5);
    StandsAtFits(json, o, Row(m, last));
  }

  lemma QuoteIsEscaped(c: char, k: nat)
    requires k < |EscapeChar(c)| && EscapeChar(c)[k] == '"'
    ensures k > 0 && EscapeChar(c)[k - 1] == '\\'
  {
  }

  /** Every quote of an escaped text follows a backslash. */
  lemma {:induction false} QuotesAreEscaped(s: string, k: nat)
    requires k < |Escape(s)| && Escape(s)[k] == '"'
    ensures k > 0 && Escape(s)[k - 1] == '\\'
    decreases |s|
  {
    hide EscapeChar;
    var e, rest := EscapeChar(s[0]), Escape(s[1..]);
    if k >= |e| {
      assert rest[k - |e|] == (e + rest)[k];
      QuotesAreEscaped(s[1..], k - |e|);
      assert rest[k - |e| - 1] == (e + rest)[k - 1];
    } else {
      QuoteIsEscaped(s[0], k);
    }
  }

  lemma RoleHasNoQuote(json: string, o: nat, m: Message, last: bool, k: nat)
    requires RowAt(json, o, m, last) && o + 11 <= k < RoleClose(o, m)
    ensures k < |json| && json[k] != '"'
  {
    hide Row;
    RowParts(json, o, m, last);
    StandsAtChars(json, o + 11, m.role);
    assert json[k] == json[o + 11 + (k - o - 11)] == m.role[k - o - 11];
    assert KeptAt(m.role, k - o - 11);
  }

  lemma QuotesOfRow(json: string, o: nat, m: Message, last: bool, k: nat)
    requires RowAt(json, o, m, last) && o <= k < NextRow(o, m, last) && json[k] == '"'
    ensures var rc, co, cc := RoleClose(o, m), ContentOpen(o, m), ContentClose(o, m);
            || k in {o + 3, o + 8, o + 10, rc, rc + 2, rc + 10, co, cc}
            || (co < k < cc && json[k - 1] == '\\')
  {
    AnyQuoteOfRow(json, o, m, last, k);
    hide Escape, Row, StandsAt, Kept;
    if o + 11 <= k < RoleClose(o, m) {
      RoleHasNoQuote(json, o, m, last, k);
    }
  }

  /** The quotes of a row, apart from those inside the content, which follow a backslash, and inside the role. */
  lemma AnyQuoteOfRow(json: string, o: nat, m: Message, last: bool, k: nat)
    requires StandsAt(json, o, Row(m, last)) && o <= k < NextRow(o, m, last) <= |json| && json[k] == '"'
    ensures var rc, co, cc := RoleClose(o, m), ContentOpen(o, m), ContentClose(o, m);
            || k in {o + 3, o + 8, o + 10, rc, rc + 2, rc + 10, co, cc} || o + 11 <= k < rc
            || (co < k < cc && json[k - 1] == '\\')
  {
    hide Escape, Row, StandsAt;
    RowParts(json, o, m, last);
    var rc, co, cc := RoleClose(o, m), ContentOpen(o, m), ContentClose(o, m);
    if k < o + 11 {
      StandsChar(json, o, HEAD, k - o);
    } else if k < rc {
    } else if k < co + 1 {
      StandsChar(json, rc, MID, k - rc);
    } else if k < cc {
      StandsChar(json, co + 1, Escape(m.content), k - co - 1);
      QuotesAreEscaped(m.content, k - co - 1);
      StandsChar(json, co + 1, Escape(m.content), k - 1 - co - 1);
    } else if k > cc {
      RowEnd(json, o, m, last, k);
    }
  }

  lemma RowEnd(json: string, o: nat, m: Message, last: bool, k: nat)
    requires StandsAt(json, o, Row(m, last)) && ContentClose(o, m) < k < NextRow(o, m, last)
    ensures json[k] != '"'
  {
    hide Escape, Row;
    RowParts(json, o, m, last);
    var cc := ContentClose(o, m);
    StandsAtChars(json, cc, "\"}");
    StandsAtChars(json, cc + 2, if last then "\n" else ",\n");
    assert json[cc + 1] == '}' && json[cc + 2 + 0] != '"' && (!last ==> json[cc + 2 + 1] == '\n');
  }

  /** The characters around the quotes of a row. */
  lemma RowChars(json: string, o: nat, m: Message, last: bool)
    requires StandsAt(json, o, Row(m, last))
    ensures NextRow(o, m, last) <= |json|
    ensures var rc, co, cc := RoleClose(o, m), ContentOpen(o, m), ContentClose(o, m);
            && json[o + 2] == '{' && OccursAt(json, Needle("role"), o + 3) && OccursAt(json, ROLE, o + 3)
            && json[o + 9] == ':' && json[o + 10] == '"' && json[o + 11..rc] == m.role
            && json[rc] == '"' && json[rc + 1] == ',' && json[rc + 3] == 'c'
            && OccursAt(json, Needle("content"), rc + 2)
            && json[rc + 10] == '"' && json[rc + 11] == ':' && json[co] == '"'
            && json[co + 1..cc] == Escape(m.content) && json[cc] == '"' && json[cc + 1] == '}'
  {
    hide Row, Escape, OccursAt, StandsAt;
    RowParts(json, o, m, last);
    HeadChars(json, o);
    MidChars(json, RoleClose(o, m));
    var cc := ContentClose(o, m);
    StandsChar(json, cc, "\"}", 0);
    StandsChar(json, cc, "\"}", 1);
    StandsSlice(json, o + 11, m.role);
    StandsSlice(json, ContentOpen(o, m) + 1, Escape(m.content));
  }

  lemma StandsSlice(json: string, i: nat, t: string)
    requires StandsAt(json, i, t)
    ensures i + |t| <= |json| && json[i..i + |t|] == t
  {
  }

  lemma HeadChars(json: string, o: nat)
    requires StandsAt(json, o, HEAD)
    ensures o + 11 <= |json| && json[o + 2] == '{' && json[o + 9] == ':' && json[o + 10] == '"'
    ensures OccursAt(json, Needle("role"), o + 3) && OccursAt(json, ROLE, o + 3)
  {
    StandsChar(json, o, HEAD, 2);
    StandsChar(json, o, HEAD, 9);
    StandsChar(json, o, HEAD, 10);
    assert HEAD == "  {" + (Needle("role") + "\"") && HEAD == "  {" + (ROLE + ":\"");
    StandsInside(json, o, "  {", Needle("role"), "\"");
    StandsInside(json, o, "  {", ROLE, ":\"");
  }

  lemma MidChars(json: string, rc: nat)
    requires StandsAt(json, rc, MID)
    ensures rc + 13 <= |json| && json[rc] == '"' && json[rc + 1] == ',' && json[rc + 3] == 'c'
    ensures json[rc + 10] == '"' && json[rc + 11] == ':' && json[rc + 12] == '"'
    ensures OccursAt(json, Needle("content"), rc + 2)
  {
    StandsChar(json, rc, MID, 0);
    StandsChar(json, rc, MID, 1);
    StandsChar(json, rc, MID, 3);
    StandsChar(json, rc, MID, 10);
    StandsChar(json, rc, MID, 11);
    StandsChar(json, rc, MID, 12);
    assert MID == "\"," + (Needle("content") + "\"");
    StandsInside(json, rc, "\",", Needle("content"), "\"");
  }

  /** What stands inside a longer text occurs there. */
  lemma StandsInside(json: string, i: nat, a: string, b: string, c: string)
    requires StandsAt(json, i, a + (b + c))
    ensures OccursAt(json, b, i + |a|)
  {
    hide OccursAt;
    StandsAtParts(json, i, a, b + c);
    StandsAtParts(json, i + |a|, b, c);
    StandsIsOccurs(json, i + |a|, b);
  }

  // ----- the occurrences of `"role"` -----

  /** The text is `role`, or ends in `role` after a quote. */
  predicate EndsInRole(s: string) {
    s == "role" || (|s| >= 5 && s[|s| - 5..] == "\"role")
  }

  /** A string occurrence that starts with a quote, goes on with letters and ends in a quote. */
  lemma RoleChars(json: string, k: nat)
    requires OccursAt(json, ROLE, k)
    ensures k + 6 <= |json| && json[k] == '"' && json[k + 1] == 'r' && json[k + 2] == 'o'
    ensures json[k + 3] == 'l' && json[k + 4] == 'e' && json[k + 5] == '"'
  {
    OccursChars(json, ROLE, k);
    assert json[k + 0] == '"' && json[k + 1] == 'r' && json[k + 2] == 'o' && json[k + 3] == 'l' && json[k + 4] == 'e';
  }

  lemma RoleFromChars(json: string, k: nat)
    requires k + 6 <= |json| && json[k] == '"' && json[k + 1] == 'r' && json[k + 2] == 'o'
    requires json[k + 3] == 'l' && json[k + 4] == 'e' && json[k + 5] == '"'
    ensures OccursAt(json, ROLE, k)
  {
    assert json[k..k + 6] == ROLE;
  }

  /** `"role"` occurs in a row as the key, as a role value, and at the end of a content, nowhere else. */
  lemma RoleOccurrences(json: string, o: nat, m: Message, last: bool, k: nat)
    requires RowAt(json, o, m, last) && o <= k < NextRow(o, m, last) && OccursAt(json, ROLE, k)
    ensures var cc := ContentClose(o, m);
            || k == o + 3
            || (k == o + 10 && m.role == "role")
            || (k == cc - 5 && k >= ContentOpen(o, m) && EndsInRole(Escape(m.content)))
  {
    hide Row, Escape, OccursAt;
    RowChars(json, o, m, last);
    RoleChars(json, k);
    QuotesOfRow(json, o, m, last, k);
    var rc, co, cc := RoleClose(o, m), ContentOpen(o, m), ContentClose(o, m);
    if k == o + 10 {
      RoleValue(json, o, m, last);
    } else if co <= k < cc {
      RoleInContent(json, o, m, last, k);
    }
  }

  /** A role value that reads as `"role"` is the role `role`. */
  lemma RoleValue(json: string, o: nat, m: Message, last: bool)
    requires RowAt(json, o, m, last) && OccursAt(json, ROLE, o + 10)
    ensures m.role == "role"
  {
    hide Row, Escape, OccursAt;
    RowChars(json, o, m, last);
    RoleChars(json, o + 10);
    var rc := RoleClose(o, m);
    if rc > o + 15 {
      RoleHasNoQuote(json, o, m, last, o + 15);
    } else {
      assert rc == o + 15;
      assert json[o + 11..o + 15] == ['r', 'o', 'l', 'e'] == "role";
    }
  }

  lemma RoleInContent(json: string, o: nat, m: Message, last: bool, k: nat)
    requires RowAt(json, o, m, last) && OccursAt(json, ROLE, k) && ContentOpen(o, m) <= k < ContentClose(o, m)
    ensures k == ContentClose(o, m) - 5 && EndsInRole(Escape(m.content))
  {
    hide Row, Escape, OccursAt;
    RowChars(json, o, m, last);
    RoleChars(json, k);
    var co, cc := ContentOpen(o, m), ContentClose(o, m);
    var e := Escape(m.content);
    if k + 5 < cc {
      QuotesOfRow(json, o, m, last, k + 5);
    }
    assert k + 5 == cc;
    assert e == json[co + 1..cc];
    if k == co {
      assert e == [json[k + 1], json[k + 2], json[k + 3], json[k + 4]] == "role";
    } else {
      assert e[|e| - 5..] == [json[k], json[k + 1], json[k + 2], json[k + 3], json[k + 4]] == "\"role";
    }
  }

  /** The other way round: those places do read `"role"`. */
  lemma RoleOccurs(json: string, o: nat, m: Message, last: bool)
    requires RowAt(json, o, m, last)
    ensures m.role == "role" ==> OccursAt(json, ROLE, o + 10)
    ensures EndsInRole(Escape(m.content)) ==>
              ContentOpen(o, m) <= ContentClose(o, m) - 5 && OccursAt(json, ROLE, ContentClose(o, m) - 5)
  {
    hide Row, Escape, OccursAt;
    RowChars(json, o, m, last);
    var rc, co, cc := RoleClose(o, m), ContentOpen(o, m), ContentClose(o, m);
    if m.role == "role" {
      var r := json[o + 11..rc];
      assert r[0] == 'r' && r[1] == 'o' && r[2] == 'l' && r[3] == 'e';
      RoleFromChars(json, o + 10);
    }
    if EndsInRole(Escape(m.content)) {
      ContentEnd(json, co, cc, Escape(m.content));
    }
  }

  lemma RoleEnd(e: string)
    requires EndsInRole(e)
    ensures |e| >= 4 && e[|e| - 4] == 'r' && e[|e| - 3] == 'o' && e[|e| - 2] == 'l' && e[|e| - 1] == 'e'
    ensures |e| > 4 ==> e[|e| - 5] == '"'
  {
    if |e| > 4 {
      var t := e[|e| - 5..];
      assert e[|e| - 5] == t[0] && e[|e| - 4] == t[1] && e[|e| - 3] == t[2] && e[|e| - 2] == t[3] && e[|e| - 1] == t[4];
    }
  }

  lemma ContentEnd(json: string, co: nat, cc: nat, e: string)
    requires co < cc < |json| && json[co] == '"' && json[cc] == '"' && e == json[co + 1..cc] && EndsInRole(e)
    ensures co <= cc - 5 && OccursAt(json, ROLE, cc - 5)
  {
    hide OccursAt, EndsInRole;
    RoleEnd(e);
    var at := co + 1 + |e| - 4;
    assert json[at] == e[|e| - 4] && json[at + 1] == e[|e| - 3] && json[at + 2] == e[|e| - 2]
           && json[at + 3] == e[|e| - 1];
    if |e| > 4 {
      assert json[at - 1] == e[|e| - 5];
    }
    RoleFromChars(json, cc - 5);
  }

  // ----- the occurrences of the keys -----

  lemma NeedleRoleIsRole(json: string, k: nat)
    requires OccursAt(json, Needle("role"), k)
    ensures OccursAt(json, ROLE, k) && k + 6 < |json| && json[k + 6] == ':'
  {
    assert json[k..k + 7][..6] == json[k..k + 6];
    assert json[k..k + 7][6] == json[k + 6];
  }

  /** The key `"role":` occurs once in a row. */
  lemma RoleKeyOccurrences(json: string, o: nat, m: Message, last: bool, k: nat)
    requires RowAt(json, o, m, last) && o <= k < NextRow(o, m, last) && OccursAt(json, Needle("role"), k)
    ensures k == o + 3
  {
    hide Row, Escape, OccursAt;
    NeedleRoleIsRole(json, k);
    RowChars(json, o, m, last);
    RoleOccurrences(json, o, m, last, k);
  }

  lemma ContentChars(json: string, k: nat)
    requires OccursAt(json, Needle("content"), k)
    ensures k + 10 <= |json| && json[k] == '"' && json[k + 1] == 'c' && json[k + 7] == 't'
    ensures json[k + 8] == '"' && json[k + 9] == ':'
    ensures forall j :: k < j < k + 8 ==> json[j] != '"'
  {
    OccursChars(json, Needle("content"), k);
    forall j | k < j < k + 8 ensures json[j] != '"' {
      assert json[k + (j - k)] == Needle("content")[j - k] == "content"[j - k - 1];
    }
    assert json[k + 0] == '"' && json[k + 1] == 'c' && json[k + 7] == 't' && json[k + 8] == '"' && json[k + 9] == ':';
  }

  /** The key `"content":` occurs once in a row. */
  lemma ContentKeyOccurrences(json: string, o: nat, m: Message, last: bool, k: nat)
    requires RowAt(json, o, m, last) && o <= k < NextRow(o, m, last) && OccursAt(json, Needle("content"), k)
    ensures k == RoleClose(o, m) + 2
  {
    hide Row, Escape, OccursAt;
    RowChars(json, o, m, last);
    ContentChars(json, k);
    QuotesOfRow(json, o, m, last, k);
    var rc, co, cc := RoleClose(o, m), ContentOpen(o, m), ContentClose(o, m);
    if k == o + 3 {
      StartOfKey(json, o, m, last);
    } else if k == o + 10 {
      if k + 8 < rc {
        RoleHasNoQuote(json, o, m, last, k + 8);
      }
    } else if co <= k < cc {
      if k + 8 < cc {
        QuotesOfRow(json, o, m, last, k + 8);
      }
    }
  }

  lemma StartOfKey(json: string, o: nat, m: Message, last: bool)
    requires RowAt(json, o, m, last)
    ensures o + 11 <= |json| && json[o + 4] == 'r'
  {
    hide Row;
    RowParts(json, o, m, last);
    StandsAtChars(json, o, HEAD);
    assert json[o + 4] == HEAD[4];
  }

  // ----- searching from a position -----

  ghost predicate Absent(json: string, t: string, from: nat, to: nat) {
    forall k :: from <= k < to ==> !OccursAt(json, t, k)
  }

  lemma OccursInSuffix(json: string, t: string, q: nat, k: nat)
    requires q <= |json|
    ensures OccursAt(json[q..], t, k) <==> OccursAt(json, t, q + k)
  {
    if q + k + |t| <= |json| {
      assert json[q..][k..k + |t|] == json[q + k..q + k + |t|];
    }
  }

  lemma FindFrom(json: string, t: string, q: nat, r: nat)
    requires q <= r && OccursAt(json, t, r) && Absent(json, t, q, r)
    ensures Find(json[q..], t, 0) == r - q && Find(json, t, q) == r
  {
    OccursInSuffix(json, t, q, r - q);
    forall k: nat | k < r - q ensures !OccursAt(json[q..], t, k) {
      OccursInSuffix(json, t, q, k);
    }
    FindIs(json[q..], t, 0, r - q);
    FindIs(json, t, q, r);
  }

  lemma FindNone(json: string, t: string, q: nat)
    requires q <= |json| && Absent(json, t, q, |json| + 1)
    ensures Find(json[q..], t, 0) == -1 && Find(json, t, q) == -1
  {
    forall k: nat ensures !OccursAt(json[q..], t, k) {
      OccursInSuffix(json, t, q, k);
      if q + k > |json| {
        assert |json[q..]| < k;
      }
    }
  }

  /** A field found from `q` on reads back the string it was written from. */
  lemma ExtractEscaped(json: string, q: nat, p: nat, key: string, s: string)
    requires q <= p && OccursAt(json, Needle(key), p) && Absent(json, Needle(key), q, p)
    requires var n := p + |Needle(key)|;
             StandsAt(json, n, "\"" + (Escape(s) + "\""))
    ensures ExtractString(json[q..], key) == Some(s)
  {
    hide Escape, OccursAt, Decode;
    var t, n := json[q..], p + |Needle(key)| - q;
    FindFrom(json, Needle(key), q, p);
    StandsAtParts(json, q + n, "\"", Escape(s) + "\"");
    StandsAtChars(json, q + n, "\"");
    assert json[q + n + 0] == '"';
    assert t[n] == '"';
    assert json[q + n + 1..q + n + 1 + |Escape(s) + "\""|] == t[n + 1..n + 1 + |Escape(s) + "\""|];
    assert BackslashRun(t, n + 1) == 0;
    DecodeInvertsEscape(t, n + 1, s);
  }

  /** The same for a value that was written as it is. */
  lemma ExtractPlain(json: string, q: nat, p: nat, key: string, s: string)
    requires q <= p && OccursAt(json, Needle(key), p) && Absent(json, Needle(key), q, p)
    requires Kept(s)
    requires var n := p + |Needle(key)|;
             StandsAt(json, n, "\"" + (s + "\""))
    ensures ExtractString(json[q..], key) == Some(s)
  {
    hide OccursAt, Decode;
    var t, n := json[q..], p + |Needle(key)| - q;
    FindFrom(json, Needle(key), q, p);
    StandsAtParts(json, q + n, "\"", s + "\"");
    StandsAtChars(json, q + n, "\"");
    assert json[q + n + 0] == '"';
    assert t[n] == '"';
    assert json[q + n + 1..q + n + 1 + |s + "\""|] == t[n + 1..n + 1 + |s + "\""|];
    DecodePlain(t, n + 1, s);
  }

  lemma {:induction false} DecodePlain(t: string, i: nat, s: string)
    requires StandsAt(t, i, s + "\"") && Kept(s) && (s == "" ==> BackslashRun(t, i) == 0)
    ensures Decode(t, i) == Some(s)
    decreases |s|
  {
    StandsAtChars(t, i, s + "\"");
    assert t[i + 0] == (s + "\"")[0];
    if s != "" {
      KeptTail(s);
      if s[0] == '\\' {
        assert t[i + 1] == (s + "\"")[1];
      }
      assert s + "\"" == [s[0]] + (s[1..] + "\"");
      StandsAtParts(t, i, [s[0]], s[1..] + "\"");
      DecodePlain(t, i + 1, s[1..]);
      assert s == [s[0]] + s[1..];
    }
  }

  lemma ExtractNothing(json: string, q: nat, key: string)
    requires q <= |json| && Absent(json, Needle(key), q, |json| + 1)
    ensures ExtractString(json[q..], key) == Some("")
  {
    FindNone(json, Needle(key), q);
  }

  // ----- rows in a file -----

  /** From `o` on the file holds the rows of `msgs` and its last line. */
  ghost predicate RowsFrom(json: string, o: nat, msgs: seq<Message>) {
    0 < o <= |json| && json[o..] == Rows(msgs) + "]\n"
  }

  lemma FirstOfRows(json: string, o: nat, msgs: seq<Message>)
    requires RowsFrom(json, o, msgs) && msgs != []
    ensures StandsAt(json, o, Row(msgs[0], |msgs| == 1))
    ensures RowsFrom(json, NextRow(o, msgs[0], |msgs| == 1), msgs[1..])
  {
    hide Row, StandsAt, NextRow;
    var m, last := msgs[0], |msgs| == 1;
    CutRow(json, o, Row(m, last), Rows(msgs[1..]), "]\n");
    RowParts(json, o, m, last);
  }

  /** The same, with roles that come back. */
  ghost predicate FileFrom(json: string, o: nat, msgs: seq<Message>) {
    && RowsFrom(json, o, msgs)
    && forall i :: 0 <= i < |msgs| ==> PlainRole(msgs[i].role)
  }

  lemma FirstRow(json: string, o: nat, msgs: seq<Message>)
    requires FileFrom(json, o, msgs) && msgs != []
    ensures RowAt(json, o, msgs[0], |msgs| == 1) && StandsAt(json, o, Row(msgs[0], |msgs| == 1))
    ensures FileFrom(json, NextRow(o, msgs[0], |msgs| == 1), msgs[1..])
  {
    hide Row, Kept, StandsAt, NextRow, RowsFrom;
    FirstOfRows(json, o, msgs);
    assert PlainRole(msgs[0].role);
    forall i | 0 <= i < |msgs[1..]| ensures PlainRole(msgs[1..][i].role) {
      assert msgs[1..][i] == msgs[i + 1];
    }
  }

  lemma CutRow(json: string, o: nat, row: string, rows: string, end: string)
    requires o <= |json| && json[o..] == row + rows + end
    ensures StandsAt(json, o, row) && o + |row| <= |json| && json[o + |row|..] == rows + end
  {
    var rest := rows + end;
    assert json[o..] == row + rest;
    assert json[o..o + |row|] == json[o..][..|row|] == row;
    assert json[o + |row|..] == json[o..][|row|..] == rest;
  }

  /** After the last row there is no quote. */
  lemma LastLine(json: string, o: nat, t: string)
    requires FileFrom(json, o, []) && t != "" && t[0] == '"'
    ensures Absent(json, t, o, |json| + 1)
  {
    assert json[o..] == "]\n";
    forall k | o <= k < |json| + 1 ensures !OccursAt(json, t, k) {
      if k < |json| {
        assert json[k] == json[o..][k - o];
        Mismatch(json, t, k, 0);
      }
    }
  }

  lemma AbsentJoin(json: string, t: string, a: nat, b: nat, c: nat)
    requires Absent(json, t, a, b) && Absent(json, t, b, c)
    ensures Absent(json, t, a, c)
  {
  }

  lemma KeysAbsent(json: string, o: nat, m: Message, last: bool, a: nat, b: nat)
    requires RowAt(json, o, m, last) && o <= a && b <= NextRow(o, m, last)
    ensures a > o + 3 || b <= o + 3 ==> Absent(json, Needle("role"), a, b)
    ensures a > RoleClose(o, m) + 2 || b <= RoleClose(o, m) + 2 ==> Absent(json, Needle("content"), a, b)
  {
    hide Row, Escape, OccursAt;
    forall k | a <= k < b && OccursAt(json, Needle("role"), k) ensures k == o + 3 {
      RoleKeyOccurrences(json, o, m, last, k);
    }
    forall k | a <= k < b && OccursAt(json, Needle("content"), k) ensures k == RoleClose(o, m) + 2 {
      ContentKeyOccurrences(json, o, m, last, k);
    }
  }

  // ----- what is extracted -----

  lemma RowFields(json: string, o: nat, m: Message, last: bool)
    requires RowAt(json, o, m, last)
    ensures OccursAt(json, Needle("role"), o + 3) && StandsAt(json, o + 10, "\"" + (m.role + "\""))
    ensures OccursAt(json, Needle("content"), RoleClose(o, m) + 2)
    ensures StandsAt(json, ContentOpen(o, m), "\"" + (Escape(m.content) + "\""))
  {
    hide Row, Escape;
    RowChars(json, o, m, last);
    var rc, co, cc := RoleClose(o, m), ContentOpen(o, m), ContentClose(o, m);
    hide OccursAt, StandsAt;
    InQuotes(json, o + 10, m.role);
    InQuotes(json, co, Escape(m.content));
  }

  lemma InQuotes(json: string, a: nat, s: string)
    requires a + 1 + |s| < |json| && json[a] == '"' && json[a + 1 + |s|] == '"' && json[a + 1..a + 1 + |s|] == s
    ensures StandsAt(json, a, "\"" + (s + "\""))
  {
    var z := a + 1 + |s|;
    assert json[a..z + 1] == [json[a]] + (json[a + 1..z] + [json[z]]);
  }

  /** Extracting from a point before the rows that no key follows gives the fields of the first row. */
  lemma NextFields(json: string, q: nat, o: nat, msgs: seq<Message>)
    requires FileFrom(json, o, msgs) && q <= o
    ensures Absent(json, Needle("role"), q, o) ==>
              ExtractString(json[q..], "role") == Some(if msgs == [] then "" else msgs[0].role)
    ensures Absent(json, Needle("content"), q, o) ==>
              ExtractString(json[q..], "content") == Some(if msgs == [] then "" else msgs[0].content)
  {
    hide Row, Rows, Escape, OccursAt, Absent, ExtractString;
    if msgs == [] {
      LastLine(json, o, Needle("role"));
      LastLine(json, o, Needle("content"));
      if Absent(json, Needle("role"), q, o) {
        AbsentJoin(json, Needle("role"), q, o, |json| + 1);
        ExtractNothing(json, q, "role");
      }
      if Absent(json, Needle("content"), q, o) {
        AbsentJoin(json, Needle("content"), q, o, |json| + 1);
        ExtractNothing(json, q, "content");
      }
    } else {
      var m, last := msgs[0], |msgs| == 1;
      FirstRow(json, o, msgs);
      RowFields(json, o, m, last);
      if Absent(json, Needle("role"), q, o) {
        KeysAbsent(json, o, m, last, o, o + 3);
        AbsentJoin(json, Needle("role"), q, o, o + 3);
        ExtractPlain(json, q, o + 3, "role", m.role);
      }
      if Absent(json, Needle("content"), q, o) {
        var p := RoleClose(o, m) + 2;
        RowParts(json, o, m, last);
        KeysAbsent(json, o, m, last, o, p);
        AbsentJoin(json, Needle("content"), q, o, p);
        ExtractEscaped(json, q, p, "content", m.content);
      }
    }
  }

  lemma RoleIsPlain(json: string, o: nat, m: Message, last: bool)
    requires RowAt(json, o, m, last)
    ensures Kept(m.role)
  {
    hide Row, StandsAt, Kept;
  }

  lemma RowLength(o: nat, m: Message, last: bool)
    ensures o + 3 <= RoleClose(o, m) + 2 <= NextRow(o, m, last)
    ensures RoleClose(o, m) + 2 + |Needle("content")| == ContentOpen(o, m) && |Needle("role")| == 7
  {
  }

  lemma ReadAtIs(json: string, p: nat, m: Message)
    requires 0 < p <= |json|
    requires ExtractString(json[p - 1..], "role") == Some(m.role)
    requires ExtractString(json[p - 1..], "content") == Some(m.content)
    ensures ReadAt(json, p) == Some(m)
  {
    hide ExtractString;
  }

  /** Reading at the key of a row gives the row's message. */
  lemma ReadAtKey(json: string, o: nat, msgs: seq<Message>)
    requires FileFrom(json, o, msgs) && msgs != []
    ensures ReadAt(json, o + 3) == Some(msgs[0])
  {
    hide *;
    FirstRow(json, o, msgs);
    assert o + 3 <= NextRow(o, msgs[0], |msgs| == 1) <= |json| by {
      RowParts(json, o, msgs[0], |msgs| == 1);
      RowLength(o, msgs[0], |msgs| == 1);
    }
    RowLength(o, msgs[0], |msgs| == 1);
    var m, last := msgs[0], |msgs| == 1;
    RowFields(json, o, m, last);
    RowParts(json, o, m, last);
    var p := RoleClose(o, m) + 2;
    KeysAbsent(json, o, m, last, o + 2, o + 3);
    RoleIsPlain(json, o, m, last);
    ExtractPlain(json, o + 2, o + 3, "role", m.role);
    KeysAbsent(json, o, m, last, o + 2, p);
    ExtractEscaped(json, o + 2, p, "content", m.content);
    ReadAtIs(json, o + 3, m);
  }

  ghost function RoleOfNext(msgs: seq<Message>): string {
    if |msgs| > 1 then msgs[1].role else ""
  }

  /** Reading at a role value `role` gives the next row's role and this row's content. */
  lemma ReadAtRoleValue(json: string, o: nat, msgs: seq<Message>)
    requires FileFrom(json, o, msgs) && msgs != []
    ensures ReadAt(json, o + 10) == Some(Message(RoleOfNext(msgs), msgs[0].content))
  {
    hide Row, Rows, Escape, OccursAt, Absent, ExtractString;
    FirstRow(json, o, msgs);
    var m, last := msgs[0], |msgs| == 1;
    RowFields(json, o, m, last);
    RowParts(json, o, m, last);
    var p, nx := RoleClose(o, m) + 2, NextRow(o, m, last);
    KeysAbsent(json, o, m, last, o + 9, nx);
    NextFields(json, o + 9, nx, msgs[1..]);
    KeysAbsent(json, o, m, last, o + 9, p);
    ExtractEscaped(json, o + 9, p, "content", m.content);
  }

  /** Reading at the end of a content gives the next row's message. */
  lemma ReadAtContentEnd(json: string, o: nat, msgs: seq<Message>)
    requires FileFrom(json, o, msgs) && msgs != [] && ContentOpen(o, msgs[0]) <= ContentClose(o, msgs[0]) - 5
    ensures ReadAt(json, ContentClose(o, msgs[0]) - 5)
            == Some(if |msgs| > 1 then msgs[1] else Message("", ""))
  {
    hide Row, Rows, Escape, OccursAt, Absent, ExtractString;
    FirstRow(json, o, msgs);
    var m, last := msgs[0], |msgs| == 1;
    var q, nx := ContentClose(o, m) - 6, NextRow(o, m, last);
    KeysAbsent(json, o, m, last, q, nx);
    NextFields(json, q, nx, msgs[1..]);
  }

  // ----- what is loaded -----

  /** The messages that come back. A role `role`, and a content that ends in `"role`, make the loader read one
      more message, unless the message is the last. */
  function Expected(msgs: seq<Message>): seq<Message> {
    if msgs == [] then []
    else
      Own(msgs) + (RoleEcho(msgs) + (ContentEcho(msgs) + Expected(msgs[1..])))
  }

  function Own(msgs: seq<Message>): seq<Message>
    requires msgs != []
  {
    [Message(msgs[0].role, Unescape(msgs[0].content))]
  }

  function RoleEcho(msgs: seq<Message>): seq<Message>
    requires msgs != []
  {
    if |msgs| > 1 && msgs[0].role == "role" then [Message(msgs[1].role, Unescape(msgs[0].content))] else []
  }

  function ContentEcho(msgs: seq<Message>): seq<Message>
    requires msgs != []
  {
    if |msgs| > 1 && EndsInRole(msgs[0].content) then [Message(msgs[1].role, Unescape(msgs[1].content))] else []
  }

  lemma LoadHit(json: string, y: nat, p: nat, m: Message)
    requires y <= p && OccursAt(json, ROLE, p) && Absent(json, ROLE, y, p) && ReadAt(json, p) == Some(m)
    ensures Load(json, y) == After(Pushed(m), Load(json, p + 6))
  {
    hide ReadAt, Pushed, OccursAt, Absent;
    FindFrom(json, ROLE, y, p);
  }

  lemma LoadSkip(json: string, y: nat, z: nat)
    requires y <= z && Absent(json, ROLE, y, z)
    ensures Load(json, y) == Load(json, z)
  {
    var p := Find(json, ROLE, z);
    if p >= 0 {
      FindIs(json, ROLE, y, p);
    } else {
      assert Find(json, ROLE, y) == -1;
    }
  }

  // ----- a content ends in `role` exactly when it is written so -----

  lemma EscapeCharEnds(c: char)
    ensures var e := EscapeChar(c);
            || e == [c]
            || (|e| == 2 && e[0] == '\\' && e[1] in {'"', '\\', 'b', 'f', 'n', 'r', 't'} && (e[1] == '"' ==> c == '"'))
            || (|e| == 6 && (e[4] == '0' || e[4] == '1')
              && e[5] in {'0', '1', '2', '3', '4', '5', '6', '7', '8', '9', 'a', 'b', 'c', 'd', 'e', 'f'})
  {
  }

  /** A text written as `p` and one of the characters of `"role`, not itself the end of an escape. */
  lemma PeelChar(s: string, p: string, x: char)
    requires Escape(s) == p + [x] && x in {'r', 'o', 'l', 'e', '"'}
    requires x == 'e' ==> p != "" && p[|p| - 1] == 'l'
    requires x == 'r' ==> p == "" || p[|p| - 1] != '\\'
    ensures s != "" && s == s[..|s| - 1] + [x]
    ensures x != '"' ==> Escape(s[..|s| - 1]) == p
  {
    hide Escape, EscapeChar;
    if s == "" { EscapeOfNothing(); }
    var n := |s| - 1;
    EscapeSnoc(s, n);
    assert s[..n + 1] == s;
    var init, c := Escape(s[..n]), EscapeChar(s[n]);
    EscapeCharEnds(s[n]);
    assert init + c == p + [x];
    assert c[|c| - 1] == (init + c)[|init + c| - 1] == x;
    if |c| == 1 {
      assert init == (init + c)[..|init|] == p;
    } else {
      assert c[|c| - 2] == (init + c)[|p| - 1] == p[|p| - 1];
    }
  }

  lemma EscapeOfNothing()
    ensures Escape("") == ""
  {
  }

  lemma PeelWord(s: string, p: string) returns (s0: string)
    requires Escape(s) == p + "role" && (p == "" || p[|p| - 1] != '\\')
    ensures s == s0 + "role" && Escape(s0) == p
  {
    hide Escape;
    assert p + "role" == (p + "rol") + "e" && p + "rol" == (p + "ro") + "l" && p + "ro" == (p + "r") + "o";
    PeelChar(s, p + "rol", 'e');
    var s3 := s[..|s| - 1];
    PeelChar(s3, p + "ro", 'l');
    var s2 := s3[..|s3| - 1];
    PeelChar(s2, p + "r", 'o');
    var s1 := s2[..|s2| - 1];
    PeelChar(s1, p, 'r');
    s0 := s1[..|s1| - 1];
  }

  lemma EscapedEnd(s: string)
    ensures EndsInRole(Escape(s)) <==> EndsInRole(s)
  {
    if EndsInRole(Escape(s)) {
      UnescapedEnd(s);
    }
    if EndsInRole(s) {
      EndEscaped(s);
    }
  }

  lemma UnescapedEnd(s: string)
    requires EndsInRole(Escape(s))
    ensures EndsInRole(s)
  {
    hide Escape;
    var e := Escape(s);
    var n := |e| - 4;
    assert e[n..] == if e == "role" then e else e[|e| - 5..][1..];
    assert e == e[..n] + "role";
    assert n > 0 ==> e[n - 1] == e[|e| - 5..][0];
    var s0 := PeelWord(s, e[..n]);
    if n > 0 {
      assert e[..n] == e[..n - 1] + "\"";
      PeelChar(s0, e[..n - 1], '"');
      assert s[|s| - 5..] == "\"role";
    } else if s0 != "" {
      EscapeNonEmpty(s0);
    }
  }

  lemma EndEscaped(s: string)
    requires EndsInRole(s)
    ensures EndsInRole(Escape(s))
  {
    hide Escape;
    EscapeOfWord();
    if s != "role" {
      var s0 := s[..|s| - 5];
      assert s == s0 + "\"role";
      EscapeConcat(s0, "\"role");
      assert (Escape(s0) + "\\\"role")[|Escape(s0)| + 1..] == "\"role";
    }
  }

  lemma EscapeNonEmpty(s: string)
    requires s != ""
    ensures Escape(s) != ""
  {
  }

  lemma EscapeOfWord()
    ensures Escape("role") == "role" && Escape("\"role") == "\\\"role"
  {
    assert "\"role"[1..] == "role" && "role"[1..] == "ole" && "ole"[1..] == "le" && "le"[1..] == "e" && "e"[1..] == "";
    assert Escape("e") == "e" && Escape("le") == "le" && Escape("ole") == "ole";
  }

  // ----- the round trip -----

  lemma RoleAbsent(json: string, o: nat, m: Message, last: bool, a: nat, b: nat)
    requires RowAt(json, o, m, last) && o <= a && b <= NextRow(o, m, last)
    requires a > o + 3 || b <= o + 3
    requires m.role != "role" || a > o + 10 || b <= o + 10
    requires !EndsInRole(m.content) || a > ContentClose(o, m) - 5 || b <= ContentClose(o, m) - 5
    ensures Absent(json, ROLE, a, b)
  {
    hide Row, Escape, OccursAt;
    EscapedEnd(m.content);
    forall k | a <= k < b ensures !OccursAt(json, ROLE, k) {
      if OccursAt(json, ROLE, k) {
        RoleOccurrences(json, o, m, last, k);
      }
    }
  }

  /** From after the key up to after the role value. */
  lemma LoadPastRole(json: string, o: nat, msgs: seq<Message>)
    requires FileFrom(json, o, msgs) && msgs != []
    ensures Load(json, o + 9) == After(RoleEcho(msgs), Load(json, RoleClose(o, msgs[0]) + 1))
  {
    hide Row, Rows, Escape, OccursAt, Absent, Load, ReadAt, Unescape;
    FirstRow(json, o, msgs);
    var m, last := msgs[0], |msgs| == 1;
    AfterTwice([], [], Load(json, RoleClose(o, m) + 1));
    if m.role == "role" {
      RoleOccurs(json, o, m, last);
      RoleAbsent(json, o, m, last, o + 9, o + 10);
      ReadAtRoleValue(json, o, msgs);
      LoadHit(json, o + 9, o + 10, Message(RoleOfNext(msgs), m.content));
      assert |msgs| > 1 ==> PlainRole(msgs[1].role);
    } else {
      RoleAbsent(json, o, m, last, o + 9, RoleClose(o, m) + 1);
      LoadSkip(json, o + 9, RoleClose(o, m) + 1);
    }
  }

  /** From after the role value up to the next row. */
  lemma LoadPastContent(json: string, o: nat, msgs: seq<Message>)
    requires FileFrom(json, o, msgs) && msgs != []
    ensures Load(json, RoleClose(o, msgs[0]) + 1)
            == After(ContentEcho(msgs), Load(json, NextRow(o, msgs[0], |msgs| == 1)))
  {
    hide Row, Rows, Escape, OccursAt, Absent, Load, ReadAt, Unescape;
    FirstRow(json, o, msgs);
    var m, last := msgs[0], |msgs| == 1;
    var y, cc, nx := RoleClose(o, m) + 1, ContentClose(o, m), NextRow(o, m, last);
    AfterTwice([], [], Load(json, nx));
    if EndsInRole(m.content) {
      EscapedEnd(m.content);
      RoleOccurs(json, o, m, last);
      RoleAbsent(json, o, m, last, y, cc - 5);
      ReadAtContentEnd(json, o, msgs);
      LoadHit(json, y, cc - 5, if |msgs| > 1 then msgs[1] else Message("", ""));
      assert |msgs| > 1 ==> PlainRole(msgs[1].role);
      RoleAbsent(json, o, m, last, cc + 1, nx);
      LoadSkip(json, cc + 1, nx);
    } else {
      RoleAbsent(json, o, m, last, y, nx);
      LoadSkip(json, y, nx);
    }
  }

  lemma LoadKey(json: string, o: nat, msgs: seq<Message>)
    requires FileFrom(json, o, msgs) && msgs != []
    ensures Load(json, o) == After(Own(msgs), Load(json, o + 9))
  {
    hide Row, Rows, Escape, OccursAt, Absent, Load, ReadAt, Unescape;
    FirstRow(json, o, msgs);
    var m, last := msgs[0], |msgs| == 1;
    RowChars(json, o, m, last);
    RoleAbsent(json, o, m, last, o, o + 3);
    ReadAtKey(json, o, msgs);
    LoadHit(json, o, o + 3, m);
  }

  lemma {:induction false} LoadRows(json: string, o: nat, msgs: seq<Message>)
    requires FileFrom(json, o, msgs)
    ensures Load(json, o) == Some(Expected(msgs))
    decreases |msgs|
  {
    if msgs == [] {
      hide OccursAt;
      LastLine(json, o, ROLE);
      FindNone(json, ROLE, o);
    } else {
      hide Row, Rows, OccursAt, ReadAt, Unescape, FileFrom, Own, RoleEcho, ContentEcho, Load;
      var nx := NextRow(o, msgs[0], |msgs| == 1);
      FirstRow(json, o, msgs);
      LoadKey(json, o, msgs);
      LoadPastRole(json, o, msgs);
      LoadPastContent(json, o, msgs);
      LoadRows(json, nx, msgs[1..]);
    }
  }

  /** What loading a saved conversation returns, whatever the contents are. */
  lemma LoadOfSave(msgs: seq<Message>)
    requires forall i :: 0 <= i < |msgs| ==> PlainRole(msgs[i].role)
    ensures Load(Save(msgs), 0) == Some(Expected(msgs))
  {
    hide Row, Rows, Load, Expected;
    var json := Save(msgs);
    assert json[2..] == Rows(msgs) + "]\n";
    LoadRows(json, 2, msgs);
    Mismatch(json, ROLE, 0, 0);
    Mismatch(json, ROLE, 1, 0);
    LoadSkip(json, 0, 2);
  }

  /** The messages a saved conversation must avoid before its last message. */
  predicate Echoes(m: Message) {
    m.role == "role" || EndsInRole(m.content)
  }

  /** No content is changed by the second decoding, and no message before the last makes an echo. */
  predicate Faithful(msgs: seq<Message>) {
    || msgs == []
    || (Unescape(msgs[0].content) == msgs[0].content && (|msgs| == 1 || !Echoes(msgs[0])) && Faithful(msgs[1..]))
  }

  lemma {:induction false} ExpectedIsIdentity(msgs: seq<Message>)
    ensures |Expected(msgs)| >= |msgs|
    ensures Expected(msgs) == msgs <==> Faithful(msgs)
    decreases |msgs|
  {
    if msgs != [] {
      hide Unescape, EndsInRole;
      var m, rest := msgs[0], msgs[1..];
      ExpectedIsIdentity(rest);
      assert msgs == [m] + rest;
      if |msgs| == 1 || !Echoes(m) {
        assert Expected(msgs) == Own(msgs) + Expected(rest);
        assert Expected(msgs)[0] == Own(msgs)[0] && Expected(msgs)[1..] == Expected(rest);
      }
    }
  }

  lemma {:induction false} FaithfulIs(msgs: seq<Message>)
    ensures Faithful(msgs) <==>
            && (forall i :: 0 <= i < |msgs| ==> !HasShortEscape(msgs[i].content))
            && (forall i :: 0 <= i < |msgs| - 1 ==> !Echoes(msgs[i]))
  {
    if msgs != [] {
      hide Unescape, EndsInRole, HasShortEscape, Echoes;
      var rest := msgs[1..];
      FaithfulIs(rest);
      UnescapeFixes(msgs[0].content);
      assert forall i :: 1 <= i < |msgs| ==> msgs[i] == rest[i - 1];
      assert forall i :: 0 <= i < |rest| ==> rest[i] == msgs[i + 1];
    }
  }

  /** With such roles, saving and loading is the identity exactly when no content holds a short escape and no
      message before the last has the role `role` or a content that ends in `"role` or is `role`. */
  lemma PlainRoundTrip(msgs: seq<Message>)
    requires forall i :: 0 <= i < |msgs| ==> PlainRole(msgs[i].role)
    ensures Load(Save(msgs), 0) == Some(msgs) <==>
            && (forall i :: 0 <= i < |msgs| ==> !HasShortEscape(msgs[i].content))
            && (forall i :: 0 <= i < |msgs| - 1 ==> !Echoes(msgs[i]))
  {
    LoadOfSave(msgs);
    ExpectedIsIdentity(msgs);
    FaithfulIs(msgs);
  }
}
