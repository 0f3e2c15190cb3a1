/** The codec of `/chat save` and `/chat load` (src/repl/repl_commands.cpp). It has its own escaper and its own
    reader, which ends a content at the first quote that does not follow a backslash. */
module ChatFile {
  import opened Json
  import JsonString
  import opened Text

  datatype Message = Message(role: string, content: string)

  const ROLE_KEY := "\"role\":\""
  const CONTENT_KEY := "\"content\":\""

  // ----- saving -----

  function ChatEscape(c: char): string {
    if c == '"' then "\\\"" else if c == '\\' then "\\\\" else if c == '\n' then "\\n" else [c]
  }

  function Written(content: string): string {
    if content == "" then "" else ChatEscape(content[0]) + Written(content[1..])
  }

  function Row(m: Message, last: bool): string {
    "  {" + (ROLE_KEY + (m.role + ("\"," + (CONTENT_KEY + (Written(m.content)
    + ("\"}" + (if last then "\n" else ",\n")))))))
  }

  function Rows(msgs: seq<Message>): string {
    if msgs == [] then "" else Row(msgs[0], |msgs| == 1) + Rows(msgs[1..])
  }

  function Save(msgs: seq<Message>): string {
    "[\n" + (Rows(msgs) + "]\n")
  }

  lemma WriteOne(content: string, i: nat, f: string)
    requires i < |content|
    ensures f + Written(content[i..]) == (f + ChatEscape(content[i])) + Written(content[i + 1..])
  {
    hide ChatEscape;
    assert content[i..][1..] == content[i + 1..];
    assert f + (ChatEscape(content[i]) + Written(content[i + 1..]))
           == (f + ChatEscape(content[i])) + Written(content[i + 1..]);
  }

  method WriteContent(content: string) returns (f: string)
    ensures f == Written(content)
  {
    hide ChatEscape;
    f := "";
    for i := 0 to |content|
      invariant f + Written(content[i..]) == Written(content)
    {
      WriteOne(content, i, f);
      f := f + ChatEscape(content[i]);
    }
    assert content[|content|..] == "";
  }

  method SaveChat(msgs: seq<Message>) returns (f: string)
    ensures f == Save(msgs)
  {
    hide Row, Written;
    f := "[\n";
    for i := 0 to |msgs|
      invariant f + (Rows(msgs[i..]) + "]\n") == Save(msgs)
    {
      var content := WriteContent(msgs[i].content);
      var last := i + 1 == |msgs|;
      RowIs(msgs[i], last);
      var row := "  {" + (ROLE_KEY + (msgs[i].role + ("\"," + (CONTENT_KEY + (content
                 + ("\"}" + (if last then "\n" else ",\n")))))));
      assert msgs[i..][1..] == msgs[i + 1..];
      assert f + (row + Rows(msgs[i + 1..]) + "]\n") == f + row + (Rows(msgs[i + 1..]) + "]\n");
      f := f + row;
    }
    assert Rows(msgs[|msgs|..]) == "";
    f := f + "]\n";
  }

  lemma RowIs(m: Message, last: bool)
    ensures Row(m, last) == "  {" + (ROLE_KEY + (m.role + ("\"," + (CONTENT_KEY + (Written(m.content)
                            + ("\"}" + (if last then "\n" else ",\n")))))))
  {
  }

  // ----- loading -----

  /** One character of a content, and how many it takes in the file. */
  function ReadChar(json: string, i: nat): (r: (char, nat))
    requires i < |json|
    ensures r.1 > 0
  {
    if json[i] == '\\' && i + 1 < |json| then
      if json[i + 1] == 'n' then ('\n', 2)
      else if json[i + 1] == '"' then ('"', 2)
      else if json[i + 1] == '\\' then ('\\', 2)
      else (json[i], 1)
    else (json[i], 1)
  }

  /** The content read from `i` on and the position where the reading stops. */
  function ReadContent(json: string, i: nat): (r: (string, nat))
    requires 0 < i
    ensures i <= r.1
    decreases |json| - i
  {
    if i >= |json| || (json[i] == '"' && json[i - 1] != '\\') then ("", i)
    else
      var (c, step) := ReadChar(json, i);
      var (rest, end) := ReadContent(json, i + step);
      ([c] + rest, end)
  }

  function RoleFrom(json: string, p: nat): string
    requires p <= |json|
  {
    var end := Find(json, "\"", p);
    if end < 0 then json[p..] else json[p..end]
  }

  function Load(json: string, pos: nat): seq<Message>
    decreases |json| - pos
  {
    var p := Find(json, ROLE_KEY, pos);
    if p < 0 then []
    else
      var q := Find(json, CONTENT_KEY, p + 8);
      if q < 0 then []
      else
        var (content, end) := ReadContent(json, q + 11);
        [Message(RoleFrom(json, p + 8), content)] + Load(json, end)
  }

  method ReadContentLoop(json: string, start: nat) returns (content: string, pos: nat)
    requires 0 < start
    ensures (content, pos) == ReadContent(json, start)
  {
    hide ReadContent;
    content := "";
    pos := start;
    assert "" + ReadContent(json, start).0 == ReadContent(json, start).0;
    while pos < |json| && !(json[pos] == '"' && json[pos - 1] != '\\')
      invariant start <= pos
      invariant ReadContent(json, start) == (content + ReadContent(json, pos).0, ReadContent(json, pos).1)
    {
      ReadOneMore(json, pos, content);
      if json[pos] == '\\' && pos + 1 < |json| {
        if json[pos + 1] == 'n' {
          content := content + ['\n'];
          pos := pos + 2;
        } else if json[pos + 1] == '"' {
          content := content + ['"'];
          pos := pos + 2;
        } else if json[pos + 1] == '\\' {
          content := content + ['\\'];
          pos := pos + 2;
        } else {
          content := content + [json[pos]];
          pos := pos + 1;
        }
      } else {
        content := content + [json[pos]];
        pos := pos + 1;
      }
    }
    ReadStops(json, pos, content);
  }

  lemma ReadStops(json: string, pos: nat, content: string)
    requires pos > 0 && !(pos < |json| && !(json[pos] == '"' && json[pos - 1] != '\\'))
    ensures (content + ReadContent(json, pos).0, ReadContent(json, pos).1) == (content, pos)
  {
    assert content + "" == content;
  }

  lemma ReadOneMore(json: string, pos: nat, content: string)
    requires 0 < pos < |json| && !(json[pos] == '"' && json[pos - 1] != '\\')
    ensures var (c, step) := ReadChar(json, pos);
            && ReadContent(json, pos).1 == ReadContent(json, pos + step).1
            && content + ReadContent(json, pos).0 == (content + [c]) + ReadContent(json, pos + step).0
  {
    hide ReadChar;
    var (c, step) := ReadChar(json, pos);
    var rest := ReadContent(json, pos + step).0;
    assert content + ([c] + rest) == (content + [c]) + rest;
  }

  method LoadChat(json: string) returns (history: seq<Message>)
    ensures history == Load(json, 0)
  {
    hide ReadContent, Find, RoleFrom;
    history := [];
    var pos := 0;
    while true
      invariant Load(json, 0) == history + Load(json, pos)
      decreases |json| - pos
    {
      var p := Find(json, ROLE_KEY, pos);
      if p < 0 { break; }
      var role := RoleFrom(json, p + 8);
      var q := Find(json, CONTENT_KEY, p + 8);
      if q < 0 { break; }
      var content, end := ReadContentLoop(json, q + 11);
      assert history + ([Message(role, content)] + Load(json, end))
             == (history + [Message(role, content)]) + Load(json, end);
      history := history + [Message(role, content)];
      pos := end;
    }
  }

  // ----- where things are in a row that starts at `o` -----

  function RoleClose(o: nat, m: Message): nat {
    o + 11 + |m.role|
  }

  function ContentStart(o: nat, m: Message): nat {
    RoleClose(o, m) + 13
  }

  function ContentClose(o: nat, m: Message): nat {
    ContentStart(o, m) + |Written(m.content)|
  }

  function NextRow(o: nat, m: Message, last: bool): nat {
    ContentClose(o, m) + (if last then 3 else 4)
  }

  lemma RowParts(json: string, o: nat, m: Message, last: bool)
    requires StandsAt(json, o, Row(m, last))
    ensures StandsAt(json, o, "  {") && StandsAt(json, o + 3, ROLE_KEY) && StandsAt(json, o + 11, m.role)
    ensures StandsAt(json, RoleClose(o, m), "\",") && StandsAt(json, RoleClose(o, m) + 2, CONTENT_KEY)
    ensures StandsAt(json, ContentStart(o, m), Written(m.content)) && StandsAt(json, ContentClose(o, m), "\"}")
    ensures StandsAt(json, ContentClose(o, m) + 2, if last then "\n" else ",\n")
    ensures NextRow(o, m, last) == o + |Row(m, last)| <= |json|
  {
    hide Written, StandsAt;
    var s7 := if last then "\n" else ",\n";
    var s6 := "\"}" + s7;
    var s5 := Written(m.content) + s6;
    var s4 := CONTENT_KEY + s5;
    var s3 := "\"," + s4;
    var s2 := m.role + s3;
    var s1 := ROLE_KEY + s2;
    StandsAtParts(json, o, "  {", s1);
    StandsAtParts(json, o + 3, ROLE_KEY, s2);
    StandsAtParts(json, o + 11, m.role, s3);
    StandsAtParts(json, RoleClose(o, m), "\",", s4);
    StandsAtParts(json, RoleClose(o, m) + 2, CONTENT_KEY, s5);
    StandsAtParts(json, ContentStart(o, m), Written(m.content), s6);
    StandsAtParts(json, ContentClose(o, m), "\"}", s7);
    assert NextRow(o, m, last) <= |json| by { StandsAtFits(json, o, Row(m, last)); }
  }

  // ----- reading a content back -----

  /** A written content reads back up to its closing quote. */
  lemma {:induction false} ReadWritten(json: string, i: nat, content: string)
    requires 0 < i && StandsAt(json, i, Written(content)) && i + |Written(content)| < |json|
    ensures var r := ReadContent(json, i + |Written(content)|);
            ReadContent(json, i) == (content + r.0, r.1)
    decreases |content|
  {
    hide ReadContent, ChatEscape, StandsAt;
    if content == "" {
      var r := ReadContent(json, i);
      assert "" + r.0 == r.0;
    } else {
      var c, rest := ChatEscape(content[0]), Written(content[1..]);
      StandsAtParts(json, i, c, rest);
      ReadOne(json, i, content[0]);
      ReadWritten(json, i + |c|, content[1..]);
      var r := ReadContent(json, i + |Written(content)|);
      assert [content[0]] + (content[1..] + r.0) == content + r.0;
    }
  }

  lemma ReadOne(json: string, i: nat, c: char)
    requires 0 < i && StandsAt(json, i, ChatEscape(c)) && i + |ChatEscape(c)| < |json|
    ensures var r := ReadContent(json, i + |ChatEscape(c)|);
            ReadContent(json, i) == ([c] + r.0, r.1)
  {
    StandsAtChars(json, i, ChatEscape(c));
    assert json[i + 0] == ChatEscape(c)[0];
    if |ChatEscape(c)| == 2 {
      assert json[i + 1] == ChatEscape(c)[1];
    }
  }

  predicate EndsInBackslash(s: string) {
    s != "" && s[|s| - 1] == '\\'
  }

  lemma {:induction false} WrittenEnds(content: string)
    ensures content == "" <==> Written(content) == ""
    ensures EndsInBackslash(Written(content)) <==> EndsInBackslash(content)
  {
    if content != "" {
      WrittenEnds(content[1..]);
      var c, rest := ChatEscape(content[0]), Written(content[1..]);
      if |content| > 1 {
        assert (c + rest)[|c + rest| - 1] == rest[|rest| - 1];
        assert content[|content| - 1] == content[1..][|content| - 2];
      } else {
        assert rest == "" && c + rest == c;
      }
    }
  }

  // ----- the round trip -----

  /** What a message needs in order to come back as it was. */
  predicate Safe(m: Message) {
    '"' !in m.role && !EndsInBackslash(m.content)
  }

  /** From `o` on the file holds the rows of `msgs` and its last line. */
  ghost predicate FileFrom(json: string, o: nat, msgs: seq<Message>) {
    0 < o <= |json| && json[o..] == Rows(msgs) + "]\n"
  }

  lemma FirstRow(json: string, o: nat, msgs: seq<Message>)
    requires FileFrom(json, o, msgs) && msgs != []
    ensures StandsAt(json, o, Row(msgs[0], |msgs| == 1))
    ensures FileFrom(json, NextRow(o, msgs[0], |msgs| == 1), msgs[1..])
  {
    hide Row;
    var row := Row(msgs[0], |msgs| == 1);
    var rest := Rows(msgs[1..]) + "]\n";
    assert Rows(msgs) + "]\n" == row + rest;
    assert json[o..o + |row|] == json[o..][..|row|] == row;
    RowParts(json, o, msgs[0], |msgs| == 1);
    assert json[o + |row|..] == json[o..][|row|..] == rest;
  }

  /** The key of a row is the first one found in it. */
  lemma RowKey(json: string, y: nat, o: nat, m: Message, last: bool)
    requires StandsAt(json, o, Row(m, last)) && y <= o && forall k :: y <= k < o ==> !OccursAt(json, ROLE_KEY, k)
    ensures Find(json, ROLE_KEY, y) == o + 3
  {
    hide *;
    RowParts(json, o, m, last);
    NoKeyInIndent(json, o);
    StandsIsOccurs(json, o + 3, ROLE_KEY);
    FindIs(json, ROLE_KEY, y, o + 3);
  }

  lemma NoKeyInIndent(json: string, o: nat)
    requires StandsAt(json, o, "  {")
    ensures forall k :: o <= k < o + 3 ==> !OccursAt(json, ROLE_KEY, k)
  {
    StandsAtChars(json, o, "  {");
    assert json[o + 0] == ' ' && json[o + 1] == ' ' && json[o + 2] == '{';
    Mismatch(json, ROLE_KEY, o, 0);
    Mismatch(json, ROLE_KEY, o + 1, 0);
    Mismatch(json, ROLE_KEY, o + 2, 0);
    hide OccursAt;
  }

  lemma RoleCharAt(json: string, o: nat, m: Message, last: bool, k: nat)
    requires StandsAt(json, o, Row(m, last)) && o + 11 <= k < RoleClose(o, m)
    ensures k < |json| && json[k] == m.role[k - o - 11]
  {
    hide Row;
    RowParts(json, o, m, last);
    StandsAtChars(json, o + 11, m.role);
    assert json[k] == json[o + 11 + (k - o - 11)];
  }

  /** The role that is read: the text up to the first quote. */
  lemma ReadRole(json: string, o: nat, m: Message, last: bool)
    requires StandsAt(json, o, Row(m, last))
    ensures o + 11 <= |json| && (RoleFrom(json, o + 11) == m.role <==> '"' !in m.role)
  {
    hide Row, Find, Written;
    RowParts(json, o, m, last);
    var rc := RoleClose(o, m);
    if '"' in m.role {
      var x :| 0 <= x < |m.role| && m.role[x] == '"';
      RoleCharAt(json, o, m, last, o + 11 + x);
      assert json[o + 11 + x..o + 12 + x] == "\"";
      hide StandsAt;
      assert OccursAt(json, "\"", o + 11 + x);
    } else {
      ReadCleanRole(json, o, m, last);
    }
  }

  lemma ReadCleanRole(json: string, o: nat, m: Message, last: bool)
    requires StandsAt(json, o, Row(m, last)) && '"' !in m.role
    ensures o + 11 <= |json| && RoleFrom(json, o + 11) == m.role
  {
    hide Row, Find, Written;
    RowParts(json, o, m, last);
    var rc := RoleClose(o, m);
    StandsAtChars(json, rc, "\",");
    assert json[rc + 0] == '"';
    forall k | o + 11 <= k < rc ensures json[k] != '"' {
      RoleCharAt(json, o, m, last, k);
    }
    FindChar(json, '"', o + 11, rc);
    assert ['"'] == "\"";
  }

  /** Where the content of a row with a quote-free role is found. */
  lemma ContentKey(json: string, o: nat, m: Message, last: bool)
    requires StandsAt(json, o, Row(m, last)) && '"' !in m.role
    ensures Find(json, CONTENT_KEY, o + 11) == RoleClose(o, m) + 2
  {
    hide *;
    RowParts(json, o, m, last);
    var rc := RoleClose(o, m);
    assert rc == o + 11 + |m.role| by { RoleLength(o, m); }
    forall k | o + 11 <= k < rc ensures !OccursAt(json, CONTENT_KEY, k) {
      NoKeyInRole(json, o + 11, m.role, k);
    }
    NoKeyInGap(json, rc);
    StandsIsOccurs(json, rc + 2, CONTENT_KEY);
    FindIs(json, CONTENT_KEY, o + 11, rc + 2);
  }

  lemma RoleLength(o: nat, m: Message)
    ensures RoleClose(o, m) == o + 11 + |m.role|
  {
  }

  lemma NoKeyInRole(json: string, i: nat, role: string, k: nat)
    requires StandsAt(json, i, role) && '"' !in role && i <= k < i + |role|
    ensures !OccursAt(json, CONTENT_KEY, k)
  {
    StandsChar(json, i, role, k - i);
    Mismatch(json, CONTENT_KEY, k, 0);
  }

  lemma NoKeyInGap(json: string, rc: nat)
    requires StandsAt(json, rc, "\",")
    ensures !OccursAt(json, CONTENT_KEY, rc) && !OccursAt(json, CONTENT_KEY, rc + 1)
  {
    StandsChar(json, rc, "\",", 0);
    StandsChar(json, rc, "\",", 1);
    Mismatch(json, CONTENT_KEY, rc, 1);
    Mismatch(json, CONTENT_KEY, rc + 1, 0);
  }

  /** The content that is read: the written one, up to its closing quote exactly when it does not end in a
      backslash, and more than it otherwise. */
  lemma ReadRowContent(json: string, o: nat, m: Message, last: bool)
    requires StandsAt(json, o, Row(m, last))
    ensures !EndsInBackslash(m.content) ==>
              ReadContent(json, ContentStart(o, m)) == (m.content, ContentClose(o, m))
    ensures EndsInBackslash(m.content) ==>
              |ReadContent(json, ContentStart(o, m)).0| > |m.content|
  {
    hide Row, Written, StandsAt, ReadContent;
    RowParts(json, o, m, last);
    var cs, cc := ContentStart(o, m), ContentClose(o, m);
    StandsChar(json, cc, "\"}", 0);
    StandsChar(json, RoleClose(o, m) + 2, CONTENT_KEY, 10);
    WrittenEnds(m.content);
    ReadWritten(json, cs, m.content);
    if m.content != "" {
      StandsChar(json, cs, Written(m.content), |Written(m.content)| - 1);
    }
    StopsAtQuote(json, cc, m.content);
  }

  /** At a quote the reading stops unless a backslash precedes it; then at least the quote is read. */
  lemma StopsAtQuote(json: string, cc: nat, content: string)
    requires 0 < cc < |json| && json[cc] == '"'
    ensures var r := ReadContent(json, cc);
            if json[cc - 1] != '\\' then (content + r.0, r.1) == (content, cc) else |content + r.0| > |content|
  {
    assert content + "" == content;
  }

  /** From the closing quote of a content no key is found before the next row. */
  lemma PastContent(json: string, o: nat, m: Message, last: bool, k: nat)
    requires StandsAt(json, o, Row(m, last)) && ContentClose(o, m) <= k < NextRow(o, m, last)
    ensures !OccursAt(json, ROLE_KEY, k)
  {
    hide Row, Written, StandsAt, OccursAt;
    RowParts(json, o, m, last);
    var cc := ContentClose(o, m);
    StandsChar(json, cc, "\"}", 1);
    StandsChar(json, cc + 2, if last then "\n" else ",\n", 0);
    if !last {
      StandsChar(json, cc + 2, ",\n", 1);
    }
    if k == cc {
      Mismatch(json, ROLE_KEY, cc, 1);
    } else {
      Mismatch(json, ROLE_KEY, k, 0);
    }
  }

  lemma NoMoreRows(json: string, y: nat, o: nat)
    requires FileFrom(json, o, []) && y <= o && forall k :: y <= k < o ==> !OccursAt(json, ROLE_KEY, k)
    ensures Load(json, y) == []
  {
    assert |json| == o + 2;
    assert Find(json, ROLE_KEY, y) == -1;
  }

  // ----- the contents are JSON strings -----

  ghost function PieceOf(c: char): JsonString.Piece {
    if c == '"' || c == '\\' then JsonString.Short(c)
    else if c == '\n' then JsonString.Short('n') else JsonString.Plain(c)
  }

  ghost function PiecesOf(content: string): seq<JsonString.Piece> {
    if content == "" then [] else [PieceOf(content[0])] + PiecesOf(content[1..])
  }

  /** A content is written in the pieces of a JSON string that mean it, without line breaks. */
  lemma {:induction false} WrittenIsJson(content: string)
    ensures JsonString.AllLegal(PiecesOf(content)) && JsonString.AllWritten(PiecesOf(content)) == Written(content)
    ensures JsonString.AllMeant(PiecesOf(content)) == content && '\n' !in Written(content)
    decreases |content|
  {
    hide PieceOf;
    if content != "" {
      var first, rest := PieceOf(content[0]), PiecesOf(content[1..]);
      OnePiece(content[0]);
      WrittenIsJson(content[1..]);
      assert ([first] + rest)[1..] == rest;
      assert content == [content[0]] + content[1..];
    }
  }

  lemma OnePiece(c: char)
    ensures JsonString.Legal(PieceOf(c)) && JsonString.Written(PieceOf(c)) == ChatEscape(c)
    ensures JsonString.Meaning(PieceOf(c)) == [c] && '\n' !in ChatEscape(c)
  {
  }

  /** Loading the rows of `msgs` gives `msgs` back exactly when every message is safe. */
  lemma {:induction false} LoadRows(json: string, y: nat, o: nat, msgs: seq<Message>)
    requires FileFrom(json, o, msgs) && y <= o && forall k :: y <= k < o ==> !OccursAt(json, ROLE_KEY, k)
    ensures Load(json, y) == msgs <==> forall i :: 0 <= i < |msgs| ==> Safe(msgs[i])
    decreases |msgs|
  {
    if msgs == [] {
      NoMoreRows(json, y, o);
    } else {
      hide Row, Written, ReadContent, OccursAt, Rows, Find, RoleFrom, StandsAt;
      var m, last := msgs[0], |msgs| == 1;
      FirstRow(json, o, msgs);
      RowKey(json, y, o, m, last);
      ReadRole(json, o, m, last);
      hide Load, Safe, FileFrom;
      SafeFirst(msgs, Load(json, ContentClose(o, m)));
      if Safe(m) {
        LoadFirst(json, y, o, m, last);
        LoadRows(json, ContentClose(o, m), NextRow(o, m, last), msgs[1..]);
      } else {
        UnsafeFirst(json, y, o, m, last);
      }
    }
  }

  lemma LoadFirst(json: string, y: nat, o: nat, m: Message, last: bool)
    requires StandsAt(json, o, Row(m, last)) && Safe(m) && o + 11 <= |json|
    requires Find(json, ROLE_KEY, y) == o + 3 && (RoleFrom(json, o + 11) == m.role <==> '"' !in m.role)
    ensures Load(json, y) == [m] + Load(json, ContentClose(o, m))
    ensures forall k :: ContentClose(o, m) <= k < NextRow(o, m, last) ==> !OccursAt(json, ROLE_KEY, k)
  {
    hide Row, Written, ReadContent, OccursAt;
    ContentKey(json, o, m, last);
    ReadRowContent(json, o, m, last);
    forall k | ContentClose(o, m) <= k < NextRow(o, m, last) ensures !OccursAt(json, ROLE_KEY, k) {
      PastContent(json, o, m, last, k);
    }
  }

  lemma SafeFirst(msgs: seq<Message>, rest: seq<Message>)
    requires msgs != []
    ensures [msgs[0]] + rest == msgs <==> rest == msgs[1..]
    ensures (forall i :: 0 <= i < |msgs| ==> Safe(msgs[i])) <==>
            Safe(msgs[0]) && forall i :: 0 <= i < |msgs[1..]| ==> Safe(msgs[1..][i])
  {
    assert msgs == [msgs[0]] + msgs[1..];
    assert forall i :: 1 <= i < |msgs| ==> msgs[i] == msgs[1..][i - 1];
  }

  lemma UnsafeFirst(json: string, y: nat, o: nat, m: Message, last: bool)
    requires StandsAt(json, o, Row(m, last)) && !Safe(m)
    requires o + 11 <= |json| && Find(json, ROLE_KEY, y) == o + 3
             && (RoleFrom(json, o + 11) == m.role <==> '"' !in m.role)
    ensures Load(json, y) == [] || Load(json, y)[0] != m
  {
    hide Row, Written, ReadContent, OccursAt;
    if '"' !in m.role {
      ContentKey(json, o, m, last);
      ReadRowContent(json, o, m, last);
    }
  }

  /** Saving and loading a chat is the identity exactly when no role holds a quote and no content ends in a
      backslash. */
  lemma ChatRoundTrip(msgs: seq<Message>)
    ensures Load(Save(msgs), 0) == msgs <==>
            forall i :: 0 <= i < |msgs| ==> '"' !in msgs[i].role && !EndsInBackslash(msgs[i].content)
  {
    hide Rows, Load;
    var json := Save(msgs);
    assert json[2..] == Rows(msgs) + "]\n";
    Mismatch(json, ROLE_KEY, 0, 0);
    Mismatch(json, ROLE_KEY, 1, 0);
    LoadRows(json, 0, 2, msgs);
    assert forall i :: 0 <= i < |msgs| ==>
           (Safe(msgs[i]) <==> '"' !in msgs[i].role && !EndsInBackslash(msgs[i].content));
  }

  /** A content that ends in a backslash, and a role with a quote. */
  lemma BackslashIsLost()
    ensures Load(Save([Message("user", "a\\")]), 0) != [Message("user", "a\\")]
    ensures Load(Save([Message("a\"b", "x")]), 0) != [Message("a\"b", "x")]
  {
    hide Load, Save;
    ChatRoundTrip([Message("user", "a\\")]);
    ChatRoundTrip([Message("a\"b", "x")]);
    assert EndsInBackslash([Message("user", "a\\")][0].content);
    assert "a\"b"[1] == '"' && [Message("a\"b", "x")][0].role == "a\"b";
  }
}
