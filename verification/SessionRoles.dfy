/** Roles that a session file does not give back (src/session/session.cpp). `save_session` writes a role without
    escaping it, so a quote or a backslash in it changes what the loader reads, and parts of a role may be read as
    keys. Whatever the roles are, the conversation comes back only if every role is read back as it was written. */
module SessionRoles {
  import opened Json
  import opened Session
  import opened Text
  import opened Wrappers

  // ----- a weight that decoding lowers -----

  function CharWeight(c: char): nat {
    if c == '\\' then 7 else 1
  }

  /** The length of a text in which a backslash counts seven times. */
  function Weight(s: string): (w: nat)
    ensures w >= |s|
  {
    if s == "" then 0 else CharWeight(s[0]) + Weight(s[1..])
  }

  lemma {:induction false} WeightConcat(a: string, b: string)
    ensures Weight(a + b) == Weight(a) + Weight(b)
    decreases |a|
  {
    if a == "" {
      assert a + b == b;
    } else {
      assert (a + b)[1..] == a[1..] + b;
      WeightConcat(a[1..], b);
    }
  }

  lemma WeightOfSuffix(s: string, k: nat)
    requires k <= |s|
    ensures Weight(s[k..]) + k <= Weight(s)
  {
    assert s == s[..k] + s[k..];
    WeightConcat(s[..k], s[k..]);
  }

  lemma WeightOfOne(c: char)
    ensures Weight([c]) == CharWeight(c)
  {
    assert [c][1..] == "";
  }

  /** What a decoding may keep of a quote that an earlier escape has left behind an odd run of backslashes. */
  function Slack(json: string, x: nat): nat
    requires 0 < x < |json|
  {
    if json[x - 1] == '\\' && json[x] in {'"', '\\'} then 2 else 0
  }

  // ----- what is decoded from a position inside a role -----

  /** The role text `s` stands at `x`, up to the end of the role. */
  ghost predicate RoleRest(json: string, x: nat, s: string) {
    0 < x && StandsAt(json, x, s + MID)
  }

  lemma RoleRestChars(json: string, x: nat, s: string)
    requires RoleRest(json, x, s)
    ensures 0 < x && x + |s| + 13 <= |json|
    ensures forall k :: 0 <= k < |s| ==> json[x + k] == s[k]
    ensures forall k :: 0 <= k < 13 ==> json[x + |s| + k] == MID[k]
  {
    StandsAtParts(json, x, s, MID);
    StandsAtChars(json, x, s);
    StandsAtChars(json, x + |s|, MID);
  }

  lemma RoleRestTail(json: string, x: nat, s: string, n: nat)
    requires RoleRest(json, x, s) && n <= |s|
    ensures RoleRest(json, x + n, s[n..])
  {
    assert s + MID == s[..n] + (s[n..] + MID);
    StandsAtParts(json, x, s[..n], s[n..] + MID);
  }

  /** From behind the closing quote of a role only a comma is decoded. */
  lemma DecodeComma(json: string, x: nat)
    requires RoleRest(json, x, "")
    ensures x + 1 < |json| && Decode(json, x + 1) == Some(",")
  {
    hide StandsAt, Decode;
    RoleRestChars(json, x, "");
    assert MID[0] == '"' && MID[1] == ',' && MID[2] == '"';
    assert json[x + 0 + 0] == '"' && json[x + 0 + 1] == ',' && json[x + 0 + 2] == '"';
    DecodeUnfold(json, x + 1);
    DecodeUnfold(json, x + 2);
    assert [','] + "" == ",";
  }

  /** At the end of the role. */
  lemma BoundAtEnd(json: string, x: nat, r: string)
    requires RoleRest(json, x, "") && x < |json| && Decode(json, x) == Some(r)
    ensures Weight(r) <= Slack(json, x)
  {
    hide Decode, StandsAt;
    RoleRestChars(json, x, "");
    assert MID[0] == '"' && json[x + 0 + 0] == MID[0];
    DecodeUnfold(json, x);
    if !EndQuote(json, x) {
      DecodeComma(json, x);
      assert r == "\"" + ",";
      WeightConcat("\"", ",");
      WeightOfOne('"');
      WeightOfOne(',');
    }
  }

  lemma QuoteAfterBackslash(json: string, x: nat)
    requires 0 < x < |json| && json[x] == '"' && !EndQuote(json, x)
    ensures Slack(json, x) == 2
  {
  }

  /** One character that is decoded as itself. */
  lemma BoundChar(json: string, x: nat, s: string, r: string)
    requires 0 < x && x + 1 < |json| && s != "" && json[x] == s[0]
    requires Weight(r) <= Weight(s[1..])
    requires !Kept(s[1..]) ==> Weight(r) < Weight(s[1..])
    requires !EndQuote(json, x)
    requires s[0] == '\\' ==> |s| > 1 && !EscapeLetter(s[1])
    ensures Weight([s[0]] + r) <= Weight(s) + Slack(json, x)
    ensures Slack(json, x) == 0 && !Kept(s) ==> Weight([s[0]] + r) < Weight(s)
  {
    hide Kept, EscapeLetter, EndQuote, Slack, CharWeight;
    assert ([s[0]] + r)[1..] == r;
    KeptTail(s);
    if s[0] == '"' {
      QuoteAfterBackslash(json, x);
    }
  }

  /** What an escape decodes to. */
  lemma EscapeSteps(json: string, x: nat, n: nat, out: string)
    requires x < |json| && DecodeEscape(json, x) == Some((n, out)) && n > 0
    ensures x + n < |json| && Weight(out) <= 7
    ensures (n == 1 && Weight(out) <= CharWeight(json[x + 1])) || (n == 5 && json[x + 1] == 'u')
  {
    hide Stoul;
    if out != "" {
      WeightOfOne(out[0]);
      assert out == [out[0]];
    }
  }

  /** An escape inside the role loses weight. */
  lemma EscapeGains(json: string, x: nat, s: string, n: nat, out: string)
    requires RoleRest(json, x, s) && x < |json| && s != "" && s[0] == '\\'
    requires DecodeEscape(json, x) == Some((n, out)) && 0 < n < |s|
    ensures Weight(out) + Weight(s[n + 1..]) + 2 < Weight(s)
  {
    hide StandsAt, DecodeEscape, RoleRest;
    RoleRestChars(json, x, s);
    assert json[x + 0] == s[0] && json[x + 1] == s[1];
    EscapeSteps(json, x, n, out);
    WeightOfTwo(s);
    if n == 5 {
      WeightOfSuffix(s[2..], 4);
      assert s[2..][4..] == s[6..];
    }
  }

  lemma WeightOfTwo(s: string)
    requires |s| > 1
    ensures Weight(s) == CharWeight(s[0]) + CharWeight(s[1]) + Weight(s[2..])
  {
    assert s[1..][0] == s[1] && s[1..][1..] == s[2..];
  }

  /** An escape that reaches beyond the role: the closing quote, or a numeric one with the quote among its digits. */
  lemma OverrunBound(json: string, x: nat, s: string, n: nat, out: string, r: string)
    requires RoleRest(json, x, s) && x < |json| && s != "" && s[0] == '\\'
    requires DecodeEscape(json, x) == Some((n, out)) && n >= |s| && x + n + 1 <= |json|
    requires Decode(json, x + n + 1) == Some(r)
    ensures Weight(out + r) < Weight(s)
  {
    hide StandsAt, DecodeEscape, Decode, RoleRest, Slack;
    RoleRestChars(json, x, s);
    WeightConcat(out, r);
    EscapeSteps(json, x, n, out);
    if n == 1 {
      RoleRestTail(json, x, s, 1);
      assert s[1..] == "";
      DecodeComma(json, x + 1);
      WeightOfOne(',');
      assert json[x + |s| + 0] == MID[0] == '"';
    } else {
      NumericOverrun(json, x, s, out, r);
    }
  }

  /** A numeric escape whose first digit is the closing quote: the conversion throws. */
  lemma NoDigits(json: string, x: nat, s: string)
    requires RoleRest(json, x, s) && |s| == 2 && x < |json| && s[0] == '\\' && s[1] == 'u'
    ensures DecodeEscape(json, x) == None
  {
    hide StandsAt;
    RoleRestChars(json, x, s);
    assert json[x + 0] == s[0] && json[x + 1] == s[1];
    assert json[x + |s| + 0] == MID[0] == '"';
    var t := json[x + 2..x + 6];
    assert t[0] == '"' && SkipSpaces(t) == t;
  }

  /** One digit before the closing quote: a control character. */
  lemma OneDigit(json: string, x: nat, s: string, out: string)
    requires RoleRest(json, x, s) && |s| == 3 && x < |json| && s[0] == '\\' && s[1] == 'u'
    requires DecodeEscape(json, x) == Some((5, out))
    ensures Weight(out) <= 1
  {
    hide StandsAt;
    RoleRestChars(json, x, s);
    assert json[x + 0] == s[0] && json[x + 1] == s[1];
    assert json[x + |s| + 0] == MID[0] == '"';
    var t := json[x + 2..x + 6];
    assert t[1] == '"';
    ShortNumber(t);
    if out != "" {
      WeightOfOne(out[0]);
      assert out == [out[0]];
    }
  }

  lemma ShortNumber(t: string)
    requires |t| == 4 && t[1] == '"'
    ensures Stoul(t) == None || Stoul(t).value < 16
  {
    if IsSpace(t[0]) {
      assert SkipSpaces(t) == SkipSpaces(t[1..]) == t[1..];
    } else {
      assert SkipSpaces(t) == t;
      if HexValue(t[0]) >= 0 {
        assert HexPrefix(t[1..], HexValue(t[0])) == HexValue(t[0]);
      }
    }
  }

  lemma DecodeContent(json: string, x: nat, r: string)
    requires RoleRest(json, x, "") && Decode(json, x + 3) == Some(r)
    ensures Weight(r) <= 7
  {
    hide StandsAt, Decode;
    assert "" + MID == "\",\"" + ("content\"" + ":\"");
    StandsAtParts(json, x, "\",\"", "content\"" + ":\"");
    StandsAtParts(json, x + 3, "content\"", ":\"");
    assert "content\"" == "content" + "\"";
    DecodePlain(json, x + 3, "content");
    WeightWithoutBackslash("content");
  }

  lemma {:induction false} WeightWithoutBackslash(s: string)
    requires '\\' !in s
    ensures Weight(s) == |s|
  {
    if s != "" {
      WeightWithoutBackslash(s[1..]);
    }
  }

  lemma DecodeAtKey(json: string, x: nat, r: string)
    requires RoleRest(json, x, "") && Decode(json, x + 2) == Some(r)
    ensures r == ""
  {
    hide StandsAt, Decode;
    RoleRestChars(json, x, "");
    assert json[x + 0 + 1] == MID[1] == ',' && json[x + 0 + 2] == MID[2] == '"';
    DecodeUnfold(json, x + 2);
  }

  /** What is decoded after a numeric escape that has eaten the closing quote. */
  lemma AfterOverrun(json: string, x: nat, s: string, r: string)
    requires RoleRest(json, x, s) && 3 <= |s| <= 5 && Decode(json, x + 6) == Some(r)
    ensures Weight(r) <= if |s| == 3 then 7 else 1
  {
    hide StandsAt, Decode, RoleRest;
    RoleRestTail(json, x, s, |s|);
    assert s[|s|..] == "";
    if |s| == 3 {
      DecodeContent(json, x + 3, r);
    } else if |s| == 4 {
      DecodeAtKey(json, x + 4, r);
    } else {
      DecodeComma(json, x + 5);
      WeightOfOne(',');
    }
  }

  lemma NumericOverrun(json: string, x: nat, s: string, out: string, r: string)
    requires RoleRest(json, x, s) && x < |json| && s != "" && s[0] == '\\'
    requires DecodeEscape(json, x) == Some((5, out)) && |s| <= 5
    requires Decode(json, x + 6) == Some(r)
    ensures Weight(out) + Weight(r) < Weight(s)
  {
    hide StandsAt, DecodeEscape, Decode, RoleRest, Slack, Weight;
    RoleRestChars(json, x, s);
    assert json[x + |s| + 0] == MID[0] == '"';
    EscapeSteps(json, x, 5, out);
    assert |s| > 1 && s[1] == json[x + 1] == 'u' && s[0] == json[x + 0];
    WeightOfTwo(s);
    assert Weight(s) >= 8 + (|s| - 2);
    if |s| == 2 {
      NoDigits(json, x, s);
    } else {
      AfterOverrun(json, x, s, r);
      if |s| == 3 {
        OneDigit(json, x, s, out);
      }
    }
  }

  /** Decoding from inside a role never gains weight, and loses some unless the rest of the role is kept. */
  lemma {:induction false} DecodeBound(json: string, x: nat, s: string, r: string)
    requires RoleRest(json, x, s) && x < |json| && Decode(json, x) == Some(r)
    ensures Weight(r) <= Weight(s) + Slack(json, x)
    ensures Slack(json, x) == 0 && !Kept(s) ==> Weight(r) < Weight(s)
    decreases |s|
  {
    hide Decode, StandsAt, RoleRest, DecodeEscape, EndQuote, Kept, EscapeLetter, Weight;
    DecodeUnfold(json, x);
    RoleRestChars(json, x, s);
    EmptyIsKept();
    if s == "" {
      BoundAtEnd(json, x, r);
    } else {
      assert json[x + 0] == s[0];
      if EndQuote(json, x) {
        assert Weight(s) >= |s|;
      } else {
        BoundInside(json, x, s, r);
      }
    }
  }

  lemma EmptyIsKept()
    ensures Kept("") && Weight("") == 0
  {
  }

  lemma {:induction false} BoundInside(json: string, x: nat, s: string, r: string)
    requires RoleRest(json, x, s) && x < |json| && Decode(json, x) == Some(r) && s != "" && !EndQuote(json, x)
    ensures Weight(r) <= Weight(s) + Slack(json, x)
    ensures Slack(json, x) == 0 && !Kept(s) ==> Weight(r) < Weight(s)
    decreases |s|, 0
  {
    hide Decode, StandsAt, RoleRest, DecodeEscape, EndQuote, Kept, EscapeLetter, Weight, Slack;
    DecodeUnfold(json, x);
    RoleRestChars(json, x, s);
    assert json[x + 0] == s[0];
    if s[0] == '\\' && DecodeEscape(json, x).value.0 > 0 {
      var (n, out) := DecodeEscape(json, x).value;
      var r' := Decode(json, x + n + 1).value;
      if n < |s| {
        RoleRestTail(json, x, s, n + 1);
        DecodeBound(json, x + n + 1, s[n + 1..], r');
        EscapeGains(json, x, s, n, out);
        WeightConcat(out, r');
        SlackIsSmall(json, x + n + 1);
      } else {
        OverrunBound(json, x, s, n, out, r');
      }
    } else {
      var r' := Decode(json, x + 1).value;
      RoleRestTail(json, x, s, 1);
      DecodeBound(json, x + 1, s[1..], r');
      NoSlack(json, x, s);
      BoundChar(json, x, s, r');
    }
  }

  lemma SlackIsSmall(json: string, x: nat)
    requires 0 < x < |json|
    ensures Slack(json, x) <= 2
  {
  }

  /** After a character that is decoded as itself no slack is needed. */
  lemma NoSlack(json: string, x: nat, s: string)
    requires RoleRest(json, x, s) && x < |json| && s != ""
    requires s[0] == '\\' ==> DecodeEscape(json, x).Some? && DecodeEscape(json, x).value.0 == 0
    ensures x + 1 < |json| && Slack(json, x + 1) == 0
    ensures s[0] == '\\' ==> |s| > 1 && !EscapeLetter(s[1])
  {
    hide StandsAt;
    RoleRestChars(json, x, s);
    assert json[x + 0] == s[0];
    assert json[x + |s| + 0] == MID[0] == '"';
    if |s| > 1 {
      assert json[x + 1] == s[1];
    }
  }

  // ----- the value of a key inside a role -----

  /** The value after the colon of a key. */
  ghost function ValueFrom(json: string, y: nat): Option<string> {
    var pos := SkipWs(json, y);
    if pos >= |json| then Some("")
    else if json[pos] != '"' then
      if OccursAt(json, "null", pos) || OccursAt(json, "true", pos) || OccursAt(json, "false", pos) then Some("")
      else Some(Bare(json, pos))
    else Decode(json, pos + 1)
  }

  lemma ExtractIsValue(json: string, r: string) returns (k: nat)
    requires ExtractString(json, "role") == Some(r) && r != ""
    ensures OccursAt(json, Needle("role"), k) && ValueFrom(json, k + 7) == Some(r)
  {
    hide Decode, OccursAt, SkipWs, Bare;
    k := Find(json, Needle("role"), 0);
    assert |Needle("role")| == 7;
  }

  lemma {:induction false} SkipStops(json: string, y: nat, e: nat)
    requires y <= e < |json| && json[e] == '"'
    ensures SkipWs(json, y) <= e
    decreases e - y
  {
    if y < e {
      SkipStops(json, y + 1, e);
    }
  }

  lemma {:induction false} BareBound(json: string, x: nat, s: string)
    requires RoleRest(json, x, s)
    ensures Weight(Bare(json, x)) <= Weight(s) + 1
    decreases |s|
  {
    hide StandsAt, RoleRest;
    RoleRestChars(json, x, s);
    if s == "" {
      assert json[x + 0 + 0] == MID[0] == '"' && json[x + 0 + 1] == MID[1] == ',';
      assert Bare(json, x + 1) == "" && Bare(json, x) == ['"'] + "";
      assert ['"'] + "" == ['"'];
      WeightOfOne('"');
    } else {
      assert json[x + 0] == s[0];
      RoleRestTail(json, x, s, 1);
      BareBound(json, x + 1, s[1..]);
      var rest := Bare(json, x + 1);
      assert ([s[0]] + rest)[1..] == rest;
    }
  }

  lemma ValueInside(json: string, y: nat, s: string, r: string)
    requires RoleRest(json, y, s) && ValueFrom(json, y) == Some(r)
    ensures Weight(r) <= Weight(s) + 1
  {
    hide StandsAt, RoleRest, Decode, SkipWs, Bare, OccursAt, Weight;
    RoleRestChars(json, y, s);
    assert json[y + |s| + 0] == MID[0] == '"';
    SkipStops(json, y, y + |s|);
    var pos := SkipWs(json, y);
    var rest := s[pos - y..];
    RoleRestTail(json, y, s, pos - y);
    WeightOfSuffix(s, pos - y);
    EmptyIsKept();
    if json[pos] != '"' {
      BareBound(json, pos, rest);
    } else if rest == "" {
      DecodeComma(json, pos);
      WeightOfOne(',');
    } else {
      RoleRestTail(json, pos, rest, 1);
      RoleRestChars(json, pos + 1, rest[1..]);
      WeightOfSuffix(rest, 1);
      DecodeBound(json, pos + 1, rest[1..], r);
    }
  }

  // ----- the keys of a row -----

  /** `"role":` stands in a row as its key, and otherwise inside the role. */
  lemma KeysOfRow(json: string, o: nat, m: Message, last: bool, k: nat)
    requires StandsAt(json, o, Row(m, last)) && o <= k < NextRow(o, m, last) && OccursAt(json, Needle("role"), k)
    ensures k == o + 3 || (o + 10 <= k && k + 7 <= RoleClose(o, m))
  {
    hide Row, Escape, OccursAt, StandsAt;
    RowChars(json, o, m, last);
    NeedleRoleIsRole(json, k);
    RoleChars(json, k);
    AnyQuoteOfRow(json, o, m, last, k);
    QuotesBeforeColon(json, o, m, last, k);
  }

  lemma QuotesBeforeColon(json: string, o: nat, m: Message, last: bool, k: nat)
    requires StandsAt(json, o, Row(m, last)) && o <= k < NextRow(o, m, last) && k + 6 < |json|
    requires json[k + 1] == 'r' && json[k + 2] == 'o' && json[k + 3] == 'l' && json[k + 4] == 'e'
    requires json[k] == json[k + 5] == '"' && json[k + 6] == ':'
    ensures k == o + 3 || (o + 10 <= k && k + 7 <= RoleClose(o, m))
  {
    hide Row, Escape, OccursAt, StandsAt;
    RowChars(json, o, m, last);
    var rc, co, cc := RoleClose(o, m), ContentOpen(o, m), ContentClose(o, m);
    AnyQuoteOfRow(json, o, m, last, k);
    if k + 5 <= cc {
      AnyQuoteOfRow(json, o, m, last, k + 5);
      if k == rc + 2 || k + 5 == rc + 2 {
        assert json[rc + 3] == 'c';
      }
    }
  }

  // ----- what a role can be read as -----

  /** A kept role is read as itself, and from any other role only lighter texts are read. */
  ghost predicate Carries(role: string, r: string) {
    if Kept(role) then r == role else Weight(r) < Weight(role)
  }

  lemma RoleRestAt(json: string, o: nat, m: Message, last: bool, a: nat, x: nat)
    requires StandsAt(json, o, Row(m, last)) && o + 11 <= x <= RoleClose(o, m) && a < x
    ensures a <= |json| && RoleRest(json[a..], x - a, m.role[x - o - 11..])
  {
    hide Row, Escape;
    RowParts(json, o, m, last);
    var rc, t := RoleClose(o, m), m.role[x - o - 11..];
    assert json[o + 11..rc] == m.role && json[rc..rc + 13] == MID;
    assert json[x..rc] == json[o + 11..rc][x - o - 11..] == t;
    assert json[x..rc + 13] == json[x..rc] + json[rc..rc + 13];
    assert json[a..][x - a..x - a + |t + MID|] == json[x..rc + 13];
  }

  /** The value of a row's key. */
  lemma KeyCarries(json: string, o: nat, m: Message, last: bool, a: nat, r: string)
    requires StandsAt(json, o, Row(m, last)) && a <= o + 3 && a <= |json|
    requires ValueFrom(json[a..], o + 10 - a) == Some(r)
    ensures Carries(m.role, r)
  {
    hide Row, Escape, Decode, StandsAt, RoleRest, Weight, Kept, OccursAt, Bare;
    RowChars(json, o, m, last);
    var t, x := json[a..], o + 11 - a;
    assert t[x - 1] == json[o + 10] == '"';
    assert SkipWs(t, x - 1) == x - 1 && Decode(t, x) == Some(r);
    RoleRestAt(json, o, m, last, a, o + 11);
    assert m.role[0..] == m.role;
    RoleRestChars(t, x, m.role);
    if Kept(m.role) {
      KeptRoleIsRead(t, x, m.role);
    } else {
      DecodeBound(t, x, m.role, r);
    }
  }

  lemma KeptRoleIsRead(t: string, x: nat, s: string)
    requires RoleRest(t, x, s) && Kept(s) && x < |t| && t[x - 1] == '"'
    ensures Decode(t, x) == Some(s)
  {
    hide Kept, StandsAt, Decode;
    assert MID == "\"" + MID[1..];
    assert s + MID == (s + "\"") + MID[1..];
    StandsAtParts(t, x, s + "\"", MID[1..]);
    DecodePlain(t, x, s);
  }

  /** The value of a key that stands inside a role. */
  lemma InnerCarries(json: string, o: nat, m: Message, last: bool, a: nat, k: nat, r: string)
    requires StandsAt(json, o, Row(m, last)) && OccursAt(json, Needle("role"), k)
    requires a <= k && a <= |json| && o + 10 <= k && k + 7 <= RoleClose(o, m)
    requires ValueFrom(json[a..], k + 7 - a) == Some(r)
    ensures Carries(m.role, r)
  {
    hide Row, Escape, StandsAt, RoleRest, Weight, OccursAt, ValueFrom;
    RoleRestAt(json, o, m, last, a, k + 7);
    ValueInside(json[a..], k + 7 - a, m.role[k + 7 - o - 11..], r);
    WeightOfSuffix(m.role, k + 7 - o - 11);
    QuoteInRole(json, o, m, last, k);
  }

  lemma QuoteInRole(json: string, o: nat, m: Message, last: bool, k: nat)
    requires StandsAt(json, o, Row(m, last)) && OccursAt(json, Needle("role"), k)
    requires o + 10 <= k && k + 7 <= RoleClose(o, m)
    ensures !Kept(m.role)
  {
    hide Row, Escape, StandsAt, OccursAt;
    RowParts(json, o, m, last);
    NeedleRoleIsRole(json, k);
    RoleChars(json, k);
    StandsChar(json, o + 11, m.role, k + 5 - o - 11);
    assert !KeptAt(m.role, k + 5 - o - 11);
  }

  lemma RowCarries(json: string, o: nat, m: Message, last: bool, a: nat, k: nat, r: string)
    requires StandsAt(json, o, Row(m, last)) && o <= k < NextRow(o, m, last) && OccursAt(json, Needle("role"), k)
    requires a <= k && a <= |json| && ValueFrom(json[a..], k + 7 - a) == Some(r)
    ensures Carries(m.role, r)
  {
    hide Row, Escape, StandsAt, OccursAt, ValueFrom, Carries;
    KeysOfRow(json, o, m, last, k);
    if k == o + 3 {
      KeyCarries(json, o, m, last, a, r);
    } else {
      InnerCarries(json, o, m, last, a, k, r);
    }
  }

  // ----- the whole file -----

  lemma NoKeyAfterRows(json: string, o: nat, k: nat)
    requires RowsFrom(json, o, []) && o <= k
    ensures !OccursAt(json, Needle("role"), k)
  {
    hide OccursAt;
    LastLine(json, o, Needle("role"));
    if k > |json| && OccursAt(json, Needle("role"), k) {
      NeedleRoleIsRole(json, k);
    }
  }

  lemma {:induction false} RowsCarry(json: string, o: nat, msgs: seq<Message>, a: nat, k: nat, r: string)
    requires RowsFrom(json, o, msgs) && o <= k && OccursAt(json, Needle("role"), k)
    requires a <= k && a <= |json| && ValueFrom(json[a..], k + 7 - a) == Some(r)
    ensures exists i :: 0 <= i < |msgs| && Carries(msgs[i].role, r)
    decreases |msgs|
  {
    hide Row, StandsAt, OccursAt, ValueFrom, Carries, RowsFrom, NextRow;
    if msgs == [] {
      NoKeyAfterRows(json, o, k);
    } else {
      var nx := NextRow(o, msgs[0], |msgs| == 1);
      FirstOfRows(json, o, msgs);
      if k < nx {
        RowCarries(json, o, msgs[0], |msgs| == 1, a, k, r);
      } else {
        RowsCarry(json, nx, msgs[1..], a, k, r);
        var i :| 0 <= i < |msgs[1..]| && Carries(msgs[1..][i].role, r);
        assert Carries(msgs[i + 1].role, r);
      }
    }
  }

  /** Every loaded role is non-empty and is the value of some key. */
  lemma {:induction false} LoadedRole(json: string, pos: nat, l: seq<Message>, j: nat) returns (a: nat, k: nat)
    requires Load(json, pos) == Some(l) && j < |l|
    ensures l[j].role != "" && a <= k && a <= |json| && OccursAt(json, Needle("role"), k)
    ensures ValueFrom(json[a..], k + 7 - a) == Some(l[j].role)
    decreases |json| - pos
  {
    hide *;
    var p, m, rest := LoadHead(json, pos, l);
    if j < |Pushed(m)| {
      PushedIs(m);
      assert l[j] == Pushed(m)[j];
      a := p - 1;
      k := ExtractIsValue(json[a..], m.role);
      OccursInSuffix(json, Needle("role"), a, k);
      k := a + k;
    } else {
      a, k := LoadedRole(json, p + 6, rest, j - |Pushed(m)|);
      assert rest[j - |Pushed(m)|] == l[j];
    }
  }

  lemma PushedIs(m: Message)
    ensures forall i :: 0 <= i < |Pushed(m)| ==> Pushed(m)[i].role == m.role && m.role != ""
  {
    hide Unescape;
    if m.role == "" {
      assert Pushed(m) == [];
    } else {
      assert Pushed(m) == [Message(m.role, Unescape(m.content))];
    }
  }

  lemma LoadHead(json: string, pos: nat, l: seq<Message>) returns (p: nat, m: Message, rest: seq<Message>)
    requires Load(json, pos) == Some(l) && l != []
    ensures pos <= p && 0 < p <= |json| && p + 6 <= |json|
    ensures ExtractString(json[p - 1..], "role") == Some(m.role)
    ensures Load(json, p + 6) == Some(rest) && l == Pushed(m) + rest
  {
    hide ExtractString, Pushed, OccursAt, Find, ReadAt, Load;
    LoadUnfold(json, pos, l);
    p := Find(json, ROLE, pos);
    RoleChars(json, p);
    var read, loaded := ReadAt(json, p), Load(json, p + 6);
    m, rest := read.value, loaded.value;
    assert read == Some(m) && loaded == Some(rest);
    ReadAtIsExtract(json, p, m);
  }

  lemma LoadUnfold(json: string, pos: nat, l: seq<Message>)
    requires Load(json, pos) == Some(l) && l != []
    ensures var p := Find(json, ROLE, pos);
            && pos <= p <= |json| && OccursAt(json, ROLE, p) && ReadAt(json, p).Some? && Load(json, p + 6).Some?
            && l == Pushed(ReadAt(json, p).value) + Load(json, p + 6).value
  {
    hide ReadAt, Pushed;
  }

  lemma ReadAtIsExtract(json: string, p: nat, m: Message)
    requires p <= |json| && ReadAt(json, p) == Some(m)
    ensures 0 < p && ExtractString(json[p - 1..], "role") == Some(m.role)
  {
    hide ExtractString;
  }

  /** The heaviest of the roles that are not kept. */
  lemma {:induction false} Heaviest(msgs: seq<Message>, n: nat) returns (j: nat)
    requires n <= |msgs| && exists i :: 0 <= i < n && !Kept(msgs[i].role)
    ensures j < n && !Kept(msgs[j].role)
    ensures forall i :: 0 <= i < n && !Kept(msgs[i].role) ==> Weight(msgs[i].role) <= Weight(msgs[j].role)
  {
    hide Kept, Weight;
    if exists i :: 0 <= i < n - 1 && !Kept(msgs[i].role) {
      j := Heaviest(msgs, n - 1);
      if !Kept(msgs[n - 1].role) && Weight(msgs[n - 1].role) > Weight(msgs[j].role) {
        j := n - 1;
      }
    } else {
      j := n - 1;
    }
  }

  lemma LoadedCarries(msgs: seq<Message>, j: nat)
    requires Load(Save(msgs), 0) == Some(msgs) && j < |msgs|
    ensures msgs[j].role != "" && exists i :: 0 <= i < |msgs| && Carries(msgs[i].role, msgs[j].role)
  {
    hide Load, Rows, ValueFrom, OccursAt, Carries;
    var json := Save(msgs);
    var a, k := LoadedRole(json, 0, msgs, j);
    Mismatch(json, Needle("role"), 0, 0);
    Mismatch(json, Needle("role"), 1, 0);
    assert json[2..] == Rows(msgs) + "]\n";
    RowsCarry(json, 2, msgs, a, k, msgs[j].role);
  }

  /** A conversation comes back only if every role is read back as it was written. */
  lemma RolesMustBeKept(msgs: seq<Message>)
    requires Load(Save(msgs), 0) == Some(msgs)
    ensures forall i :: 0 <= i < |msgs| ==> PlainRole(msgs[i].role)
  {
    hide Load, Save, Kept, Weight;
    forall i: nat | i < |msgs| ensures msgs[i].role != "" {
      LoadedCarries(msgs, i);
    }
    if exists i :: 0 <= i < |msgs| && !Kept(msgs[i].role) {
      var j := Heaviest(msgs, |msgs|);
      LoadedCarries(msgs, j);
    }
  }

  /** Saving and loading is the identity exactly when every role is non-empty and kept, no content holds a short
      escape, and no message before the last has the role `role` or a content that ends in `"role` or is `role`. */
  lemma SessionRoundTrip(msgs: seq<Message>)
    ensures Load(Save(msgs), 0) == Some(msgs) <==>
            && (forall i :: 0 <= i < |msgs| ==> PlainRole(msgs[i].role))
            && (forall i :: 0 <= i < |msgs| ==> !HasShortEscape(msgs[i].content))
            && (forall i :: 0 <= i < |msgs| - 1 ==> !Echoes(msgs[i]))
  {
    hide *;
    if Load(Save(msgs), 0) == Some(msgs) {
      RolesMustBeKept(msgs);
    }
    if forall i :: 0 <= i < |msgs| ==> PlainRole(msgs[i].role) {
      PlainRoundTrip(msgs);
    }
  }

  // ----- where the round trip fails -----

  /** A content `role` before the last message: the next message is loaded twice. */
  lemma EchoIsLoaded()
    ensures var first, second := Message("user", "role"), Message("assistant", "yes");
            Load(Save([first, second]), 0) == Some([first, second, second])
  {
    hide Load, Save, Kept, Unescape, HasShortEscape;
    var first, second := Message("user", "role"), Message("assistant", "yes");
    SimpleRoles();
    UnescapeFixes("role");
    UnescapeFixes("yes");
    NoBackslash("role");
    NoBackslash("yes");
    assert EndsInRole("role");
    var msgs := [first, second];
    assert msgs[1..] == [second] && [second][1..] == [];
    LoadOfSave(msgs);
    assert Expected([second]) == [second];
    assert Own(msgs) == [first] && RoleEcho(msgs) == [] && ContentEcho(msgs) == [second];
    assert Expected(msgs) == [first] + ([] + ([second] + [second])) == [first, second, second];
  }

  lemma SimpleRoles()
    ensures PlainRole("user") && PlainRole("assistant")
  {
  }

  lemma NoBackslash(s: string)
    requires '\\' !in s
    ensures !HasShortEscape(s)
  {
  }

  /** A content with a backslash before `n`: it is loaded as a newline. */
  lemma BackslashIsLost()
    ensures Load(Save([Message("user", "\\n")]), 0) == Some([Message("user", "\n")])
  {
    hide Load, Save, Kept;
    SimpleRoles();
    var msgs := [Message("user", "\\n")];
    assert msgs[1..] == [];
    LoadOfSave(msgs);
    assert "\\n"[2..] == "" && Unescape("\\n") == "\n";
    assert Expected(msgs) == [Message("user", "\n")] + ([] + ([] + [])) == [Message("user", "\n")];
  }

  /** A role with a quote does not come back. */
  lemma QuotedRoleIsLost()
    ensures Load(Save([Message("a\"b", "x")]), 0) != Some([Message("a\"b", "x")])
  {
    hide Load, Save;
    assert !KeptAt("a\"b", 1);
    assert !PlainRole([Message("a\"b", "x")][0].role);
    SessionRoundTrip([Message("a\"b", "x")]);
  }
}
