/** What the flowchart parser of src/tui/mermaid/mermaid.cpp reads from well-formed text: tokens joined by arrows with
    or without labels, the names and captions of the tokens' nodes, and the edges between them. */
module FlowChains {
  import opened FlowGraph
  import opened FlowText
  import opened Text
  import opened Walks
  import opened Wrappers

  // ----- trimming -----

  const BLANKS := {' ', '\t', '\r', '\n'}

  ghost predicate Blank(s: string) {
    forall k :: 0 <= k < |s| ==> s[k] in BLANKS
  }

  /** A text without blanks at its ends. */
  ghost predicate Trimmed(s: string) {
    s != "" ==> s[0] !in BLANKS && s[|s| - 1] !in BLANKS
  }

  lemma TrimmedEnds(s: string)
    requires Trimmed(s) && s != ""
    ensures !IsSpace(s[0]) && !IsSpace(s[|s| - 1])
  {
  }

  lemma {:induction false} LeftTrimmed(blanks: string, s: string)
    requires Blank(blanks) && (s == "" || !IsSpace(s[0]))
    ensures TrimLeft(blanks + s) == s
    decreases |blanks|
  {
    if blanks == "" {
      assert blanks + s == s;
    } else {
      assert (blanks + s)[1..] == blanks[1..] + s;
      LeftTrimmed(blanks[1..], s);
    }
  }

  lemma {:induction false} RightTrimmed(s: string, blanks: string)
    requires Blank(blanks) && (s == "" || !IsSpace(s[|s| - 1]))
    ensures TrimRight(s + blanks) == s
    decreases |blanks|
  {
    if blanks == "" {
      assert s + blanks == s;
    } else {
      var t := s + blanks;
      assert t[..|t| - 1] == s + blanks[..|blanks| - 1];
      RightTrimmed(s, blanks[..|blanks| - 1]);
    }
  }

  lemma TrimIs(left: string, s: string, right: string)
    requires Blank(left) && Blank(right) && Trimmed(s)
    ensures Trim(left + s + right) == s
  {
    hide Blank, Trimmed, TrimLeft, TrimRight;
    assert left + s + right == left + (s + right);
    if s == "" {
      OnlyBlanks(left, right);
    } else {
      TrimmedEnds(s);
      LeftTrimmed(left, s + right);
      RightTrimmed(s, right);
    }
  }

  lemma OnlyBlanks(left: string, right: string)
    requires Blank(left) && Blank(right)
    ensures Trim(left + "" + right) == ""
  {
    var all := left + "" + right;
    assert all + "" == all && Blank(all);
    LeftTrimmed(all, "");
  }

  // ----- chains -----

  /** What stands between two tokens: an arrow with blanks around it, and perhaps a label. */
  datatype Link = Link(left: string, right: string, note: Option<string>, gap: string)

  ghost predicate LegalLink(k: Link) {
    && Blank(k.left) && Blank(k.right) && Blank(k.gap)
    && (k.note.Some? ==> '|' !in k.note.value)
  }

  ghost function LinkText(k: Link): string {
    k.left + "-->" + k.right + LabelText(k)
  }

  ghost function LabelText(k: Link): string {
    match k.note
    case None => ""
    case Some(l) => "|" + l + "|" + k.gap
  }

  /** A node token: no blanks at its ends, no bar at its start, no arrow in it. */
  ghost predicate IsToken(t: string) {
    t != "" && Trimmed(t) && t[0] != '|' && forall k :: !OccursAt(t, "-->", k)
  }

  ghost predicate LegalChain(tokens: seq<string>, links: seq<Link>) {
    && |tokens| == |links| + 1
    && (forall k :: 0 <= k < |tokens| ==> IsToken(tokens[k]))
    && forall k :: 0 <= k < |links| ==> LegalLink(links[k])
  }

  ghost function ChainText(tokens: seq<string>, links: seq<Link>): string
    requires |tokens| == |links| + 1
    decreases |links|
  {
    if links == [] then tokens[0] else tokens[0] + LinkText(links[0]) + ChainText(tokens[1..], links[1..])
  }

  lemma LegalTail(tokens: seq<string>, links: seq<Link>)
    requires LegalChain(tokens, links)
    ensures |tokens| == |links| + 1 && IsToken(tokens[0])
    ensures links != [] ==> LegalLink(links[0]) && LegalChain(tokens[1..], links[1..])
  {
    hide IsToken, LegalLink;
  }

  lemma TokenStarts(t: string)
    requires IsToken(t)
    ensures t != "" && !IsSpace(t[0]) && !IsSpace(t[|t| - 1]) && t[0] != '|' && Trimmed(t)
  {
    TrimmedEnds(t);
  }

  /** A chain starts as its first token does and ends as its last. */
  lemma {:induction false} ChainEnds(tokens: seq<string>, links: seq<Link>)
    requires LegalChain(tokens, links)
    ensures var s := ChainText(tokens, links); s != "" && Trimmed(s) && s[0] != '|'
    decreases |links|
  {
    hide IsToken, LegalLink, LinkText, IsSpace, LegalChain, Trimmed;
    LegalTail(tokens, links);
    TokenStarts(tokens[0]);
    if links != [] {
      var rest := ChainText(tokens[1..], links[1..]);
      ChainEnds(tokens[1..], links[1..]);
      JoinedEnds(tokens[0], LinkText(links[0]), rest);
    }
  }

  lemma JoinedEnds(a: string, b: string, c: string)
    requires a != "" && c != "" && Trimmed(a) && Trimmed(c)
    ensures Trimmed(a + b + c) && (a + b + c)[0] == a[0] && a + b + c != ""
  {
    hide Blank;
    var s := a + b + c;
    assert s[|s| - 1] == c[|c| - 1];
  }

  /** The first arrow of a chain stands behind its first token. */
  lemma FirstArrow(blanks: string, t: string, left: string, rest: string)
    requires Blank(blanks) && Blank(left) && forall k :: !OccursAt(t, "-->", k)
    ensures Find(blanks + t + left + "-->" + rest, ARROW, 0) == |blanks + t + left|
  {
    var front := blanks + t + left;
    var s := front + "-->" + rest;
    var p := |front|;
    assert s[p..p + 3] == "-->";
    forall k: nat | k < p ensures !OccursAt(s, ARROW, k) {
      if OccursAt(s, ARROW, k) {
        EarlyArrow(blanks, t, left, rest, k);
      }
    }
    FindIs(s, ARROW, 0, p);
  }

  lemma EarlyArrow(blanks: string, t: string, left: string, rest: string, k: nat)
    requires Blank(blanks) && Blank(left) && k < |blanks + t + left|
    requires OccursAt(blanks + t + left + "-->" + rest, ARROW, k)
    ensures OccursAt(t, "-->", k - |blanks|)
  {
    var s := blanks + t + left + "-->" + rest;
    ArrowChars(s, k);
    FrontChars(blanks, t, left, rest);
    assert |blanks| <= k && k + 3 <= |blanks + t|;
    var i := k - |blanks|;
    assert t[i..i + 3] == s[k..k + 3];
  }

  lemma ArrowChars(s: string, k: nat)
    requires OccursAt(s, ARROW, k)
    ensures k + 3 <= |s| && s[k] == '-' && s[k + 1] == '-' && s[k + 2] == '>'
  {
    OccursChars(s, ARROW, k);
    assert s[k + 0] == '-' && s[k + 1] == '-' && s[k + 2] == '>';
  }

  /** The characters up to the arrow, outside the token. */
  lemma FrontChars(blanks: string, t: string, left: string, rest: string)
    requires Blank(blanks) && Blank(left)
    ensures var s, p, e := blanks + t + left + "-->" + rest, |blanks + t|, |blanks + t + left|;
            && (forall k :: 0 <= k < |blanks| || p <= k < e ==> s[k] != '-' && s[k] != '>')
            && s[e] == '-' && s[e + 1] == '-'
  {
    var s, p, e := blanks + t + left + "-->" + rest, |blanks + t|, |blanks + t + left|;
    forall k | 0 <= k < |blanks| || p <= k < e ensures s[k] != '-' && s[k] != '>' {
      assert s[k] == if k < |blanks| then blanks[k] else left[k - p];
    }
  }

  lemma NoLaterArrow(blanks: string, t: string)
    requires Blank(blanks) && forall k :: !OccursAt(t, "-->", k)
    ensures Find(blanks + t, ARROW, 0) == -1
  {
    var s := blanks + t;
    forall k: nat ensures !OccursAt(s, ARROW, k) {
      if OccursAt(s, ARROW, k) {
        ArrowInToken(blanks, t, k);
      }
    }
    NotFound(s, ARROW, 0);
  }

  lemma ArrowInToken(blanks: string, t: string, k: nat)
    requires Blank(blanks) && OccursAt(blanks + t, ARROW, k)
    ensures OccursAt(t, "-->", k - |blanks|)
  {
    var s := blanks + t;
    ArrowChars(s, k);
    FrontChars(blanks, t, "", "");
    assert s + "" + "-->" + "" == s + "-->";
    assert |blanks| <= k;
    assert t[k - |blanks|..k - |blanks| + 3] == s[k..k + 3];
  }

  /** After the arrow the label and what precedes it are dropped. */
  lemma LabelDropped(k: Link, rest: string)
    requires LegalLink(k) && rest != "" && Trimmed(rest) && rest[0] != '|'
    ensures DropLabel(k.right + LabelText(k) + rest) == (if k.note.None? then k.right else k.gap) + rest
  {
    hide Trim, Find, Blank;
    match k.note
    case None =>
      assert k.right + LabelText(k) + rest == k.right + rest + "" == k.right + rest;
      TrimIs(k.right, rest, "") by { EmptyIsBlank(); }
    case Some(l) =>
      var body := "|" + l + "|" + k.gap + rest;
      assert k.right + LabelText(k) + rest == k.right + body + "" == k.right + body;
      BarStarts(l, k.gap, rest);
      TrimIs(k.right, body, "") by { EmptyIsBlank(); }
      FindChar(body, '|', 1, |l| + 1);
      assert ['|'] == "|" && body[|l| + 2..] == k.gap + rest;
  }

  lemma EmptyIsBlank()
    ensures Blank("")
  {
  }

  lemma BarStarts(l: string, gap: string, rest: string)
    requires '|' !in l && rest != "" && Trimmed(rest)
    ensures var body := "|" + l + "|" + gap + rest;
            && body != "" && Trimmed(body) && body[0] == '|' && body[|l| + 1] == '|'
            && forall i :: 1 <= i < |l| + 1 ==> body[i] != '|'
  {
    var body := "|" + l + "|" + gap + rest;
    assert body[|body| - 1] == rest[|rest| - 1];
    forall i | 1 <= i < |l| + 1 ensures body[i] != '|' {
      assert body[i] == l[i - 1];
    }
  }

  /** The parser reads exactly the tokens, whatever blanks and labels stand between them. */
  lemma {:induction false} ChainReads(blanks: string, tokens: seq<string>, links: seq<Link>)
    requires LegalChain(tokens, links) && Blank(blanks)
    ensures Chain(blanks + ChainText(tokens, links)) == tokens
    decreases |links|
  {
    hide *;
    LegalTail(tokens, links);
    TokenStarts(tokens[0]);
    TokenHasNoArrow(tokens[0]);
    if links == [] {
      LastToken(blanks, tokens[0]);
      OneToken(tokens, links);
    } else {
      var k, more, ks := links[0], tokens[1..], links[1..];
      var rest := ChainText(more, ks);
      ChainEnds(more, ks);
      LabelDropped(k, rest);
      LinkBlanks(k);
      var gap := if k.note.None? then k.right else k.gap;
      ChainReads(gap, more, ks);
      FirstToken(blanks, tokens[0], k, rest);
      ChainUnfold(tokens, links);
      assert tokens == [tokens[0]] + more;
      assert blanks + (tokens[0] + LinkText(k) + rest) == blanks + tokens[0] + LinkText(k) + rest;
    }
  }

  lemma TokenHasNoArrow(t: string)
    requires IsToken(t)
    ensures forall k :: !OccursAt(t, "-->", k)
  {
  }

  lemma LinkBlanks(k: Link)
    requires LegalLink(k)
    ensures Blank(k.left) && Blank(k.right) && Blank(k.gap)
  {
  }

  lemma OneToken(tokens: seq<string>, links: seq<Link>)
    requires |tokens| == |links| + 1 && links == []
    ensures ChainText(tokens, links) == tokens[0] && tokens == [tokens[0]]
  {
  }

  lemma ChainUnfold(tokens: seq<string>, links: seq<Link>)
    requires |tokens| == |links| + 1 && links != []
    ensures ChainText(tokens, links) == tokens[0] + LinkText(links[0]) + ChainText(tokens[1..], links[1..])
  {
  }

  lemma LastToken(blanks: string, t: string)
    requires Blank(blanks) && t != "" && Trimmed(t) && forall k :: !OccursAt(t, "-->", k)
    ensures Chain(blanks + t) == [t]
  {
    hide Find, Trim, Blank, Trimmed;
    NoLaterArrow(blanks, t);
    TrimIs(blanks, t, "") by { EmptyIsBlank(); }
    assert blanks + t + "" == blanks + t;
  }

  lemma FirstToken(blanks: string, t: string, k: Link, rest: string)
    requires Blank(blanks) && Blank(k.left) && t != "" && Trimmed(t) && forall i :: !OccursAt(t, "-->", i)
    ensures Chain(blanks + t + LinkText(k) + rest) == [t] + Chain(DropLabel(k.right + LabelText(k) + rest))
  {
    hide *;
    var after := k.right + LabelText(k) + rest;
    var front := blanks + t + k.left;
    LinkIs(k);
    FirstArrow(blanks, t, k.left, after);
    TrimIs(blanks, t, k.left);
    assert blanks + t + LinkText(k) + rest == front + "-->" + after;
    ArrowSplits(front + "-->" + after, front, after, t);
  }

  lemma ArrowSplits(line: string, front: string, after: string, t: string)
    requires line == front + "-->" + after && Find(line, ARROW, 0) == |front| && Trim(front) == t != ""
    ensures Chain(line) == [t] + Chain(DropLabel(after))
  {
    hide Find, Trim, DropLabel;
    assert line[..|front|] == front && line[|front| + 3..] == after;
  }

  // ----- arrows without tokens, labels without end -----

  /** An arrow before the first token, or between two arrows, makes no token. */
  lemma ArrowsOnly(blanks: string, k: Link, tokens: seq<string>, links: seq<Link>)
    requires LegalChain(tokens, links) && LegalLink(k) && Blank(blanks)
    ensures Chain(blanks + "-->" + k.right + LabelText(k) + ChainText(tokens, links)) == tokens
  {
    hide *;
    EmptyIsBlank();
    LinkBlanks(k);
    ChainEnds(tokens, links);
    LegalTail(tokens, links);
    var rest := ChainText(tokens, links);
    LabelDropped(k, rest);
    ChainReads(if k.note.None? then k.right else k.gap, tokens, links);
    var after := k.right + LabelText(k) + rest;
    NoArrowInBlank();
    FirstArrow(blanks, "", "", after);
    assert blanks + "" + "" == blanks;
    BlankChain(blanks, after);
    assert blanks + "-->" + after == blanks + "-->" + k.right + LabelText(k) + rest;
  }

  lemma NoArrowInBlank()
    ensures forall i :: !OccursAt("", "-->", i)
  {
  }

  lemma BlankChain(blanks: string, after: string)
    requires Blank(blanks) && Find(blanks + "-->" + after, ARROW, 0) == |blanks|
    ensures Chain(blanks + "-->" + after) == Chain(DropLabel(after))
  {
    hide Find, Trim, DropLabel, Blank;
    var line := blanks + "-->" + after;
    assert line[..|blanks|] == blanks && line[|blanks| + 3..] == after;
    OnlyBlanks(blanks, "") by { EmptyIsBlank(); }
    assert blanks + "" + "" == blanks;
    assert [] + Chain(DropLabel(after)) == Chain(DropLabel(after));
  }

  /** An arrow behind the last token makes no token either. */
  lemma TrailingArrow(blanks: string, t: string, left: string, right: string)
    requires IsToken(t) && Blank(blanks) && Blank(left) && Blank(right)
    ensures Chain(blanks + t + left + "-->" + right) == [t]
  {
    hide *;
    TokenStarts(t);
    TokenHasNoArrow(t);
    EmptyIsBlank();
    var k := Link(left, right, None, "");
    OnlyBlanks(right, "");
    assert right + "" + "" == right;
    NothingDropped(k, right);
    LinkIs(k);
    FirstToken(blanks, t, k, "");
    assert right + "" + "" == right;
    BlankTail(right);
    assert blanks + t + (left + "-->" + right + "") + "" == blanks + t + left + "-->" + right;
    assert [t] + [] == [t];
  }

  lemma LinkIs(k: Link)
    ensures LinkText(k) == k.left + "-->" + k.right + LabelText(k) && (k.note.None? ==> LabelText(k) == "")
  {
  }

  lemma NothingDropped(k: Link, right: string)
    requires Trim(right) == ""
    ensures DropLabel(right) == right
  {
  }

  lemma BlankTail(right: string)
    requires Blank(right) && Trim(right) == ""
    ensures Chain(right) == []
  {
    hide Trim, Blank, Find;
    NoArrowInBlank();
    NoLaterArrow(right, "");
    assert right + "" == right;
  }

  /** A label that is not closed is part of the token. */
  lemma UnclosedLabel(blanks: string, t: string, left: string, right: string, u: string)
    requires IsToken(t) && Blank(blanks) && Blank(left) && Blank(right)
    requires Trimmed("|" + u) && '|' !in u && forall i :: !OccursAt("|" + u, "-->", i)
    ensures Chain(blanks + t + left + "-->" + right + ("|" + u)) == [t, "|" + u]
  {
    hide *;
    TokenStarts(t);
    TokenHasNoArrow(t);
    EmptyIsBlank();
    var k, body := Link(left, right, None, ""), "|" + u;
    LinkIs(k);
    FirstToken(blanks, t, k, body);
    assert blanks + t + (left + "-->" + right + "") + body == blanks + t + left + "-->" + right + body;
    assert right + "" + body == right + body;
    BarKept(right, u);
    LastToken(right, body);
  }

  lemma BarKept(right: string, u: string)
    requires Blank(right) && Trimmed("|" + u) && '|' !in u
    ensures DropLabel(right + ("|" + u)) == right + ("|" + u)
  {
    hide Trim, Blank;
    var body := "|" + u;
    TrimIs(right, body, "") by { EmptyIsBlank(); }
    assert right + body + "" == right + body;
    forall k: nat | 1 <= k ensures !OccursAt(body, "|", k) {
      if k < |body| {
        assert body[k] == u[k - 1];
        Mismatch(body, "|", k, 0);
      }
    }
    NotFound(body, "|", 1);
  }

  // ----- node tokens -----

  const BRACKETS := {('[', ']'), ('{', '}'), ('(', ')')}

  ghost predicate NoOpen(id: string) {
    '[' !in id && '{' !in id && '(' !in id
  }

  /** The caption in the brackets; an inner pair of square brackets is taken off. */
  ghost function Unwrapped(caption: string): string {
    if |caption| >= 2 && caption[0] == '[' && caption[|caption| - 1] == ']' then caption[1..|caption| - 1] else caption
  }

  /** A token without brackets is its own name and caption. */
  lemma {:induction false} BareToken(t: string)
    requires NoOpen(t)
    ensures TokenId(t) == t && TokenCaption(t) == t && OpenIndex(t, 0) == |t|
  {
    var d := OpenIndex(t, 0);
    assert t[..|t|] == t && t + "" == t;
    if d < |t| {
      CharOfFront(t, "", d);
    }
  }

  lemma CharOfFront(id: string, rest: string, d: nat)
    requires d < |id|
    ensures (id + rest)[d] == id[d] && id[d] in id
  {
  }

  lemma OpensAt(id: string, open: char, rest: string)
    requires NoOpen(id) && IsOpen(open)
    ensures OpenIndex(id + [open] + rest, 0) == |id|
  {
    var t := id + [open] + rest;
    var d := OpenIndex(t, 0);
    assert t[|id|] == open;
    if d < |id| {
      CharOfFront(id, [open] + rest, d);
      SameText(id, open, rest);
    }
  }

  lemma SameText(id: string, open: char, rest: string)
    ensures id + ([open] + rest) == id + [open] + rest
  {
  }

  /** A name, a bracket, a caption and the closing bracket, with anything behind it. */
  lemma BracketedToken(id: string, open: char, caption: string, close: char, rest: string)
    requires NoOpen(id) && (open, close) in BRACKETS && close !in caption
    ensures var t := id + [open] + caption + [close] + rest;
            TokenId(t) == id && TokenCaption(t) == Unwrapped(caption) && OpenIndex(t, 0) < |t|
  {
    hide OpenIndex, Find;
    var t := id + [open] + caption + [close] + rest;
    OpensAt(id, open, caption + [close] + rest);
    TokenShape(id, open, caption, close, rest);
    FindChar(t, close, |id| + 1, |id| + 1 + |caption|);
  }

  lemma TokenShape(id: string, open: char, caption: string, close: char, rest: string)
    requires close !in caption
    ensures var t, d := id + [open] + caption + [close] + rest, |id|;
            && t == id + [open] + (caption + [close] + rest) && |t| == d + |caption| + 2 + |rest|
            && t[..d] == id && t[d] == open && t[d + 1..d + 1 + |caption|] == caption && t[d + 1 + |caption|] == close
            && forall k :: d + 1 <= k < d + 1 + |caption| ==> t[k] != close
  {
    var t, d := id + [open] + caption + [close] + rest, |id|;
    forall k | d + 1 <= k < d + 1 + |caption| ensures t[k] != close {
      assert t[k] == caption[k - d - 1];
    }
  }

  /** Without the closing bracket the last character of the token is taken for it. */
  lemma UnclosedToken(id: string, open: char, caption: string, close: char)
    requires NoOpen(id) && (open, close) in BRACKETS && close !in caption
    ensures var t := id + [open] + caption;
            && TokenId(t) == id
            && TokenCaption(t) == if caption == "" then "" else Unwrapped(caption[..|caption| - 1])
  {
    hide OpenIndex;
    var t := id + [open] + caption;
    OpensAt(id, open, caption);
    var d := |id|;
    assert t[..d] == id && t[d] == open;
    forall k: nat | d + 1 <= k ensures !OccursAt(t, [close], k) {
      if k < |t| {
        assert t[k] == caption[k - d - 1];
        Mismatch(t, [close], k, 0);
      }
    }
    NotFound(t, [close], d + 1);
    assert caption != "" ==> t[d + 1..|t| - 1] == caption[..|caption| - 1];
  }

  // ----- the graph of a chain -----

  ghost predicate Distinct(nodes: seq<Node>) {
    forall i, j :: 0 <= i < j < |nodes| ==> nodes[i].id != nodes[j].id
  }

  ghost predicate Named(nodes: seq<Node>, id: string) {
    exists k :: 0 <= k < |nodes| && nodes[k].id == id
  }

  /** One token: its node is there, with its caption if it has brackets; everything else is as it was. */
  ghost predicate Reads(nodes: seq<Node>, nodes': seq<Node>, token: string) {
    && Distinct(nodes')
    && |nodes| <= |nodes'| && (forall k :: 0 <= k < |nodes| ==> nodes'[k].id == nodes[k].id)
    && (forall id :: Named(nodes', id) <==> Named(nodes, id) || id == TokenId(token))
    && (forall k :: 0 <= k < |nodes'| && nodes'[k].id == TokenId(token) && OpenIndex(token, 0) < |token| ==>
          nodes'[k].caption == TokenCaption(token))
    && (forall k :: 0 <= k < |nodes| && (nodes[k].id != TokenId(token) || OpenIndex(token, 0) == |token|) ==>
          nodes'[k] == nodes[k])
    && (forall k :: |nodes| <= k < |nodes'| && OpenIndex(token, 0) == |token| ==> nodes'[k].caption == token)
  }

  lemma TokenReads(nodes: seq<Node>, token: string)
    requires Distinct(nodes)
    ensures Reads(nodes, AddToken(nodes, token), token)
  {
    hide OpenIndex, TokenCaption;
    var id, r := TokenId(token), AddToken(nodes, token);
    var k := IndexOf(nodes, id, 0);
    WithNodeFinds(nodes, id);
    var at := IndexOf(WithNode(nodes, id), id, 0);
    assert r[at].id == id;
    forall x: string ensures Named(r, x) <==> Named(nodes, x) || x == id {
      NamedAfter(nodes, r, id, x, at);
    }
    assert OpenIndex(token, 0) == |token| ==> id == token;
  }

  lemma NamedAfter(nodes: seq<Node>, r: seq<Node>, id: string, x: string, at: nat)
    requires |nodes| <= |r| <= |nodes| + 1 && at < |r| && r[at].id == id
    requires forall k :: 0 <= k < |nodes| ==> r[k].id == nodes[k].id
    requires |r| > |nodes| ==> at == |nodes|
    ensures Named(r, x) <==> Named(nodes, x) || x == id
  {
    if Named(nodes, x) {
      var k :| 0 <= k < |nodes| && nodes[k].id == x;
      assert r[k].id == x;
    }
    if Named(r, x) {
      var k :| 0 <= k < |r| && r[k].id == x;
      assert k < |nodes| ==> nodes[k].id == x;
    }
  }

  /** The caption that the last token with brackets gives to a node. */
  ghost function LastCaption(tokens: seq<string>, id: string): Option<string>
    decreases |tokens|
  {
    if tokens == [] then None
    else if LastCaption(tokens[1..], id).Some? then LastCaption(tokens[1..], id)
    else if TokenId(tokens[0]) == id && OpenIndex(tokens[0], 0) < |tokens[0]| then Some(TokenCaption(tokens[0]))
    else None
  }

  /** The nodes after the tokens: the old ones and one for every new name, each with the last caption it is given. */
  ghost predicate Collected(nodes: seq<Node>, r: seq<Node>, tokens: seq<string>) {
    && Distinct(r)
    && |nodes| <= |r| && (forall k :: 0 <= k < |nodes| ==> r[k].id == nodes[k].id)
    && (forall id :: Named(r, id) <==> Named(nodes, id) || exists j :: 0 <= j < |tokens| && TokenId(tokens[j]) == id)
    && forall k :: 0 <= k < |r| ==>
         r[k].caption == match LastCaption(tokens, r[k].id)
                         case Some(c) => c
                         case None => if k < |nodes| then nodes[k].caption else r[k].id
  }

  lemma {:induction false} TokensCollected(nodes: seq<Node>, tokens: seq<string>)
    requires Distinct(nodes)
    ensures Collected(nodes, AddTokens(nodes, tokens), tokens)
    decreases |tokens|
  {
    hide Reads, Collected, AddToken, OpenIndex;
    if tokens == [] {
      NothingCollected(nodes);
    } else {
      var mid := AddToken(nodes, tokens[0]);
      TokenReads(nodes, tokens[0]);
      ReadsDistinct(nodes, mid, tokens[0]);
      TokensCollected(mid, tokens[1..]);
      CollectedFirst(nodes, mid, AddTokens(nodes, tokens), tokens);
    }
  }

  lemma NothingCollected(nodes: seq<Node>)
    requires Distinct(nodes)
    ensures Collected(nodes, nodes, [])
  {
  }

  lemma ReadsDistinct(nodes: seq<Node>, mid: seq<Node>, token: string)
    requires Reads(nodes, mid, token)
    ensures Distinct(mid)
  {
  }

  lemma CollectedFirst(nodes: seq<Node>, mid: seq<Node>, r: seq<Node>, tokens: seq<string>)
    requires tokens != [] && Reads(nodes, mid, tokens[0]) && Collected(mid, r, tokens[1..])
    ensures Collected(nodes, r, tokens)
  {
    hide OpenIndex, TokenCaption, Named, Distinct;
    forall id: string
      ensures Named(r, id) <==> Named(nodes, id) || exists j :: 0 <= j < |tokens| && TokenId(tokens[j]) == id
    {
      NamedFirst(tokens, id);
    }
    forall k | 0 <= k < |r|
      ensures r[k].caption == match LastCaption(tokens, r[k].id)
                              case Some(c) => c
                              case None => if k < |nodes| then nodes[k].caption else r[k].id
    {
      CaptionFirst(nodes, mid, r, tokens, k);
    }
  }

  lemma NamedFirst(tokens: seq<string>, id: string)
    requires tokens != []
    ensures (exists j :: 0 <= j < |tokens| && TokenId(tokens[j]) == id)
            <==> TokenId(tokens[0]) == id || exists j :: 0 <= j < |tokens[1..]| && TokenId(tokens[1..][j]) == id
  {
    if exists j :: 0 < j < |tokens| && TokenId(tokens[j]) == id {
      var j :| 0 < j < |tokens| && TokenId(tokens[j]) == id;
      assert tokens[1..][j - 1] == tokens[j];
    }
    if exists j :: 0 <= j < |tokens[1..]| && TokenId(tokens[1..][j]) == id {
      var j :| 0 <= j < |tokens[1..]| && TokenId(tokens[1..][j]) == id;
      assert tokens[j + 1] == tokens[1..][j];
    }
  }

  lemma CaptionFirst(nodes: seq<Node>, mid: seq<Node>, r: seq<Node>, tokens: seq<string>, k: nat)
    requires tokens != [] && Reads(nodes, mid, tokens[0]) && Collected(mid, r, tokens[1..]) && k < |r|
    ensures r[k].caption == match LastCaption(tokens, r[k].id)
                            case Some(c) => c
                            case None => if k < |nodes| then nodes[k].caption else r[k].id
  {
    hide TokenCaption, Distinct, TokenId, OpenIndex;
    if k < |mid| {
      assert r[k].id == mid[k].id;
      if |nodes| <= k {
        NewNode(nodes, mid, tokens[0], k);
      }
    } else {
      LaterIsOther(nodes, mid, r, tokens, k);
    }
  }

  lemma LaterIsOther(nodes: seq<Node>, mid: seq<Node>, r: seq<Node>, tokens: seq<string>, k: nat)
    requires tokens != [] && Reads(nodes, mid, tokens[0]) && Collected(mid, r, tokens[1..]) && |mid| <= k < |r|
    ensures r[k].id != TokenId(tokens[0])
  {
    hide TokenCaption, TokenId, OpenIndex, Distinct;
    assert Named(mid, TokenId(tokens[0]));
    var j :| 0 <= j < |mid| && mid[j].id == TokenId(tokens[0]);
    assert r[j].id == mid[j].id;
    Clash(r, j, k);
  }

  lemma NewNode(nodes: seq<Node>, mid: seq<Node>, token: string, k: nat)
    requires Reads(nodes, mid, token) && |nodes| <= k < |mid|
    ensures mid[k].id == TokenId(token)
    ensures OpenIndex(token, 0) == |token| ==> mid[k].caption == mid[k].id
  {
    assert Named(mid, mid[k].id);
    forall j | 0 <= j < |nodes| ensures nodes[j].id != mid[k].id {
      Clash(mid, j, k);
    }
    assert OpenIndex(token, 0) == |token| ==> token[..|token|] == token;
  }

  lemma Clash(nodes: seq<Node>, j: nat, k: nat)
    requires Distinct(nodes) && j < k < |nodes|
    ensures nodes[j].id != nodes[k].id
  {
  }

  lemma {:induction false} IndicesName(nodes: seq<Node>, tokens: seq<string>, k: nat)
    requires Distinct(nodes) && k < |tokens|
    ensures var r, i := AddTokens(nodes, tokens), TokenIndices(nodes, tokens)[k];
            i < |r| && r[i].id == TokenId(tokens[k])
    decreases |tokens|
  {
    hide Reads, Collected, OpenIndex, AddToken, TokenId;
    var mid := AddToken(nodes, tokens[0]);
    TokenReads(nodes, tokens[0]);
    ReadsDistinct(nodes, mid, tokens[0]);
    TokensCollected(mid, tokens[1..]);
    CollectedKeeps(mid, AddTokens(mid, tokens[1..]), tokens[1..]);
    if k > 0 {
      IndicesName(mid, tokens[1..], k - 1);
    }
  }

  lemma CollectedKeeps(nodes: seq<Node>, r: seq<Node>, tokens: seq<string>)
    requires Collected(nodes, r, tokens)
    ensures Distinct(r) && |nodes| <= |r| && forall k :: 0 <= k < |nodes| ==> r[k].id == nodes[k].id
  {
  }

  lemma {:induction false} EdgesOfChain(chain: seq<nat>)
    ensures |ChainEdges(chain)| == if chain == [] then 0 else |chain| - 1
    ensures forall j :: 0 <= j < |chain| - 1 ==> ChainEdges(chain)[j] == Edge(chain[j], chain[j + 1])
    decreases |chain|
  {
    if |chain| >= 2 {
      EdgesOfChain(chain[1..]);
    }
  }

  ghost predicate Joins(nodes: seq<Node>, e: Edge, a: string, b: string) {
    e.from < |nodes| && nodes[e.from].id == a && e.to < |nodes| && nodes[e.to].id == b
  }

  /** Reading a chain adds its nodes and joins each token's node to the next one's. */
  lemma ChainJoins(flow: Flow, tokens: seq<string>)
    requires Distinct(flow.nodes)
    ensures var f, m := AddChain(flow, tokens), |flow.edges|;
            && Collected(flow.nodes, f.nodes, tokens) && Distinct(f.nodes)
            && |f.edges| == m + (if tokens == [] then 0 else |tokens| - 1) && f.edges[..m] == flow.edges
            && forall e :: m <= e < |f.edges| ==>
                 Joins(f.nodes, f.edges[e], TokenId(tokens[e - m]), TokenId(tokens[e - m + 1]))
  {
    hide Collected, Distinct, AddTokens, TokenIndices, ChainEdges, TokenId;
    TokensCollected(flow.nodes, tokens);
    CollectedKeeps(flow.nodes, AddTokens(flow.nodes, tokens), tokens);
    EdgesOfChain(TokenIndices(flow.nodes, tokens));
    forall k | 0 <= k < |tokens|
      ensures var r, i := AddTokens(flow.nodes, tokens), TokenIndices(flow.nodes, tokens)[k];
              i < |r| && r[i].id == TokenId(tokens[k])
    {
      IndicesName(flow.nodes, tokens, k);
    }
  }

  // ----- whole texts -----

  /** A line of a chart: a chain with at least one arrow and blanks around it, or text without an arrow. */
  datatype Line = Chained(left: string, tokens: seq<string>, links: seq<Link>, right: string) | Other(text: string)

  ghost predicate LegalLine(l: Line) {
    match l
    case Chained(left, tokens, links, right) =>
      Blank(left) && Blank(right) && links != [] && LegalChain(tokens, links)
    case Other(text) => forall k :: !OccursAt(text, "-->", k)
  }

  ghost function LineText(l: Line): string
    requires LegalLine(l)
  {
    match l
    case Chained(left, tokens, links, right) => ChainLine(left, tokens, links, right)
    case Other(text) => text
  }

  ghost function ChainLine(left: string, tokens: seq<string>, links: seq<Link>, right: string): string
    requires LegalChain(tokens, links)
  {
    left + ChainText(tokens, links) + right
  }

  ghost predicate LegalLines(lines: seq<Line>) {
    forall k :: 0 <= k < |lines| ==>
      LegalLine(lines[k]) && '\n' !in LineText(lines[k]) && ';' !in LineText(lines[k])
  }

  /** The graph of the chains, read in order. */
  ghost function ReadChains(flow: Flow, lines: seq<Line>): Flow
    decreases |lines|
  {
    if lines == [] then flow
    else ReadChains(if lines[0].Chained? then AddChain(flow, lines[0].tokens) else flow, lines[1..])
  }

  lemma {:induction false} LeftIsSuffix(s: string)
    ensures TrimLeft(s) == s[|s| - |TrimLeft(s)|..]
    decreases |s|
  {
    if s != "" && IsSpace(s[0]) {
      LeftIsSuffix(s[1..]);
    }
  }

  lemma {:induction false} RightIsPrefix(s: string)
    ensures TrimRight(s) <= s
    decreases |s|
  {
    if s != "" && IsSpace(s[|s| - 1]) {
      RightIsPrefix(s[..|s| - 1]);
    }
  }

  /** Trimming brings no arrow about. */
  lemma TrimmedArrow(s: string, k: nat)
    requires OccursAt(Trim(s), ARROW, k)
    ensures exists i :: OccursAt(s, "-->", i)
  {
    var t := TrimLeft(s);
    LeftIsSuffix(s);
    RightIsPrefix(t);
    var i := |s| - |t| + k;
    hide TrimLeft, TrimRight;
    assert s[i..i + 3] == t[k..k + 3] == Trim(s)[k..k + 3];
    assert OccursAt(s, "-->", i);
  }

  lemma OtherSkipped(s: string)
    requires forall k :: !OccursAt(s, "-->", k)
    ensures Find(Trim(s), ARROW, 0) < 0
  {
    hide Trim;
    if Find(Trim(s), ARROW, 0) >= 0 {
      TrimmedArrow(s, Find(Trim(s), ARROW, 0));
    }
  }

  lemma ChainLineRead(left: string, tokens: seq<string>, links: seq<Link>, right: string)
    requires Blank(left) && Blank(right) && links != [] && LegalChain(tokens, links)
    ensures var line := Trim(ChainLine(left, tokens, links, right));
            line != "" && Find(line, ARROW, 0) >= 0 && Chain(line) == tokens
  {
    hide *;
    LegalTail(tokens, links);
    var s := ChainText(tokens, links);
    TokenHasNoArrow(tokens[0]);
    LinkBlanks(links[0]);
    ChainEnds(tokens, links);
    ChainLineIs(left, tokens, links, right);
    TrimIs(left, s, right);
    EmptyIsBlank();
    ChainReads("", tokens, links);
    assert "" + s == s;
    ChainUnfold(tokens, links);
    LinkHasArrow(tokens[0], links[0], ChainText(tokens[1..], links[1..]));
  }

  lemma ChainLineIs(left: string, tokens: seq<string>, links: seq<Link>, right: string)
    requires LegalChain(tokens, links)
    ensures ChainLine(left, tokens, links, right) == left + ChainText(tokens, links) + right
  {
  }

  lemma LinkHasArrow(t: string, k: Link, rest: string)
    requires Blank(k.left) && forall i :: !OccursAt(t, "-->", i)
    ensures Find(t + LinkText(k) + rest, ARROW, 0) >= 0
  {
    hide Find, Blank, LabelText;
    EmptyIsBlank();
    FirstArrow("", t, k.left, k.right + LabelText(k) + rest);
    assert "" + t + k.left + "-->" + (k.right + LabelText(k) + rest) == t + LinkText(k) + rest;
  }

  /** After the header every chain is added to the graph and every other line is passed over. */
  lemma {:induction false} LinesRead(flow: Flow, lines: seq<Line>)
    requires LegalLines(lines)
    ensures var texts := seq(|lines|, k requires 0 <= k < |lines| => LineText(lines[k]));
            ReadLines(texts, true, flow) == ReadChains(flow, lines)
    decreases |lines|
  {
    hide LegalLine, LineText, AddChain, Chain, Trim, Find;
    var texts := seq(|lines|, k requires 0 <= k < |lines| => LineText(lines[k]));
    if lines != [] {
      var more := lines[1..];
      assert texts[1..] == seq(|more|, k requires 0 <= k < |more| => LineText(more[k]));
      LineRead(lines[0]);
      LinesRead(if lines[0].Chained? then AddChain(flow, lines[0].tokens) else flow, more);
    }
  }

  lemma LineRead(l: Line)
    requires LegalLine(l)
    ensures var line := Trim(LineText(l));
            if l.Chained? then line != "" && Find(line, ARROW, 0) >= 0 && Chain(line) == l.tokens
            else Find(line, ARROW, 0) < 0
  {
    hide Trim, Find, Chain, ChainLine, Blank, LegalChain;
    match l
    case Chained(left, tokens, links, right) => ChainLineRead(left, tokens, links, right);
    case Other(text) => OtherSkipped(text);
  }

  /** The text of a chart: a header, and lines that end in a newline or a semicolon. */
  ghost function ChartText(header: string, ends: seq<char>, lines: seq<Line>): string
    requires LegalLines(lines) && |ends| == |lines| + 1
  {
    header + [ends[0]] + LinesText(ends[1..], lines)
  }

  ghost function LinesText(ends: seq<char>, lines: seq<Line>): string
    requires LegalLines(lines) && |ends| == |lines|
    decreases |lines|
  {
    if lines == [] then "" else LineText(lines[0]) + [ends[0]] + LinesText(ends[1..], lines[1..])
  }

  ghost predicate Separators(ends: seq<char>) {
    forall k :: 0 <= k < |ends| ==> ends[k] == '\n' || ends[k] == ';'
  }

  lemma NormalizedLine(line: string, end: char, rest: string)
    requires ';' !in line && (end == '\n' || end == ';')
    ensures Normalize(line + [end] + rest) == line + "\n" + Normalize(rest)
  {
  }

  lemma {:induction false} LinesSplit(ends: seq<char>, lines: seq<Line>)
    requires LegalLines(lines) && |ends| == |lines| && Separators(ends)
    ensures Lines(Normalize(LinesText(ends, lines))) == seq(|lines|, k requires 0 <= k < |lines| => LineText(lines[k]))
    decreases |lines|
  {
    hide LegalLine, LineText, Lines, Normalize;
    if lines == [] {
      NothingSplit();
    } else {
      var rest := LinesText(ends[1..], lines[1..]);
      NormalizedLine(LineText(lines[0]), ends[0], rest);
      LinesFirst(LineText(lines[0]), Normalize(rest));
      LinesSplit(ends[1..], lines[1..]);
    }
  }

  lemma NothingSplit()
    ensures Lines(Normalize("")) == []
  {
    assert Normalize("") == "";
  }

  lemma {:induction false} RightKeeps(s: string, n: nat)
    requires 0 < n <= |s| && !IsSpace(s[n - 1])
    ensures |TrimRight(s)| >= n
    decreases |s|
  {
    if IsSpace(s[|s| - 1]) {
      RightKeeps(s[..|s| - 1], n);
    }
  }

  lemma HeaderRead(left: string, kind: string, rest: string)
    requires Blank(left) && kind in {"graph", "flowchart"}
    ensures var header := left + kind + rest; Trim(header) != "" && IsHeader(Trim(header))
  {
    hide TrimLeft, TrimRight;
    var s := kind + rest;
    assert left + kind + rest == left + s;
    LeftTrimmed(left, s);
    RightKeeps(s, |kind|);
    RightIsPrefix(s);
    assert Trim(left + s)[..|kind|] == s[..|kind|] == kind;
  }

  /** The parser's graph of a chart: its chains, read in order, whatever stands on the lines without an arrow. The
      direction is that of the header. */
  lemma ChartRead(left: string, kind: string, more: string, ends: seq<char>, lines: seq<Line>)
    requires Blank(left) && kind in {"graph", "flowchart"}
    requires LegalLines(lines) && |ends| == |lines| + 1 && Separators(ends)
    requires '\n' !in left + kind + more && ';' !in left + kind + more
    ensures var read := Lines(Normalize(ChartText(left + kind + more, ends, lines)));
            && ReadLines(read, false, Flow([], [])) == ReadChains(Flow([], []), lines)
            && (LeftRight(read) <==> Find(Trim(left + kind + more), "LR", 0) >= 0)
  {
    hide LegalLine, LineText, Lines, Normalize, Trim, IsHeader, LinesText, AddChain, Find, Blank;
    var header := left + kind + more;
    HeaderRead(left, kind, more);
    var rest := LinesText(ends[1..], lines);
    NormalizedLine(header, ends[0], rest);
    LinesFirst(header, Normalize(rest));
    LinesSplit(ends[1..], lines);
    LinesRead(Flow([], []), lines);
    var texts := seq(|lines|, k requires 0 <= k < |lines| => LineText(lines[k]));
    assert ([header] + texts)[1..] == texts;
  }
}
