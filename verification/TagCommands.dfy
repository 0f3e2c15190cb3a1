/** The commands that are read from the repaired text (`parse_exec_tags`, src/sync/sync.cpp). */
module TagCommands {
  import opened TagElements
  import opened TagOutcome
  import opened TagRepair
  import opened TagSegments
  import opened Text
  import opened Wrappers

  // ----- the commands that were written -----

  function InnerCommands(es: seq<Element>): seq<string> {
    if es == [] then [] else (if es[0].tag == EXEC then [es[0].body] else []) + InnerCommands(es[1..])
  }

  /** The commands, in order: those of the text, and those inside elements of other tags. */
  function Commands(segments: seq<Segment>): seq<string> {
    if segments == [] then [] else CommandsOf(segments[0]) + Commands(segments[1..])
  }

  function CommandsOf(g: Segment): seq<string> {
    if g.tag == EXEC then [Body(g)] else InnerCommands(g.inner)
  }

  // ----- reading on -----

  lemma ReadOn(text: string, a: nat, b: nat)
    requires a <= b && forall k :: a <= k < b ==> !OccursAt(text, "<exec>", k)
    ensures ExecTags(text, a) == ExecTags(text, b)
  {
    hide OccursAt, Find;
    FindStays(text, "<exec>", a, b);
  }

  lemma ReadOnTag(text: string, a: nat, b: nat)
    requires a <= b && NoTag(text, EXEC, a, b)
    ensures ExecTags(text, a) == ExecTags(text, b)
  {
    hide OccursAt, ExecTags;
    ReadOn(text, a, b);
  }

  lemma ExecIs()
    ensures EXEC == Tag("<exec>", "</exec>") && IsPair(EXEC) && RightName(EXEC) == "exec"
  {
    NameIs("<exec>", "exec", '>');
  }

  lemma ElementRead(pre: string, e: Element, tail: string, text: string)
    requires Complete(e) && text == pre + (ElementText(e) + tail)
    ensures ExecTags(text, |pre|) == (if e.tag == EXEC then [e.body] else []) + ExecTags(text, |pre| + |ElementText(e)|)
  {
    hide *;
    ExecIs();
    if e.tag == EXEC {
      CommandStands(pre, e, tail, text);
      CommandElementRead(text, |pre|, |pre| + |e.before|, e.body);
    } else {
      OtherElement(pre, e, tail, EXEC);
      ReadOnTag(text, |pre|, |pre| + |ElementText(e)|);
    }
  }

  lemma CommandElementRead(text: string, pos: nat, open: nat, body: string)
    requires pos <= open && NoLess(text, pos, open) && NoLess(text, open + 1, open + 6 + |body|)
    requires OccursAt(text, "<exec>", open) && OccursAt(text, "</exec>", open + 6 + |body|)
    requires open + 6 + |body| <= |text| && text[open + 6..open + 6 + |body|] == body
    ensures ExecTags(text, pos) == [body] + ExecTags(text, open + 13 + |body|)
  {
    hide *;
    CommandElement(text, pos, open, open + 6 + |body|);
  }

  lemma CommandStands(pre: string, e: Element, tail: string, text: string)
    requires Complete(e) && e.tag == EXEC && text == pre + (ElementText(e) + tail)
    ensures var open, bad := |pre| + |e.before|, |pre| + |e.before| + 6 + |e.body|;
            && NoLess(text, |pre|, open) && NoLess(text, open + 1, bad) && bad <= |text|
            && OccursAt(text, "<exec>", open) && OccursAt(text, "</exec>", bad)
            && text[open + 6..bad] == e.body && |pre| + |ElementText(e)| == bad + 7
  {
    hide *;
    CommandTag(e);
    ElementScan(pre, e, tail);
    BodyStands(pre, e, tail);
    ElementLength(e);
  }

  lemma CommandTag(e: Element)
    requires e.tag == EXEC
    ensures e.tag.open == "<exec>" && e.tag.close == "</exec>" && |e.tag.open| == 6 && |e.tag.close| == 7
  {
  }

  lemma BodyStands(pre: string, e: Element, tail: string)
    ensures var text, at := pre + (ElementText(e) + tail), |pre| + |e.before| + |e.tag.open|;
            at + |e.body| <= |text| && text[at..at + |e.body|] == e.body
            && |ElementText(e)| == |e.before| + |e.tag.open| + |e.body| + |e.tag.close|
  {
    ElementSlices(pre, e, tail);
  }

  lemma CommandElement(text: string, pos: nat, open: nat, bad: nat)
    requires pos <= open && open + 6 <= bad && NoLess(text, pos, open) && NoLess(text, open + 1, bad)
    requires OccursAt(text, "<exec>", open) && OccursAt(text, "</exec>", bad)
    ensures bad + 7 <= |text| && ExecTags(text, pos) == [text[open + 6..bad]] + ExecTags(text, bad + 7)
  {
    hide Find, OccursAt, NoLess, ExecTags;
    LiteralTags();
    FindTag(text, "<exec>", pos, open);
    NoLessWithin(text, open + 1, bad, open + 6);
    FindTag(text, "</exec>", open + 6, bad);
    ExecTagsUnfold(text, pos, open, bad);
  }

  lemma LiteralTags()
    ensures |"<exec>"| == 6 && |"</exec>"| == 7 && "<exec>"[0] == '<' && "</exec>"[0] == '<'
  {
  }

  lemma NoLessWithin(text: string, i: int, j: int, m: int)
    requires NoLess(text, i, j) && i <= m
    ensures NoLess(text, m, j)
  {
  }

  lemma {:induction false} ElementsRead(pre: string, es: seq<Element>, tail: string, text: string)
    requires (forall e :: e in es ==> Complete(e)) && text == pre + (Elements(es) + tail)
    ensures ExecTags(text, |pre|) == InnerCommands(es) + ExecTags(text, |pre| + |Elements(es)|)
    decreases |es|
  {
    hide ElementText, Complete, ExecTags, Elements, EXEC;
    ElementsUnfold(es);
    if es != [] {
      var first, rest := ElementText(es[0]), Elements(es[1..]);
      ElementRead(pre, es[0], rest + tail, text);
      ElementsRead(pre + first, es[1..], tail, text);
      assert (pre + first) + (rest + tail) == pre + (first + rest + tail);
    }
  }

  lemma ElementsUnfold(es: seq<Element>)
    ensures es == [] ==> Elements(es) == ""
    ensures es != [] ==> Elements(es) == ElementText(es[0]) + Elements(es[1..])
  {
    hide ElementText;
  }

  // ----- reading a segment -----

  /** An element of another tag: the commands inside it are read. */
  lemma OtherRead(pre: string, g: Segment, rest: string)
    requires SoundOne(g) && CleanName(g.name) && g.tag != EXEC
    ensures var text := pre + Shown(g, g.name) + rest;
            ExecTags(text, |pre|) == InnerCommands(g.inner) + ExecTags(text, |pre + Shown(g, g.name)|)
  {
    hide *;
    ExecIs();
    var text, front := pre + Shown(g, g.name) + rest, pre + g.text + g.tag.open;
    var start, bad, end := Opener(|pre|, g), Closer(|pre|, g), |pre + Shown(g, g.name)|;
    var body := |front + Elements(g.inner)|;
    SoundOneIs(g);
    ShownParts(pre, g, g.name, rest);
    FrontScan(pre, g, g.name, rest, EXEC);
    ReadOnTag(text, |pre|, |front|);
    ElementsRead(front, g.inner, g.last + ("</" + g.name + ">" + rest), text);
    NoLessIn(text, body, bad);
    NoLessNoTag(text, EXEC, body, bad);
    CloserScan(pre, g, g.name, rest, EXEC);
    ReadOnTag(text, body, bad);
    OpenersAfter(text, bad, end);
  }

  lemma OpenersAfter(text: string, bad: nat, end: nat)
    requires bad < end && NoTag(text, EXEC, bad + 1, end) && !OccursAt(text, EXEC.open, bad)
    ensures ExecTags(text, bad) == ExecTags(text, end)
  {
    hide OccursAt, ExecTags;
    ReadOn(text, bad, end);
  }

  /** A command: it is read as it was written exactly when it is closed with the right name and holds no command. */
  lemma CommandRead(pre: string, g: Segment, rest: string)
    requires SoundOne(g) && CleanName(g.name) && g.tag == EXEC
    ensures var text, end := pre + Shown(g, g.name) + rest, |pre + Shown(g, g.name)|;
            if g.name == "exec" && NoneOf(g.inner, EXEC) then ExecTags(text, |pre|) == [Body(g)] + ExecTags(text, end)
            else ExecTags(text, |pre|) == [] || ExecTags(text, |pre|)[0] != Body(g)
  {
    hide *;
    ExecIs();
    var text, start, bad := pre + Shown(g, g.name) + rest, Opener(|pre|, g), Closer(|pre|, g);
    var end := |pre + Shown(g, g.name)|;
    SoundOneIs(g);
    LiteralTags();
    ShownParts(pre, g, g.name, rest);
    NoLessIn(text, |pre|, start);
    FindTag(text, "<exec>", |pre|, start);
    CloserScan(pre, g, g.name, rest, EXEC);
    CloserAt(pre, g);
    var p, q := BodyScan(pre, g, g.name, rest, EXEC);
    if !NoneOf(g.inner, EXEC) {
      InsideFrom(text, EXEC, start + 1, p, q, bad);
      OpenerRest(text, EXEC, start);
      InnerRead(text, |pre|, start, p, q, bad);
    } else if g.name == "exec" {
      FirstCloser(text, start, bad);
      ExecTagsUnfold(text, |pre|, start, bad);
    } else {
      OneMore(text, EXEC, bad, end);
      NoTagJoin(text, EXEC, start + 1, bad, end);
      LaterRead(text, |pre|, start, bad, end);
    }
  }

  lemma CloserAt(pre: string, g: Segment)
    requires g.tag == EXEC
    ensures Closer(|pre|, g) == Opener(|pre|, g) + 6 + |Body(g)|
    ensures |pre + Shown(g, "exec")| == Closer(|pre|, g) + 7
  {
    ShownIs(g, "exec");
  }

  lemma FirstCloser(text: string, start: nat, bad: nat)
    requires NoTag(text, EXEC, start + 1, bad) && start + 6 <= bad && OccursAt(text, "</exec>", bad)
    ensures Find(text, "</exec>", start + 6) == bad
  {
    hide OccursAt;
    FindIs(text, "</exec>", start + 6, bad);
  }

  /** With a command inside, less is read. */
  lemma InnerRead(text: string, pos: nat, start: nat, p: int, q: int, bad: nat)
    requires Find(text, "<exec>", pos) == start && NoLess(text, start + 1, start + 6) && start + 6 <= bad <= |text|
    requires start < p < q < bad && OccursAt(text, "<exec>", p) && OccursAt(text, "</exec>", q)
    ensures ExecTags(text, pos) != [] && ExecTags(text, pos)[0] != text[start + 6..bad]
  {
    hide Find, OccursAt, ExecTags;
    OpenerFits(text, p);
    if p < start + 6 {
      NotHere(text, "<exec>", p);
    }
    var end := Find(text, "</exec>", start + 6);
    assert end <= q;
    ExecTagsUnfold(text, pos, start, end);
  }

  lemma OpenerFits(text: string, p: int)
    requires OccursAt(text, "<exec>", p)
    ensures 0 <= p && p + 6 <= |text|
  {
  }

  /** With a wrong closing tag, more is read, or nothing. */
  lemma LaterRead(text: string, pos: nat, start: nat, bad: nat, end: nat)
    requires Find(text, "<exec>", pos) == start && start + 6 <= bad < end <= |text| && NoTag(text, EXEC, start + 1, end)
    ensures ExecTags(text, pos) == [] || ExecTags(text, pos)[0] != text[start + 6..bad]
  {
    hide Find, OccursAt, ExecTags;
    var c := Find(text, "</exec>", start + 6);
    if c < 0 {
      ExecTagsStop(text, pos);
    } else {
      assert c >= end;
      ExecTagsUnfold(text, pos, start, c);
    }
  }

  // ----- all commands -----

  /** Every command is closed with the right name and holds no command. */
  ghost predicate Readable(segments: seq<Segment>)
    decreases |segments|
  {
    segments == []
    || (&& (segments[0].tag == EXEC ==> segments[0].name == "exec" && NoneOf(segments[0].inner, EXEC))
        && Readable(segments[1..]))
  }

  lemma {:induction false} CommandsRead(pre: string, segments: seq<Segment>, tail: string)
    requires Sound(segments) && '<' !in tail
    ensures ExecTags(pre + Written(segments, tail), |pre|) == Commands(segments) <==> Readable(segments)
    decreases |segments|
  {
    hide *;
    CommandParts(segments);
    if segments == [] {
      NothingToRead(pre, tail);
    } else {
      var g, more := segments[0], segments[1..];
      SoundParts(segments);
      WrittenParts(segments, tail);
      var rest, before := Written(more, tail), pre + Shown(g, g.name);
      var text := pre + Written(segments, tail);
      assert text == before + rest;
      CommandsRead(before, more, tail);
      if g.tag == EXEC {
        CommandRead(pre, g, rest);
        SameHead([Body(g)], ExecTags(text, |before|), Commands(more));
      } else {
        OtherRead(pre, g, rest);
        SameHead(InnerCommands(g.inner), ExecTags(text, |before|), Commands(more));
      }
    }
  }

  lemma CommandParts(segments: seq<Segment>)
    ensures segments == [] ==> Commands(segments) == [] && Readable(segments)
    ensures segments != [] ==>
              var g, more := segments[0], segments[1..];
              && Commands(segments) == (if g.tag == EXEC then [Body(g)] else InnerCommands(g.inner)) + Commands(more)
              && (Readable(segments) <==>
                  (g.tag == EXEC ==> g.name == "exec" && NoneOf(g.inner, EXEC)) && Readable(more))
  {
    hide Body, NoneOf, EXEC;
  }

  lemma SameHead(c: seq<string>, xs: seq<string>, ys: seq<string>)
    ensures c + xs == c + ys <==> xs == ys
    ensures c != [] ==> c + ys != [] && (c + ys)[0] == c[0]
  {
    assert (c + xs)[|c|..] == xs && (c + ys)[|c|..] == ys;
  }

  lemma NothingToRead(pre: string, tail: string)
    requires '<' !in tail
    ensures ExecTags(pre + Written([], tail), |pre|) == []
  {
    hide OccursAt;
    var text := pre + tail;
    assert text[|pre|..] == tail;
    NoLessIn(text, |pre|, |text|);
    TagIsLater(text, "<exec>", |pre|, |text|);
    FindFits(text, "<exec>", |pre|);
  }

  // ----- what is recovered -----

  /** A command holds no command, and the repair does not take a later closing tag for its own. */
  ghost predicate Recoverable(segments: seq<Segment>) {
    forall i: nat :: i < |segments| && segments[i].tag == EXEC ==>
      NoneOf(segments[i].inner, EXEC) && !Misled(segments[i..], EXEC)
  }

  lemma {:induction false} ReadableIs(segments: seq<Segment>)
    ensures Readable(segments) <==>
            forall i: nat :: i < |segments| && segments[i].tag == EXEC ==>
              segments[i].name == "exec" && NoneOf(segments[i].inner, EXEC)
    decreases |segments|
  {
    hide NoneOf;
    if segments != [] {
      ReadableIs(segments[1..]);
      assert forall i :: 1 <= i < |segments| ==> segments[i] == segments[1..][i - 1];
      assert forall i :: 0 <= i < |segments[1..]| ==> segments[1..][i] == segments[i + 1];
    }
  }

  /** The final name of a command: only its own pass changes it. */
  lemma CommandName(segments: seq<Segment>, i: nat)
    requires AllPairs(segments) && i < |segments| && segments[i].tag == EXEC
    ensures var s := Final(segments);
            |s| == |segments| && s[i].tag == EXEC && s[i].inner == segments[i].inner
            && s[i].name == if Misled(segments[i..], EXEC) then segments[i].name else "exec"
  {
    hide *;
    PairsAre();
    ExecIs();
    var s1 := Pass(segments, EXEC);
    var s2 := Pass(s1, WRITE);
    var s3 := Pass(s2, STR_REPLACE);
    FinalIs(segments);
    FinalPassed(segments);
    ShapeAt(segments, Final(segments), i);
    PassAt(segments, EXEC, i);
    NothingPassed(segments);
    PassMade(segments, segments, EXEC);
    PassMade(segments, s1, WRITE);
    PassMade(segments, s2, STR_REPLACE);
    PassEffectHolds(segments, s1, WRITE, i);
    PassEffectHolds(segments, s2, STR_REPLACE, i);
    PassEffectHolds(segments, s3, SEARCH, i);
    EffectOnOther(segments, s1, WRITE, i);
    EffectOnOther(segments, s2, STR_REPLACE, i);
    EffectOnOther(segments, s3, SEARCH, i);
    OtherTags();
  }

  lemma OtherTags()
    ensures EXEC != WRITE && EXEC != STR_REPLACE && EXEC != SEARCH
  {
  }

  lemma EffectOnOther(segments: seq<Segment>, current: seq<Segment>, tag: Tag, i: nat)
    requires i < |segments| && PassEffect(segments, current, tag, i)
    ensures |current| == |Pass(current, tag)| == |segments|
    ensures segments[i].tag != tag ==> Pass(current, tag)[i].name == current[i].name
  {
    hide Blocked, Pass;
  }

  lemma WrongIfMisled(segments: seq<Segment>, i: nat)
    requires i < |segments| && segments[i].tag == EXEC && Misled(segments[i..], EXEC)
    ensures segments[i].name != "exec"
  {
    ExecIs();
    assert segments[i..][0] == segments[i];
  }

  lemma ReadableFinal(segments: seq<Segment>)
    requires AllPairs(segments)
    ensures Readable(Final(segments)) <==> Recoverable(segments)
  {
    hide Final, NoneOf, Misled, IsPair, Readable;
    var s := Final(segments);
    ReadableIs(s);
    FinalPassed(segments);
    forall i: nat | i < |segments|
      ensures s[i].tag == segments[i].tag
      ensures segments[i].tag == EXEC ==>
                s[i].inner == segments[i].inner && (s[i].name == "exec" <==> !Misled(segments[i..], EXEC))
    {
      ShapeAt(segments, s, i);
      if segments[i].tag == EXEC {
        CommandName(segments, i);
        if Misled(segments[i..], EXEC) {
          WrongIfMisled(segments, i);
        }
      }
    }
  }

  lemma {:induction false} CommandsKept(a: seq<Segment>, b: seq<Segment>)
    requires SameShape(a, b)
    ensures Commands(a) == Commands(b)
    decreases |a|
  {
    hide InnerCommands;
    if a != [] {
      ShapeTail(a, b);
      ShapeAt(a, b, 0);
      CommandsKept(a[1..], b[1..]);
    }
  }

  /** Whatever names the model wrote in its closing tags, the commands that are read from the repaired text are those it
      wrote, in order, if and only if no command holds another one and none is followed, before the next one opens, by
      an element that is closed as a command, while it is not itself. */
  lemma CommandsAreRecovered(segments: seq<Segment>, tail: string)
    requires Sound(segments) && '<' !in tail
    ensures Usable(TAGS)
    ensures ExecTags(RepairAll(Written(segments, tail), TAGS), 0) == Commands(segments) <==> Recoverable(segments)
  {
    hide *;
    AllTagsAre();
    SegmentsAreRepaired(segments, tail, TAGS);
    PassesAre(segments);
    SoundPairs(segments);
    FinalSound(segments);
    FinalPassed(segments);
    CommandsRead("", Final(segments), tail);
    assert "" + Written(Final(segments), tail) == Written(Final(segments), tail);
    CommandsKept(segments, Final(segments));
    ReadableFinal(segments);
  }

  // ----- where the repair fails -----

  /** A command closed with `bash` before a file closed with `exec`: the closing tag of the file is taken for that of
      the command, which stays as it is. */
  const BLOCKED: seq<Segment> := [Segment("", EXEC, [], "ls", "bash"), Segment("", WRITE, [], "x", "exec")]

  lemma StrayCloserMisleads(tail: string)
    requires '<' !in tail
    ensures Sound(BLOCKED) && Usable(TAGS)
    ensures RepairAll(Written(BLOCKED, tail), TAGS) != Written(Righted(BLOCKED), tail)
    ensures ExecTags(RepairAll(Written(BLOCKED, tail), TAGS), 0) != Commands(BLOCKED)
  {
    BlockedSound();
    BlockedStray();
    hide *;
    ElementsAreRepaired(BLOCKED, tail);
    CommandsAreRecovered(BLOCKED, tail);
  }

  lemma BlockedSound()
    ensures Sound(BLOCKED)
  {
    PairsAre();
  }

  lemma BlockedStray()
    ensures !NoneBlocked(BLOCKED) && !Recoverable(BLOCKED)
  {
    ExecIs();
    PairsAre();
    OtherTags();
    var second := BLOCKED[1];
    assert BLOCKED[1..] == [second] && BLOCKED[0..] == BLOCKED;
    hide RightName, Rank;
    assert LateStray([second], EXEC) && Stray([second], EXEC);
    assert Blocked(BLOCKED, 0);
    assert Misled(BLOCKED[0..], EXEC);
  }

  /** With right names, or names that are not those of tags, nothing is blocked: every element is closed rightly. */
  lemma ForeignNames(segments: seq<Segment>, tail: string)
    requires Sound(segments) && '<' !in tail
    requires forall i :: 0 <= i < |segments| ==>
               || segments[i].name == RightName(segments[i].tag)
               || segments[i].name !in {"exec", "write", "str_replace", "search"}
    ensures Usable(TAGS) && RepairAll(Written(segments, tail), TAGS) == Written(Righted(segments), tail)
  {
    hide *;
    SoundPairs(segments);
    NamesForeign(segments);
    ElementsAreRepaired(segments, tail);
  }

  lemma NamesForeign(segments: seq<Segment>)
    requires AllPairs(segments)
    requires forall i :: 0 <= i < |segments| ==>
               || segments[i].name == RightName(segments[i].tag)
               || segments[i].name !in {"exec", "write", "str_replace", "search"}
    ensures NoneBlocked(segments)
  {
    hide RightName, IsPair, NoneOf, Rank;
    forall i: nat | i < |segments| ensures !Blocked(segments, i) {
      NoStray(segments, i + 1, segments[i].tag);
    }
  }

  lemma {:induction false} NoStray(segments: seq<Segment>, k: nat, tag: Tag)
    requires AllPairs(segments) && IsPair(tag) && k <= |segments|
    requires forall i :: 0 <= i < |segments| ==>
               || segments[i].name == RightName(segments[i].tag)
               || segments[i].name !in {"exec", "write", "str_replace", "search"}
    ensures !LateStray(segments[k..], tag)
    decreases |segments| - k
  {
    hide RightName, IsPair, NoneOf, Rank;
    if k < |segments| {
      assert segments[k..][0] == segments[k] && segments[k..][1..] == segments[k + 1..];
      NoStray(segments, k + 1, tag);
      PairName(tag);
      if segments[k].tag != tag && segments[k].name == RightName(tag) {
        if segments[k].name == RightName(segments[k].tag) {
          OtherName(segments[k].tag, tag);
        }
      }
    }
  }

  lemma PairName(tag: Tag)
    requires IsPair(tag)
    ensures RightName(tag) in {"exec", "write", "str_replace", "search"}
  {
    Pairs(tag);
    NameIs("<exec>", "exec", '>');
    NameIs("<write ", "write", ' ');
    NameIs("<str_replace ", "str_replace", ' ');
    NameIs("<search>", "search", '>');
  }
}
