/** Texts of elements whose closing tags a language model may have got wrong, and what the repair makes of them
    (`fix_malformed_tags`, src/annotation/annotation.cpp). */
module TagSegments {
  import opened TagElements
  import opened TagRepair
  import opened Text
  import opened Wrappers

  /** Some text and an element: complete elements and more text between its opener and the closing tag `</name>`. */
  datatype Segment = Segment(text: string, tag: Tag, inner: seq<Element>, last: string, name: string)

  function Body(g: Segment): string {
    Elements(g.inner) + g.last
  }

  /** The name that closes the tag. */
  function RightName(tag: Tag): string {
    if |tag.open| >= 2 then Name(tag.open) else ""
  }

  ghost predicate SoundOne(g: Segment) {
    IsPair(g.tag) && '<' !in g.text && '<' !in g.last && forall e :: e in g.inner ==> Complete(e)
  }

  ghost predicate CleanName(name: string) {
    '<' !in name && '>' !in name
  }

  ghost predicate Sound(segments: seq<Segment>) {
    forall g :: g in segments ==> SoundOne(g) && CleanName(g.name)
  }

  /** One segment, closed with the given name. */
  function Shown(g: Segment, name: string): string {
    g.text + g.tag.open + Body(g) + "</" + name + ">"
  }

  function Written(segments: seq<Segment>, tail: string): string {
    if segments == [] then tail else Shown(segments[0], segments[0].name) + Written(segments[1..], tail)
  }

  function Opener(pos: nat, g: Segment): nat {
    pos + |g.text|
  }

  function Closer(pos: nat, g: Segment): nat {
    pos + |g.text| + |g.tag.open| + |Body(g)|
  }

  lemma SoundOneIs(g: Segment)
    requires SoundOne(g)
    ensures IsPair(g.tag) && '<' !in g.text && '<' !in g.last && forall e :: e in g.inner ==> Complete(e)
  {
  }

  lemma CleanIs(name: string)
    ensures CleanName(name) <==> '<' !in name && '>' !in name
  {
  }

  // ----- where the parts of a segment are -----

  lemma Regroup(pre: string, t: string, o: string, es: string, last: string, c: string, rest: string)
    ensures var text := pre + (t + o + (es + last) + c) + rest;
            && text == pre + (t + (o + ((es + last) + (c + rest))))
            && text == (pre + t + o) + (es + (last + (c + rest)))
            && text == (pre + t + o + es) + (last + (c + rest))
            && text == (pre + t + o) + ((es + last) + (c + rest))
  {
    var text := pre + (t + o + (es + last) + c) + rest;
    assert text == (pre + t + o + es) + (last + (c + rest));
    assert text == (pre + t + o) + (es + (last + (c + rest)));
    assert text == (pre + t + o) + ((es + last) + (c + rest));
    assert text == pre + (t + (o + ((es + last) + (c + rest))));
  }

  lemma ShownIs(g: Segment, name: string)
    ensures Shown(g, name) == g.text + g.tag.open + (Elements(g.inner) + g.last) + ("</" + name + ">")
    ensures |Shown(g, name)| == |g.text| + |g.tag.open| + |Body(g)| + 3 + |name|
    ensures Body(g) == Elements(g.inner) + g.last
  {
    hide Elements;
    var a := g.text + g.tag.open + Body(g);
    assert a + "</" + name + ">" == a + ("</" + name + ">");
  }

  lemma LastParts(pre: string, last: string, closer: string, rest: string)
    ensures var text := pre + (last + (closer + rest));
            var bad := |pre| + |last|;
            bad + |closer| <= |text| && text[|pre|..bad] == last && OccursAt(text, closer, bad)
            && text[..bad] == pre + last && text[bad + |closer|..] == rest
  {
    var text := pre + (last + (closer + rest));
    assert text == (pre + last) + (closer + rest) == (pre + last + closer) + rest;
  }

  lemma LastFound(text: string, from: nat, bad: nat, name: string)
    requires from <= bad && NoLess(text, from, bad) && OccursAt(text, "</" + name + ">", bad) && '>' !in name
    ensures FindBad(text, from) == Some((bad, bad + 2 + |name|))
  {
    hide *;
    CloserEnds(text, bad, name);
    FindTag(text, "</", from, bad);
    OpenersAreTags();
    NothingInner(text, from, bad, name, TAGS);
    FindBadUnfold(text, from, bad, bad + 2 + |name|);
  }

  lemma ShownParts(pre: string, g: Segment, name: string, rest: string)
    ensures var text := pre + Shown(g, name) + rest;
            var front := pre + g.text + g.tag.open;
            var start, bad := Opener(|pre|, g), Closer(|pre|, g);
            && |pre| <= start && start + |g.tag.open| == |front| <= |front + Elements(g.inner)| <= bad
            && bad + 3 + |name| <= |text|
            && text[|pre|..start] == g.text && OccursAt(text, g.tag.open, start)
            && text[|front|..bad] == Body(g)
            && text[|front + Elements(g.inner)|..bad] == g.last && OccursAt(text, "</" + name + ">", bad)
            && text == front + (Elements(g.inner) + (g.last + ("</" + name + ">" + rest)))
            && text == front + Elements(g.inner) + (g.last + ("</" + name + ">" + rest))
            && text[..bad] == front + Elements(g.inner) + g.last && text[bad + 3 + |name|..] == rest
            && bad + 3 + |name| == |pre + Shown(g, name)|
  {
    hide Elements, Shown, Body, OccursAt;
    var front := pre + g.text + g.tag.open;
    ShownIs(g, name);
    Regroup(pre, g.text, g.tag.open, Elements(g.inner), g.last, "</" + name + ">", rest);
    LastParts(front + Elements(g.inner), g.last, "</" + name + ">", rest);
    LastParts(pre, g.text, g.tag.open, Body(g) + ("</" + name + ">" + rest));
    LastParts(front, Body(g), "</" + name + ">", rest);
  }

  /** A segment with another closing tag. */
  lemma Reclosed(pre: string, g: Segment, name: string, right: string, rest: string)
    ensures var text := pre + Shown(g, name) + rest;
            var bad := Closer(|pre|, g);
            && bad + 3 + |name| <= |text| && bad + 3 + |right| == |pre + Shown(g, right)|
            && text[..bad] + ("</" + right + ">") + text[bad + 3 + |name|..] == pre + Shown(g, right) + rest
  {
    hide *;
    ShownParts(pre, g, name, rest);
    ShownIs(g, name);
    ShownIs(g, right);
    CloserIs(|pre|, g);
    var front := pre + g.text + g.tag.open + Elements(g.inner);
    Regroup(pre, g.text, g.tag.open, Elements(g.inner), g.last, "</" + right + ">", rest);
    Associates(front, g.last, "</" + right + ">", rest);
  }

  lemma CloserIs(pos: nat, g: Segment)
    ensures Closer(pos, g) == pos + |g.text| + |g.tag.open| + |Body(g)| && Opener(pos, g) == pos + |g.text|
  {
  }

  /** The right name closes the tag. */
  lemma RightCloses(tag: Tag)
    requires IsPair(tag)
    ensures "</" + RightName(tag) + ">" == tag.close && CleanName(RightName(tag)) && |tag.close| == 3 + |RightName(tag)|
  {
    hide Name, TAGS;
    CloseOf(tag);
    CloseShape(tag);
    var name := RightName(tag);
    forall k | 0 <= k < |name| ensures name[k] != '<' {
      assert name[k] == tag.close[1..][k + 1];
    }
  }

  // ----- the repair of one segment -----

  /** An element with complete inner elements, whatever follows it: when it counts as not closed, its own closing tag
      is the one that is corrected, and the inner elements stay as they are. */
  lemma InnerElementsAreKept(pre: string, g: Segment, name: string, rest: string)
    requires SoundOne(g) && '>' !in name
    requires !Closed(pre + Shown(g, name) + rest, g.tag, Opener(|pre|, g))
    ensures g.tag.open != ""
    ensures RepairStep(pre + Shown(g, name) + rest, g.tag, |pre|)
            == Some((pre + Shown(g, RightName(g.tag)) + rest, |pre + Shown(g, RightName(g.tag))|))
  {
    hide *;
    var text, front, right := pre + Shown(g, name) + rest, pre + g.text + g.tag.open, RightName(g.tag);
    var start, bad := Opener(|pre|, g), Closer(|pre|, g);
    SoundOneIs(g);
    PairOpens(g.tag);
    OpenShape(g.tag);
    RightCloses(g.tag);
    ShownParts(pre, g, name, rest);
    Reclosed(pre, g, name, right, rest);
    ElementsSkipped(front, g.inner, g.last + ("</" + name + ">" + rest));
    LastParts(front + Elements(g.inner), g.last, "</" + name + ">", rest);
    NoLessIn(text, |front + Elements(g.inner)|, bad);
    LastFound(text, |front + Elements(g.inner)|, bad, name);
    NoLessIn(text, |pre|, start);
    FindTag(text, g.tag.open, |pre|, start);
    RepairStepIs(text, g.tag, |pre|, start, bad, bad + 2 + |name|);
  }

  lemma RepairStepIs(text: string, tag: Tag, pos: nat, start: nat, bad: nat, gt: nat)
    requires IsPair(tag) && pos <= |text| && Find(text, tag.open, pos) == start && !Closed(text, tag, start)
    requires FindBad(text, start + |tag.open|) == Some((bad, gt))
    ensures bad <= gt < |text|
    ensures tag.open != ""
    ensures RepairStep(text, tag, pos) == Some((text[..bad] + tag.close + text[gt + 1..], bad + |tag.close|))
  {
    hide Find, FindBad, Closed;
  }

  // ----- openers and closers of one tag in a segment -----

  /** Among names without a `>`, the closing tag at `bad` is that of a name exactly when it is the name. */
  lemma CloserHere(text: string, bad: nat, name: string, right: string)
    requires OccursAt(text, "</" + name + ">", bad) && '>' !in name && '>' !in right
    ensures OccursAt(text, "</" + right + ">", bad) <==> name == right
  {
    hide Find;
    CloserChars(text, bad, name);
    CloserEnds(text, bad, name);
    if OccursAt(text, "</" + right + ">", bad) {
      CloserChars(text, bad, right);
      CloserEnds(text, bad, right);
    }
  }

  /** The text of the segment and its opener. */
  lemma FrontScan(pre: string, g: Segment, name: string, rest: string, tag: Tag)
    requires SoundOne(g) && IsPair(tag)
    ensures var text, start := pre + Shown(g, name) + rest, Opener(|pre|, g);
            NoTag(text, tag, |pre|, if g.tag == tag then start else start + |g.tag.open|)
  {
    hide *;
    var text, start := pre + Shown(g, name) + rest, Opener(|pre|, g);
    SoundOneIs(g);
    PairOpens(g.tag);
    ShownParts(pre, g, name, rest);
    NoLessIn(text, |pre|, start);
    NoLessNoTag(text, tag, |pre|, start);
    if g.tag != tag {
      OtherTagHere(text, tag, g.tag, start);
      OpenerRest(text, g.tag, start);
      NoLessNoTag(text, tag, start + 1, start + |g.tag.open|);
      NoTagJoin(text, tag, |pre|, start, start + 1);
      NoTagJoin(text, tag, |pre|, start + 1, start + |g.tag.open|);
    }
  }

  lemma OpenerRest(text: string, tag: Tag, start: nat)
    requires IsPair(tag) && OccursAt(text, tag.open, start)
    ensures NoLess(text, start + 1, start + |tag.open|) && |tag.open| > 1
  {
    hide TAGS, OccursAt;
    OpenShape(tag);
    TagHolds(text, tag.open, start);
  }

  /** What is between the opener of a segment and its closing tag. */
  lemma BodyScan(pre: string, g: Segment, name: string, rest: string, tag: Tag) returns (p: int, q: int)
    requires SoundOne(g) && IsPair(tag)
    ensures var text := pre + Shown(g, name) + rest;
            var start, bad := Opener(|pre|, g), Closer(|pre|, g);
            if NoneOf(g.inner, tag) then NoTag(text, tag, start + 1, bad)
            else start < p && TagInside(text, tag, start + 1, p, q, bad)
  {
    hide *;
    var text, front := pre + Shown(g, name) + rest, pre + g.text + g.tag.open;
    var start, bad, end := Opener(|pre|, g), Closer(|pre|, g), |front + Elements(g.inner)|;
    SoundOneIs(g);
    PairOpens(g.tag);
    ShownParts(pre, g, name, rest);
    OpenerRest(text, g.tag, start);
    NoLessNoTag(text, tag, start + 1, |front|);
    p, q := InnerScan(front, g.inner, g.last + ("</" + name + ">" + rest), tag);
    NoLessIn(text, end, bad);
    NoLessNoTag(text, tag, end, bad);
    if NoneOf(g.inner, tag) {
      NoTagJoin(text, tag, start + 1, |front|, end);
      NoTagJoin(text, tag, start + 1, end, bad);
    } else {
      InsideLater(text, tag, start + 1, |front|, p, q, end);
      InsideWider(text, tag, start + 1, p, q, end, bad);
      InsideFrom(text, tag, start + 1, p, q, bad);
    }
  }

  lemma InsideFrom(text: string, tag: Tag, i: int, p: int, q: int, j: int)
    requires TagInside(text, tag, i, p, q, j)
    ensures i <= p < q < j && OccursAt(text, tag.open, p) && OccursAt(text, tag.close, q)
    ensures forall k :: i <= k <= p ==> !OccursAt(text, tag.close, k)
  {
    hide OccursAt;
  }

  /** The closing tag of a segment: a closer of the tag exactly when it has its name, and nothing else. */
  lemma CloserScan(pre: string, g: Segment, name: string, rest: string, tag: Tag)
    requires SoundOne(g) && IsPair(tag) && CleanName(name)
    ensures var text, bad, end := pre + Shown(g, name) + rest, Closer(|pre|, g), |pre + Shown(g, name)|;
            && bad < end <= |text| && NoTag(text, tag, bad + 1, end) && !OccursAt(text, tag.open, bad)
            && (OccursAt(text, tag.close, bad) <==> name == RightName(tag))
  {
    hide *;
    var text, bad := pre + Shown(g, name) + rest, Closer(|pre|, g);
    ShownParts(pre, g, name, rest);
    CleanIs(name);
    RightCloses(tag);
    CleanIs(RightName(tag));
    CloserHere(text, bad, name, RightName(tag));
    CloserChars(text, bad, name);
    CloserGap(text, bad, name);
    NoLessNoTag(text, tag, bad + 1, bad + 3 + |name|);
    if OccursAt(text, tag.open, bad) {
      OpenChars(text, tag, bad);
    }
  }

  lemma CloserGap(text: string, bad: nat, name: string)
    requires OccursAt(text, "</" + name + ">", bad) && '<' !in name
    ensures NoLess(text, bad + 1, bad + 3 + |name|)
  {
    hide OccursAt;
    CloserChars(text, bad, name);
    forall k | bad + 1 <= k < bad + 3 + |name| ensures text[k] != '<' {
      if bad + 2 <= k < bad + 2 + |name| {
        assert text[k] == name[k - bad - 2];
      }
    }
  }

  // ----- which opener or closer of a tag comes first -----

  /** An opener of the tag in the segment: its own or one of an inner element. */
  ghost predicate Opens(g: Segment, tag: Tag) {
    g.tag == tag || !NoneOf(g.inner, tag)
  }

  /** Before the tag opens again, an element of another tag is closed with its name. */
  ghost predicate Stray(segments: seq<Segment>, tag: Tag)
    decreases |segments|
  {
    segments != [] && !Opens(segments[0], tag) && (segments[0].name == RightName(tag) || Stray(segments[1..], tag))
  }

  /** In the text from `i` on a closer of the tag comes before any opener. */
  ghost predicate CloserFirst(text: string, tag: Tag, i: nat) {
    var c, o := Find(text, tag.close, i), Find(text, tag.open, i);
    c >= 0 && (o < 0 || c < o)
  }

  lemma FirstStays(text: string, tag: Tag, i: nat, j: nat)
    requires NoTag(text, tag, i, j) && i <= j
    ensures CloserFirst(text, tag, i) <==> CloserFirst(text, tag, j)
    ensures Find(text, tag.open, i) == Find(text, tag.open, j) && Find(text, tag.close, i) == Find(text, tag.close, j)
  {
    hide OccursAt;
    FindStays(text, tag.open, i, j);
    FindStays(text, tag.close, i, j);
  }

  lemma FindStays(text: string, t: string, i: nat, j: nat)
    requires i <= j && forall k :: i <= k < j ==> !OccursAt(text, t, k)
    ensures Find(text, t, i) == Find(text, t, j)
  {
    hide OccursAt;
    var r := Find(text, t, j);
    if r >= 0 {
      FindIs(text, t, i, r);
    } else {
      NotFound(text, t, i);
    }
  }

  lemma OpenerComes(text: string, tag: Tag, i: nat, p: nat)
    requires i <= p && OccursAt(text, tag.open, p) && forall k :: i <= k <= p ==> !OccursAt(text, tag.close, k)
    ensures !CloserFirst(text, tag, i)
  {
    hide OccursAt;
  }

  lemma CloserComes(text: string, tag: Tag, i: nat, q: nat)
    requires i <= q && OccursAt(text, tag.close, q) && forall k :: i <= k <= q ==> !OccursAt(text, tag.open, k)
    ensures CloserFirst(text, tag, i)
  {
    hide OccursAt;
  }

  /** A segment without an opener of the tag up to its closing tag. */
  lemma NoOpenerHere(pre: string, g: Segment, name: string, rest: string, tag: Tag)
    requires SoundOne(g) && IsPair(tag) && !Opens(g, tag)
    ensures var text, bad := pre + Shown(g, name) + rest, Closer(|pre|, g);
            |pre| <= bad && NoTag(text, tag, |pre|, bad)
  {
    hide *;
    var text, start, bad := pre + Shown(g, name) + rest, Opener(|pre|, g), Closer(|pre|, g);
    NotOpened(g, tag);
    SoundOneIs(g);
    ShownParts(pre, g, name, rest);
    PairOpens(g.tag);
    OpenShape(g.tag);
    FrontScan(pre, g, name, rest, tag);
    var p, q := BodyScan(pre, g, name, rest, tag);
    SplitTag(text, tag, |pre|, start + |g.tag.open|, start + 1, bad);
  }

  lemma SplitTag(text: string, tag: Tag, i: int, j: int, m: int, k: int)
    requires NoTag(text, tag, i, j) && NoTag(text, tag, m, k) && m <= j
    ensures NoTag(text, tag, i, k)
  {
    hide OccursAt;
  }

  lemma NotOpened(g: Segment, tag: Tag)
    ensures !Opens(g, tag) <==> g.tag != tag && NoneOf(g.inner, tag)
  {
  }

  lemma {:induction false} StrayIsFirst(pre: string, segments: seq<Segment>, tail: string, tag: Tag)
    requires Sound(segments) && '<' !in tail && IsPair(tag)
    ensures CloserFirst(pre + Written(segments, tail), tag, |pre|) <==> Stray(segments, tag)
    decreases |segments|
  {
    hide *;
    var text := pre + Written(segments, tail);
    StrayIs(segments, tag);
    if segments == [] {
      NothingFirst(pre, tail, tag);
    } else {
      var g, more := segments[0], segments[1..];
      var rest, end := Written(more, tail), |pre + Shown(g, g.name)|;
      SoundParts(segments);
      WrittenParts(segments, tail);
      assert text == pre + Shown(g, g.name) + rest;
      if Opens(g, tag) {
        OpenerFirst(pre, g, g.name, rest, tag);
      } else {
        NoOpenerHere(pre, g, g.name, rest, tag);
        CloserScan(pre, g, g.name, rest, tag);
        var bad := Closer(|pre|, g);
        FirstStays(text, tag, |pre|, bad);
        if g.name == RightName(tag) {
          CloserComes(text, tag, bad, bad);
        } else {
          OneMore(text, tag, bad, end);
          FirstStays(text, tag, bad, end);
          StrayIsFirst(pre + Shown(g, g.name), more, tail, tag);
        }
      }
    }
  }

  lemma OneMore(text: string, tag: Tag, bad: nat, end: nat)
    requires NoTag(text, tag, bad + 1, end) && !OccursAt(text, tag.open, bad) && !OccursAt(text, tag.close, bad)
    ensures NoTag(text, tag, bad, end)
  {
    hide OccursAt;
  }

  lemma StrayIs(segments: seq<Segment>, tag: Tag)
    ensures Stray(segments, tag) <==>
            && segments != [] && !Opens(segments[0], tag)
            && (segments[0].name == RightName(tag) || Stray(segments[1..], tag))
  {
    hide Opens, RightName;
  }

  /** In a segment that opens the tag the opener comes first. */
  lemma OpenerFirst(pre: string, g: Segment, name: string, rest: string, tag: Tag)
    requires SoundOne(g) && IsPair(tag) && Opens(g, tag)
    ensures !CloserFirst(pre + Shown(g, name) + rest, tag, |pre|)
  {
    hide *;
    var text, start, bad := pre + Shown(g, name) + rest, Opener(|pre|, g), Closer(|pre|, g);
    NotOpened(g, tag);
    SoundOneIs(g);
    ShownParts(pre, g, name, rest);
    FrontScan(pre, g, name, rest, tag);
    if g.tag == tag {
      FirstStays(text, tag, |pre|, start);
      OpenerIsNoCloser(text, tag, start);
      OpenerComes(text, tag, start, start);
    } else {
      PairOpens(g.tag);
      OpenShape(g.tag);
      var p, q := BodyScan(pre, g, name, rest, tag);
      InsideFrom(text, tag, start + 1, p, q, bad);
      NoneBefore(text, tag, |pre|, start + |g.tag.open|, start + 1, p);
      OpenerComes(text, tag, |pre|, p);
    }
  }

  lemma NoneBefore(text: string, tag: Tag, i: int, j: int, m: int, p: int)
    requires NoTag(text, tag, i, j) && m <= j && forall k :: m <= k <= p ==> !OccursAt(text, tag.close, k)
    ensures forall k :: i <= k <= p ==> !OccursAt(text, tag.close, k)
  {
    hide OccursAt;
  }

  lemma NothingFirst(pre: string, tail: string, tag: Tag)
    requires '<' !in tail && IsPair(tag)
    ensures !CloserFirst(pre + Written([], tail), tag, |pre|)
  {
    hide OccursAt, Find, IsPair;
    var text := pre + tail;
    assert text[|pre|..] == tail;
    NoLessIn(text, |pre|, |text|);
    CloseStarts(tag);
    TagIsLater(text, tag.close, |pre|, |text|);
    FindFits(text, tag.close, |pre|);
  }

  lemma CloseStarts(tag: Tag)
    requires IsPair(tag)
    ensures tag.close != "" && tag.close[0] == '<' && tag.open != "" && tag.open[0] == '<'
  {
    hide TAGS;
    OpenShape(tag);
    CloseShape(tag);
  }

  lemma FindFits(text: string, t: string, i: nat)
    requires t != ""
    ensures Find(text, t, i) < |text|
  {
  }

  lemma SoundParts(segments: seq<Segment>)
    requires segments != [] && Sound(segments)
    ensures SoundOne(segments[0]) && CleanName(segments[0].name) && Sound(segments[1..])
  {
    assert segments[0] in segments;
  }

  lemma WrittenParts(segments: seq<Segment>, tail: string)
    requires segments != []
    ensures Written(segments, tail) == Shown(segments[0], segments[0].name) + Written(segments[1..], tail)
  {
  }

  // ----- one pass -----

  /** The pass for the tag leaves the first segment as it is, because it takes a stray closing tag for its own. */
  ghost predicate Misled(segments: seq<Segment>, tag: Tag) {
    && segments != [] && segments[0].tag == tag && segments[0].name != RightName(tag) && NoneOf(segments[0].inner, tag)
    && Stray(segments[1..], tag)
  }

  /** What the pass for one tag makes of the names. */
  ghost function Pass(segments: seq<Segment>, tag: Tag): seq<Segment>
    decreases |segments|
  {
    if segments == [] then []
    else
      [if segments[0].tag == tag && !Misled(segments, tag) then segments[0].(name := RightName(tag)) else segments[0]]
      + Pass(segments[1..], tag)
  }

  /** A segment of another tag: the pass goes on behind it. */
  lemma OtherPassed(pre: string, g: Segment, name: string, rest: string, tag: Tag)
    requires SoundOne(g) && IsPair(tag) && g.tag != tag && CleanName(name)
    ensures var text, end := pre + Shown(g, name) + rest, |pre + Shown(g, name)|;
            tag.open != "" && end <= |text| && RepairFrom(text, tag, |pre|) == RepairFrom(text, tag, end)
  {
    hide *;
    var text, front := pre + Shown(g, name) + rest, pre + g.text + g.tag.open;
    var start, bad, body := Opener(|pre|, g), Closer(|pre|, g), |front + Elements(g.inner)|;
    SoundOneIs(g);
    PairOpens(tag);
    ShownParts(pre, g, name, rest);
    FrontScan(pre, g, name, rest, tag);
    NoTagBetween(text, tag, |pre|, |front|);
    ElementsPassed(front, g.inner, g.last + ("</" + name + ">" + rest), tag);
    NoLessIn(text, body, bad);
    NoLessNoTag(text, tag, body, bad);
    NoTagBetween(text, tag, body, bad);
    CloserScan(pre, g, name, rest, tag);
    OpenerAfter(text, tag, bad, |pre + Shown(g, name)|);
  }

  lemma OpenerAfter(text: string, tag: Tag, bad: nat, end: nat)
    requires bad < end <= |text| && tag.open != "" && NoTag(text, tag, bad + 1, end) && !OccursAt(text, tag.open, bad)
    ensures RepairFrom(text, tag, bad) == RepairFrom(text, tag, end)
  {
    hide OccursAt, RepairFrom;
    NoOpenerBetween(text, tag, bad, end);
  }

  /** An opener with another one before its closer does not count as closed. */
  lemma NestedIsOpen(text: string, tag: Tag, start: nat, p: int, q: int, bad: nat)
    requires IsPair(tag) && OccursAt(text, tag.open, start) && TagInside(text, tag, start + 1, p, q, bad)
    ensures !Closed(text, tag, start)
  {
    hide Find, OccursAt, IsPair;
    OpenerIsNoCloser(text, tag, start);
    var correct, nextOpen := Find(text, tag.close, start), Find(text, tag.open, start + 1);
    assert nextOpen <= p;
  }

  /** An opener without closer or further opener up to `end` counts as closed exactly when a closer comes first from
      there on. */
  lemma ClosedLater(text: string, tag: Tag, start: nat, end: nat)
    requires IsPair(tag) && start < end && OccursAt(text, tag.open, start) && NoTag(text, tag, start + 1, end)
    ensures Closed(text, tag, start) <==> CloserFirst(text, tag, end)
    ensures Find(text, tag.close, start) == Find(text, tag.close, end)
  {
    hide Find, OccursAt, IsPair;
    OpenerIsNoCloser(text, tag, start);
    FirstStays(text, tag, start + 1, end);
    FindStays(text, tag.close, start, start + 1);
  }

  /** An element closed with a wrong name counts as closed exactly when a stray closing tag follows. */
  lemma WrongIsClosed(pre: string, g: Segment, more: seq<Segment>, tail: string)
    requires SoundOne(g) && CleanName(g.name) && Sound(more) && '<' !in tail && g.name != RightName(g.tag)
    requires NoneOf(g.inner, g.tag)
    ensures var text := pre + Shown(g, g.name) + Written(more, tail);
            var start, end := Opener(|pre|, g), |pre + Shown(g, g.name)|;
            && end <= |text| && Find(text, g.tag.close, start) == Find(text, g.tag.close, end)
            && (Closed(text, g.tag, start) <==> Stray(more, g.tag))
            && (CloserFirst(text, g.tag, end) <==> Stray(more, g.tag))
  {
    hide *;
    var rest := Written(more, tail);
    var text, end := pre + Shown(g, g.name) + rest, |pre + Shown(g, g.name)|;
    var start, bad := Opener(|pre|, g), Closer(|pre|, g);
    SoundOneIs(g);
    PairOpens(g.tag);
    OpenShape(g.tag);
    ShownParts(pre, g, g.name, rest);
    var p, q := BodyScan(pre, g, g.name, rest, g.tag);
    CloserScan(pre, g, g.name, rest, g.tag);
    OneMore(text, g.tag, bad, end);
    NoTagJoin(text, g.tag, start + 1, bad, end);
    ClosedLater(text, g.tag, start, end);
    StrayIsFirst(pre + Shown(g, g.name), more, tail, g.tag);
  }

  /** The stray closing tag is taken for the segment's own, and the pass goes on behind it: as if behind the segment. */
  lemma MisledRound(pre: string, g: Segment, more: seq<Segment>, tail: string)
    requires SoundOne(g) && CleanName(g.name) && Sound(more) && '<' !in tail && Misled([g] + more, g.tag)
    ensures var text, end := pre + Shown(g, g.name) + Written(more, tail), |pre + Shown(g, g.name)|;
            && g.tag.open != "" && end <= |text|
            && RepairFrom(text, g.tag, |pre|) == RepairFrom(text, g.tag, end)
  {
    hide *;
    var rest := Written(more, tail);
    var text, start, end := pre + Shown(g, g.name) + rest, Opener(|pre|, g), |pre + Shown(g, g.name)|;
    MisledIs(g, more);
    SoundOneIs(g);
    PairOpens(g.tag);
    OpenShape(g.tag);
    WrongIsClosed(pre, g, more, tail);
    ShownParts(pre, g, g.name, rest);
    NoLessIn(text, |pre|, start);
    FindTag(text, g.tag.open, |pre|, start);
    var c := StrayAt(text, g.tag, end);
    ClosedRound(text, g.tag, |pre|, start, c);
    RepairUnfold(text, g.tag, |pre|);
    StrayPassed(text, g.tag, end, c);
  }

  lemma MisledIs(g: Segment, more: seq<Segment>)
    ensures Misled([g] + more, g.tag) <==> g.name != RightName(g.tag) && NoneOf(g.inner, g.tag) && Stray(more, g.tag)
  {
    assert ([g] + more)[1..] == more;
  }

  lemma StrayAt(text: string, tag: Tag, end: nat) returns (c: nat)
    requires CloserFirst(text, tag, end)
    ensures Find(text, tag.close, end) == c && end <= c && OccursAt(text, tag.close, c) && c + |tag.close| <= |text|
  {
    hide Find;
    c := Find(text, tag.close, end);
  }

  lemma StrayPassed(text: string, tag: Tag, end: nat, c: nat)
    requires IsPair(tag) && CloserFirst(text, tag, end) && Find(text, tag.close, end) == c && end <= c
    requires OccursAt(text, tag.close, c) && c + |tag.close| <= |text|
    ensures tag.open != "" && RepairFrom(text, tag, c + |tag.close|) == RepairFrom(text, tag, end)
  {
    hide OccursAt, TAGS, RepairFrom;
    CloseShape(tag);
    PairOpens(tag);
    CloseStarts(tag);
    TagHolds(text, tag.close, c);
    forall k | end <= k < c + |tag.close| ensures !OccursAt(text, tag.open, k) {
      if k > c {
        NotHere(text, tag.open, k);
      }
    }
    NoOpenerBetween(text, tag, end, c + |tag.close|);
  }

  /** What the pass makes of one segment, and where it goes on. */
  lemma SegmentPassed(pre: string, g: Segment, more: seq<Segment>, tail: string, tag: Tag)
    requires SoundOne(g) && CleanName(g.name) && Sound(more) && '<' !in tail && IsPair(tag)
    ensures var name := if g.tag == tag && !Misled([g] + more, tag) then RightName(tag) else g.name;
            var rest := Written(more, tail);
            && tag.open != "" && |pre + Shown(g, name)| <= |pre + Shown(g, name) + rest|
            && RepairFrom(pre + Shown(g, g.name) + rest, tag, |pre|)
               == RepairFrom(pre + Shown(g, name) + rest, tag, |pre + Shown(g, name)|)
  {
    hide *;
    PairOpens(tag);
    if g.tag != tag {
      OtherPassed(pre, g, g.name, Written(more, tail), tag);
    } else if Misled([g] + more, tag) {
      MisledRound(pre, g, more, tail);
    } else {
      RightRound(pre, g, more, tail);
    }
  }

  lemma RightRound(pre: string, g: Segment, more: seq<Segment>, tail: string)
    requires SoundOne(g) && CleanName(g.name) && Sound(more) && '<' !in tail && !Misled([g] + more, g.tag)
    ensures var rest, right := Written(more, tail), RightName(g.tag);
            && g.tag.open != "" && |pre + Shown(g, right)| <= |pre + Shown(g, right) + rest|
            && RepairFrom(pre + Shown(g, g.name) + rest, g.tag, |pre|)
               == RepairFrom(pre + Shown(g, right) + rest, g.tag, |pre + Shown(g, right)|)
  {
    hide *;
    var rest, right := Written(more, tail), RightName(g.tag);
    var text, start, bad := pre + Shown(g, g.name) + rest, Opener(|pre|, g), Closer(|pre|, g);
    MisledIs(g, more);
    SoundOneIs(g);
    PairOpens(g.tag);
    CleanIs(g.name);
    RepairUnfold(text, g.tag, |pre|);
    if !Closed(text, g.tag, start) {
      InnerElementsAreKept(pre, g, g.name, rest);
    } else {
      RightIsClosed(pre, g, more, tail);
      RightCloses(g.tag);
      ShownParts(pre, g, g.name, rest);
      NoLessIn(text, |pre|, start);
      OpenShape(g.tag);
      FindTag(text, g.tag.open, |pre|, start);
      ClosedRound(text, g.tag, |pre|, start, bad);
    }
  }

  lemma RightIsClosed(pre: string, g: Segment, more: seq<Segment>, tail: string)
    requires SoundOne(g) && CleanName(g.name) && Sound(more) && '<' !in tail && !Misled([g] + more, g.tag)
    requires Closed(pre + Shown(g, g.name) + Written(more, tail), g.tag, Opener(|pre|, g))
    ensures g.name == RightName(g.tag)
    ensures Find(pre + Shown(g, g.name) + Written(more, tail), g.tag.close, Opener(|pre|, g)) == Closer(|pre|, g)
  {
    hide *;
    var rest := Written(more, tail);
    var text, start, bad := pre + Shown(g, g.name) + rest, Opener(|pre|, g), Closer(|pre|, g);
    MisledIs(g, more);
    SoundOneIs(g);
    PairOpens(g.tag);
    OpenShape(g.tag);
    ShownParts(pre, g, g.name, rest);
    var p, q := BodyScan(pre, g, g.name, rest, g.tag);
    if !NoneOf(g.inner, g.tag) {
      NestedIsOpen(text, g.tag, start, p, q, bad);
    } else if g.name != RightName(g.tag) {
      WrongIsClosed(pre, g, more, tail);
    } else {
      CloserScan(pre, g, g.name, rest, g.tag);
      OpenerIsNoCloser(text, g.tag, start);
      ClosedAt(text, g.tag, start, bad);
    }
  }

  lemma PassFirst(segments: seq<Segment>, tag: Tag)
    requires segments != []
    ensures var g, more := segments[0], segments[1..];
            && Pass(segments, tag)
               == [if g.tag == tag && !Misled([g] + more, tag) then g.(name := RightName(tag)) else g] + Pass(more, tag)
            && segments == [g] + more
  {
    assert segments == [segments[0]] + segments[1..];
  }

  lemma WrittenCons(g: Segment, more: seq<Segment>, tail: string)
    ensures Written([g] + more, tail) == Shown(g, g.name) + Written(more, tail)
  {
    assert ([g] + more)[1..] == more;
  }

  lemma ShownAs(g: Segment, name: string)
    ensures Shown(g.(name := name), name) == Shown(g, name)
  {
  }

  /** The repair for one tag is the pass over the names. */
  lemma {:induction false} PassWritten(pre: string, segments: seq<Segment>, tail: string, tag: Tag)
    requires Sound(segments) && '<' !in tail && IsPair(tag)
    ensures tag.open != ""
    ensures RepairFrom(pre + Written(segments, tail), tag, |pre|) == pre + Written(Pass(segments, tag), tail)
    decreases |segments|
  {
    hide *;
    PairOpens(tag);
    var text := pre + Written(segments, tail);
    if segments == [] {
      NothingToRepair(pre, tail, tag);
    } else {
      var g, more := segments[0], segments[1..];
      var rest := Written(more, tail);
      SoundParts(segments);
      WrittenParts(segments, tail);
      PassFirst(segments, tag);
      assert text == pre + Shown(g, g.name) + rest;
      SegmentPassed(pre, g, more, tail, tag);
      var name := if g.tag == tag && !Misled([g] + more, tag) then RightName(tag) else g.name;
      var g' := g.(name := name);
      var next := pre + Shown(g, name);
      PassWritten(next, more, tail, tag);
      ShownAs(g, name);
      WrittenCons(g', Pass(more, tag), tail);
      assert g' == if g.tag == tag && !Misled([g] + more, tag) then g.(name := RightName(tag)) else g;
      assert next + Written(Pass(more, tag), tail) == pre + (Shown(g, name) + Written(Pass(more, tag), tail));
    }
  }

  lemma NothingToRepair(pre: string, tail: string, tag: Tag)
    requires '<' !in tail && IsPair(tag)
    ensures tag.open != "" && RepairFrom(pre + Written([], tail), tag, |pre|) == pre + Written(Pass([], tag), tail)
  {
    hide OccursAt, Find, FindBad, Closed, TAGS;
    var text := pre + tail;
    assert text[|pre|..] == tail;
    NoLessIn(text, |pre|, |text|);
    CloseStarts(tag);
    TagIsLater(text, tag.open, |pre|, |text|);
    FindFits(text, tag.open, |pre|);
  }

  // ----- all passes -----

  /** The passes of a list of tags; a tag without a closer changes nothing. */
  ghost function Passes(segments: seq<Segment>, tags: seq<Tag>): seq<Segment>
    decreases |tags|
  {
    if tags == [] then segments
    else Passes(if tags[0].close == "" then segments else Pass(segments, tags[0]), tags[1..])
  }

  lemma {:induction false} PassSound(segments: seq<Segment>, tag: Tag)
    requires Sound(segments) && IsPair(tag)
    ensures Sound(Pass(segments, tag))
    decreases |segments|
  {
    hide SoundOne, Misled, RightName, CleanName, IsPair;
    if segments != [] {
      SoundParts(segments);
      PassSound(segments[1..], tag);
      RightCloses(tag);
      Renamed(segments[0], RightName(tag));
    }
  }

  lemma Renamed(g: Segment, name: string)
    requires SoundOne(g)
    ensures SoundOne(g.(name := name))
  {
  }

  /** The whole repair: pass by pass the names change as `Passes` says, and nothing else does. */
  lemma {:induction false} SegmentsAreRepaired(segments: seq<Segment>, tail: string, tags: seq<Tag>)
    requires Sound(segments) && '<' !in tail && forall t :: t in tags ==> t in TAGS
    ensures Usable(tags) && RepairAll(Written(segments, tail), tags) == Written(Passes(segments, tags), tail)
    decreases |tags|
  {
    hide Sound, TAGS, RepairFrom, Pass, Written;
    UsableTags(tags);
    if tags != [] {
      var tag := tags[0];
      var text := Written(segments, tail);
      assert tag in tags && text == "" + text;
      if tag.close == "" {
        ClosedIsKept(text, tag, 0);
        SegmentsAreRepaired(segments, tail, tags[1..]);
      } else {
        PassWritten("", segments, tail, tag);
        PassSound(segments, tag);
        assert "" + Written(Pass(segments, tag), tail) == Written(Pass(segments, tag), tail);
        SegmentsAreRepaired(Pass(segments, tag), tail, tags[1..]);
      }
    }
  }

  lemma UsableTags(tags: seq<Tag>)
    requires forall t :: t in tags ==> t in TAGS
    ensures Usable(tags)
  {
    forall t | t in tags ensures t.open != "" {
      TagOpens(t);
    }
  }

  lemma TagOpens(tag: Tag)
    requires tag in TAGS
    ensures tag.open != ""
  {
  }
}
