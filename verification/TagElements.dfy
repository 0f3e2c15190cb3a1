/** Complete elements of any tag, and where their openers and closers are (src/annotation/annotation.cpp). */
module TagElements {
  import opened TagRepair
  import opened Text
  import opened Wrappers

  // ----- complete elements -----

  /** There is no `<` from `i` up to `j`. */
  ghost predicate NoLess(text: string, i: int, j: int) {
    0 <= i && j <= |text| && forall k :: i <= k < j ==> text[k] != '<'
  }

  lemma NoLessIn(text: string, i: nat, j: nat)
    requires i <= j <= |text| && '<' !in text[i..j]
    ensures NoLess(text, i, j)
  {
    forall k | i <= k < j ensures text[k] != '<' {
      assert text[k] == text[i..j][k - i];
    }
  }

  /** Where there is no `<`, no tag begins. */
  lemma NotHere(text: string, t: string, k: nat)
    requires t != "" && t[0] == '<' && (k >= |text| || text[k] != '<')
    ensures !OccursAt(text, t, k)
  {
    if k < |text| && k + |t| <= |text| {
      Mismatch(text, t, k, 0);
    }
  }

  /** A tag that begins at `r`, with no `<` before, is what `find` returns. */
  lemma FindTag(text: string, t: string, from: nat, r: nat)
    requires t != "" && t[0] == '<' && from <= r && NoLess(text, from, r) && OccursAt(text, t, r)
    ensures Find(text, t, from) == r
  {
    forall k | from <= k < r ensures !OccursAt(text, t, k) {
      NotHere(text, t, k);
    }
    FindIs(text, t, from, r);
  }

  /** Without a `<` up to `to`, a tag is not found before it. */
  lemma TagIsLater(text: string, t: string, from: nat, to: nat)
    requires t != "" && t[0] == '<' && NoLess(text, from, to)
    ensures Find(text, t, from) == -1 || Find(text, t, from) >= to
  {
    var r := Find(text, t, from);
    if from <= r < to {
      NotHere(text, t, r);
    }
  }

  /** The closing tag of a segment is not that of an inner element: its command holds no tag. */
  lemma {:induction false} NothingInner(text: string, from: nat, bad: nat, name: string, tags: seq<Tag>)
    requires NoLess(text, from, bad) && forall t :: t in tags ==> t.open != "" && t.open[0] == '<'
    ensures !IsInner(text, from, bad, name, tags)
    decreases |tags|
  {
    hide Name, Find;
    if tags != [] {
      TagIsLater(text, tags[0].open, from, bad);
      NothingInner(text, from, bad, name, tags[1..]);
    }
  }

  lemma OpenersAreTags()
    ensures forall t :: t in TAGS ==> t.open != "" && t.open[0] == '<'
  {
  }

  lemma InSlice(text: string, i: nat, j: nat, k: nat)
    requires i <= k < j <= |text|
    ensures text[k] in text[i..j]
  {
    assert text[i..j][k - i] == text[k];
  }

  /** Some text and a complete element. */
  datatype Element = Element(before: string, tag: Tag, body: string)

  ghost predicate Complete(e: Element) {
    && e.tag in TAGS && e.tag.close != "" && '<' !in e.before && '<' !in e.body
  }

  function ElementText(e: Element): string {
    e.before + e.tag.open + e.body + e.tag.close
  }

  function Elements(es: seq<Element>): string {
    if es == [] then "" else ElementText(es[0]) + Elements(es[1..])
  }

  lemma NameIs(open: string, name: string, last: char)
    requires open == "<" + name + [last] && name != "" && name[|name| - 1] != ' '
    ensures |open| >= 2 && Name(open) == name
  {
    assert open[1..|open| - 1] == name;
  }

  function OpenOf(name: string): string {
    match name
    case "exec" => "<exec>"
    case "write" => "<write "
    case "str_replace" => "<str_replace "
    case "search" => "<search>"
    case "add_line" => "<add_line "
    case _ => "<delete_line "
  }

  lemma WhichTag(tag: Tag)
    requires tag in TAGS
    ensures || tag == Tag("<exec>", "</exec>") || tag == Tag("<write ", "</write>")
            || tag == Tag("<str_replace ", "</str_replace>") || tag == Tag("<search>", "</search>")
            || tag == Tag("<add_line ", "") || tag == Tag("<delete_line ", "")
  {
  }

  /** The name determines the opener. */
  lemma NameOf(tag: Tag)
    requires tag in TAGS
    ensures |tag.open| >= 2 && OpenOf(Name(tag.open)) == tag.open
  {
    hide *;
    WhichTag(tag);
    OpenNames();
    if tag.open == "<exec>" {
      NameIs("<exec>", "exec", '>');
    } else if tag.open == "<write " {
      NameIs("<write ", "write", ' ');
    } else if tag.open == "<str_replace " {
      NameIs("<str_replace ", "str_replace", ' ');
    } else if tag.open == "<search>" {
      NameIs("<search>", "search", '>');
    } else if tag.open == "<add_line " {
      NameIs("<add_line ", "add_line", ' ');
    } else {
      NameIs("<delete_line ", "delete_line", ' ');
    }
  }

  lemma OpenNames()
    ensures OpenOf("exec") == "<exec>" && OpenOf("write") == "<write " && OpenOf("str_replace") == "<str_replace "
    ensures OpenOf("search") == "<search>" && OpenOf("add_line") == "<add_line "
            && OpenOf("delete_line") == "<delete_line "
  {
  }

  lemma OpenShape(tag: Tag)
    requires tag in TAGS
    ensures |tag.open| >= 2 && tag.open[0] == '<' && tag.open[1] != '/' && '<' !in tag.open[1..]
  {
    hide *;
    WhichTag(tag);
    if tag.open == "<exec>" {
      ShapeOf("<exec>", "exec>");
    } else if tag.open == "<write " {
      ShapeOf("<write ", "write ");
    } else if tag.open == "<str_replace " {
      ShapeOf("<str_replace ", "str_replace ");
    } else if tag.open == "<search>" {
      ShapeOf("<search>", "search>");
    } else if tag.open == "<add_line " {
      ShapeOf("<add_line ", "add_line ");
    } else {
      ShapeOf("<delete_line ", "delete_line ");
    }
  }

  lemma ShapeOf(open: string, rest: string)
    requires open == "<" + rest && rest != "" && rest[0] != '/' && '<' !in rest
    ensures |open| >= 2 && open[0] == '<' && open[1] != '/' && '<' !in open[1..]
  {
    assert open[1..] == rest;
  }

  lemma CloseOf(tag: Tag)
    requires tag in TAGS && tag.close != ""
    ensures |tag.open| >= 2 && tag.close == "</" + Name(tag.open) + ">" && '>' !in Name(tag.open)
  {
    hide *;
    WhichTag(tag);
    if tag.open == "<exec>" {
      NamedClose(tag, "exec", '>');
    } else if tag.open == "<write " {
      NamedClose(tag, "write", ' ');
    } else if tag.open == "<str_replace " {
      NamedClose(tag, "str_replace", ' ');
    } else {
      NamedClose(tag, "search", '>');
    }
  }

  lemma NamedClose(tag: Tag, name: string, last: char)
    requires tag.open == "<" + name + [last] && tag.close == "</" + name + ">"
    requires name != "" && name[|name| - 1] != ' ' && '>' !in name
    ensures |tag.open| >= 2 && tag.close == "</" + Name(tag.open) + ">" && '>' !in Name(tag.open)
  {
    hide Name;
    NameIs(tag.open, name, last);
  }

  lemma SameOpen(tag: Tag, other: Tag)
    requires tag in TAGS && other in TAGS && tag.open == other.open
    ensures tag == other
  {
  }

  lemma SameName(tag: Tag, other: Tag)
    requires tag in TAGS && other in TAGS
    ensures |tag.open| >= 2 && |other.open| >= 2 && (Name(tag.open) == Name(other.open) ==> tag == other)
  {
    hide *;
    NameOf(tag);
    NameOf(other);
    if tag.open == other.open {
      SameOpen(tag, other);
    }
  }

  lemma {:induction false} InnerOf(text: string, from: nat, bad: nat, tag: Tag, tags: seq<Tag>)
    requires tag in tags && |tag.open| >= 2
    requires forall t :: t in tags ==> |t.open| >= 2 && (Name(t.open) == Name(tag.open) ==> t == tag)
    ensures IsInner(text, from, bad, Name(tag.open), tags) == (0 <= Find(text, tag.open, from) < bad)
    decreases |tags|
  {
    hide Find, Name;
    if tags[0] != tag {
      InnerOf(text, from, bad, tag, tags[1..]);
    }
  }

  lemma ElementSlices(pre: string, e: Element, tail: string)
    ensures var text := pre + (ElementText(e) + tail);
            var open := |pre| + |e.before|;
            var bad := open + |e.tag.open| + |e.body|;
            && bad + |e.tag.close| <= |text| && text[|pre|..open] == e.before
            && text[open..open + |e.tag.open|] == e.tag.open && text[open + |e.tag.open|..bad] == e.body
            && text[bad..bad + |e.tag.close|] == e.tag.close
  {
  }

  /** Where the parts of an element are. */
  lemma ElementParts(pre: string, e: Element, tail: string)
    requires Complete(e)
    ensures var text := pre + (ElementText(e) + tail);
            var open := |pre| + |e.before|;
            var bad := open + |e.tag.open| + |e.body|;
            && bad + |e.tag.close| <= |text| && OccursAt(text, e.tag.open, open) && OccursAt(text, e.tag.close, bad)
            && NoLess(text, |pre|, open) && NoLess(text, open + 1, bad) && |e.tag.open| > 1 && text[open + 1] != '/'
  {
    hide *;
    ElementTag(e);
    OpenShape(e.tag);
    PlainParts(e);
    var text := pre + (ElementText(e) + tail);
    var open := |pre| + |e.before|;
    var bad := open + |e.tag.open| + |e.body|;
    ElementSlices(pre, e, tail);
    SliceOccurs(text, e.tag.open, open);
    SliceOccurs(text, e.tag.close, bad);
    CharOf(text, e.tag.open, open, 1);
    NoLessIn(text, |pre|, open);
    NoLessIn(text, open + |e.tag.open|, bad);
    TagHolds(text, e.tag.open, open);
    NoLessJoin(text, open + 1, open + |e.tag.open|, bad);
  }

  lemma SliceOccurs(text: string, t: string, k: nat)
    requires k + |t| <= |text| && text[k..k + |t|] == t
    ensures OccursAt(text, t, k)
  {
  }

  lemma NoLessJoin(text: string, i: int, j: int, k: int)
    requires NoLess(text, i, j) && NoLess(text, j, k)
    ensures NoLess(text, i, k)
  {
  }

  /** The search for a bad closing tag passes over a complete inner element. */
  lemma ElementSkipped(pre: string, e: Element, tail: string)
    requires Complete(e)
    ensures var text := pre + (ElementText(e) + tail);
            FindBad(text, |pre|) == FindBad(text, |pre| + |ElementText(e)|)
  {
    hide *;
    ElementTag(e);
    ElementLength(e);
    ElementParts(pre, e, tail);
    var open := |pre| + |e.before|;
    TagSkipped(pre + (ElementText(e) + tail), |pre|, open, open + |e.tag.open| + |e.body|, e.tag);
  }

  lemma TagSkipped(text: string, from: nat, open: nat, bad: nat, tag: Tag)
    requires tag in TAGS && tag.close != "" && from <= open < bad
    requires OccursAt(text, tag.open, open) && OccursAt(text, tag.close, bad)
    requires NoLess(text, from, open) && NoLess(text, open + 1, bad) && open + 1 < |text| && text[open + 1] != '/'
    ensures FindBad(text, from) == FindBad(text, bad + |tag.close|)
  {
    hide *;
    OpenShape(tag);
    CloseOf(tag);
    var name := Name(tag.open);
    FindTag(text, tag.open, from, open);
    CloserFirst(text, from, open, bad, name);
    AllTags(tag);
    InnerOf(text, from, bad, tag, TAGS);
    FindBadUnfold(text, from, bad, bad + 2 + |name|);
  }

  lemma ElementTag(e: Element)
    requires Complete(e)
    ensures e.tag in TAGS && e.tag.close != ""
  {
  }

  lemma ElementLength(e: Element)
    ensures |ElementText(e)| == |e.before| + |e.tag.open| + |e.body| + |e.tag.close|
  {
  }

  lemma AllTags(tag: Tag)
    requires tag in TAGS
    ensures forall t :: t in TAGS ==> |t.open| >= 2 && (Name(t.open) == Name(tag.open) ==> t == tag)
  {
    hide Name;
    forall t | t in TAGS ensures |t.open| >= 2 && (Name(t.open) == Name(tag.open) ==> t == tag) {
      SameName(t, tag);
    }
  }

  lemma CloserChars(text: string, bad: nat, name: string)
    requires OccursAt(text, "</" + name + ">", bad)
    ensures bad + 2 + |name| < |text| && text[bad] == '<' && text[bad + 1] == '/' && text[bad + 2 + |name|] == '>'
    ensures forall k :: bad + 2 <= k < bad + 2 + |name| ==> text[k] == name[k - bad - 2]
  {
    var closer := "</" + name + ">";
    CharOf(text, closer, bad, 0);
    CharOf(text, closer, bad, 1);
    CharOf(text, closer, bad, 2 + |name|);
    forall k | bad + 2 <= k < bad + 2 + |name| ensures text[k] == name[k - bad - 2] {
      CharOf(text, closer, bad, k - bad);
    }
  }

  lemma CharOf(text: string, t: string, at: nat, i: nat)
    requires OccursAt(text, t, at) && i < |t|
    ensures at + i < |text| && text[at + i] == t[i]
  {
    OccursChars(text, t, at);
  }

  /** A closing tag, from its start. */
  lemma CloserEnds(text: string, bad: nat, name: string)
    requires OccursAt(text, "</" + name + ">", bad) && '>' !in name
    ensures bad + 2 + |name| < |text| && text[bad + 2..bad + 2 + |name|] == name
    ensures OccursAt(text, "</", bad) && Find(text, ">", bad) == bad + 2 + |name|
  {
    hide Find;
    CloserChars(text, bad, name);
    var gt := bad + 2 + |name|;
    assert text[bad + 2..gt] == name && text[bad..bad + 2] == "</";
    forall k | bad <= k < gt ensures text[k] != '>' {
      if k >= bad + 2 {
        InSlice(text, bad + 2, gt, k);
      }
    }
    FindChar(text, '>', bad, gt);
  }

  /** The first closing tag after an opener that holds no other `<`. */
  lemma CloserFirst(text: string, from: nat, open: nat, bad: nat, name: string)
    requires from <= open < bad && NoLess(text, from, open) && NoLess(text, open + 1, bad)
    requires open + 1 < |text| && text[open + 1] != '/' && '>' !in name
    requires OccursAt(text, "</" + name + ">", bad)
    ensures bad + 2 + |name| < |text| && text[bad + 2..bad + 2 + |name|] == name
    ensures Find(text, "</", from) == bad && Find(text, ">", bad) == bad + 2 + |name|
  {
    hide Find;
    CloserEnds(text, bad, name);
    forall k: nat | from <= k < bad ensures !OccursAt(text, "</", k) {
      if k == open {
        Mismatch(text, "</", k, 1);
      } else {
        NotHere(text, "</", k);
      }
    }
    FindIs(text, "</", from, bad);
  }

  lemma {:induction false} ElementsSkipped(pre: string, es: seq<Element>, tail: string)
    requires forall e :: e in es ==> Complete(e)
    ensures var text := pre + (Elements(es) + tail);
            FindBad(text, |pre|) == FindBad(text, |pre| + |Elements(es)|)
    decreases |es|
  {
    hide FindBad, ElementText, Complete;
    if es != [] {
      var first, rest := ElementText(es[0]), Elements(es[1..]);
      assert Elements(es) + tail == first + (rest + tail);
      assert pre + (first + (rest + tail)) == (pre + first) + (rest + tail);
      ElementSkipped(pre, es[0], rest + tail);
      ElementsSkipped(pre + first, es[1..], tail);
    }
  }

  lemma PlainParts(e: Element)
    requires Complete(e)
    ensures '<' !in e.before && '<' !in e.body && ElementText(e) == e.before + e.tag.open + e.body + e.tag.close
  {
  }

  lemma CloseShape(tag: Tag)
    requires tag in TAGS && tag.close != ""
    ensures |tag.close| >= 3 && tag.close[0] == '<' && tag.close[1] == '/' && '<' !in tag.close[1..]
  {
    hide *;
    WhichTag(tag);
    if tag.open == "<exec>" {
      CloserShapeOf("</exec>", "/exec>");
    } else if tag.open == "<write " {
      CloserShapeOf("</write>", "/write>");
    } else if tag.open == "<str_replace " {
      CloserShapeOf("</str_replace>", "/str_replace>");
    } else {
      CloserShapeOf("</search>", "/search>");
    }
  }

  lemma CloserShapeOf(close: string, rest: string)
    requires close == "<" + rest && |rest| >= 2 && rest[0] == '/' && '<' !in rest
    ensures |close| >= 3 && close[0] == '<' && close[1] == '/' && '<' !in close[1..]
  {
    assert close[1..] == rest;
  }

  /** In an element a `<` begins its opener or its closer. */
  lemma ElementScan(pre: string, e: Element, tail: string)
    requires Complete(e)
    ensures var text := pre + (ElementText(e) + tail);
            var open := |pre| + |e.before|;
            var bad := open + |e.tag.open| + |e.body|;
            var end := |pre| + |ElementText(e)|;
            && open < bad < end == bad + |e.tag.close| <= |text|
            && OccursAt(text, e.tag.open, open) && OccursAt(text, e.tag.close, bad)
            && NoLess(text, |pre|, open) && NoLess(text, open + 1, bad) && NoLess(text, bad + 1, end)
  {
    hide *;
    ElementTag(e);
    ElementLength(e);
    ElementParts(pre, e, tail);
    OpenShape(e.tag);
    CloseShape(e.tag);
    var bad := |pre| + |e.before| + |e.tag.open| + |e.body|;
    TagHolds(pre + (ElementText(e) + tail), e.tag.close, bad);
  }

  lemma TagHolds(text: string, t: string, k: nat)
    requires OccursAt(text, t, k) && t != "" && '<' !in t[1..]
    ensures NoLess(text, k + 1, k + |t|)
  {
    OccursChars(text, t, k);
    forall i | k + 1 <= i < k + |t| ensures text[i] != '<' {
      assert text[k + (i - k)] == t[i - k] == t[1..][i - k - 1];
    }
  }

  // ----- one kind of tag among elements -----

  /** A tag that has a closer. */
  ghost predicate IsPair(tag: Tag) {
    tag in TAGS && tag.close != ""
  }

  /** Neither an opener nor a closer of the tag begins from `i` up to `j`. */
  ghost predicate NoTag(text: string, tag: Tag, i: int, j: int) {
    forall k :: i <= k < j ==> !OccursAt(text, tag.open, k) && !OccursAt(text, tag.close, k)
  }

  lemma NoTagJoin(text: string, tag: Tag, i: int, j: int, k: int)
    requires NoTag(text, tag, i, j) && NoTag(text, tag, j, k)
    ensures NoTag(text, tag, i, k)
  {
    hide OccursAt;
  }

  lemma NothingThere(text: string, tag: Tag, i: int)
    ensures NoTag(text, tag, i, i)
  {
  }

  lemma NoLessNoTag(text: string, tag: Tag, i: nat, j: nat)
    requires NoLess(text, i, j) && IsPair(tag)
    ensures NoTag(text, tag, i, j)
  {
    hide TAGS, OccursAt;
    OpenShape(tag);
    CloseShape(tag);
    forall k | i <= k < j ensures !OccursAt(text, tag.open, k) && !OccursAt(text, tag.close, k) {
      NotHere(text, tag.open, k);
      NotHere(text, tag.close, k);
    }
  }

  /** The second and third characters tell the tags apart. */
  lemma KeyOf(tag: Tag)
    requires IsPair(tag)
    ensures |tag.open| > 2 && |tag.close| > 3 && tag.open[0] == tag.close[0] == '<' && tag.close[1] == '/'
    ensures tag.close[2] == tag.open[1] != '/' && tag.close[3] == tag.open[2]
  {
    hide *;
    PairOpens(tag);
    WhichTag(tag);
    if tag.open == "<exec>" {
      KeyOfName(tag, "exec", '>');
    } else if tag.open == "<write " {
      KeyOfName(tag, "write", ' ');
    } else if tag.open == "<str_replace " {
      KeyOfName(tag, "str_replace", ' ');
    } else {
      KeyOfName(tag, "search", '>');
    }
  }

  lemma KeyOfName(tag: Tag, name: string, last: char)
    requires tag.open == "<" + name + [last] && tag.close == "</" + name + ">" && |name| > 1 && name[0] != '/'
    ensures |tag.open| > 2 && |tag.close| > 3 && tag.open[0] == tag.close[0] == '<' && tag.close[1] == '/'
    ensures tag.close[2] == tag.open[1] != '/' && tag.close[3] == tag.open[2]
  {
  }

  lemma SameKey(a: Tag, b: Tag)
    requires IsPair(a) && IsPair(b) && |a.open| > 2 && |b.open| > 2 && a.open[1] == b.open[1] && a.open[2] == b.open[2]
    ensures a == b
  {
  }

  lemma OpenChars(text: string, tag: Tag, k: nat)
    requires IsPair(tag) && OccursAt(text, tag.open, k)
    ensures |tag.open| > 2 && k + 2 < |text| && text[k] == '<'
    ensures text[k + 1] == tag.open[1] != '/' && text[k + 2] == tag.open[2]
  {
    hide IsPair;
    KeyOf(tag);
    CharOf(text, tag.open, k, 0);
    CharOf(text, tag.open, k, 1);
    CharOf(text, tag.open, k, 2);
  }

  lemma CloseChars(text: string, tag: Tag, k: nat)
    requires IsPair(tag) && OccursAt(text, tag.close, k)
    ensures |tag.open| > 2 && k + 3 < |text| && text[k] == '<' && text[k + 1] == '/'
    ensures text[k + 2] == tag.open[1] && text[k + 3] == tag.open[2]
  {
    hide IsPair;
    KeyOf(tag);
    CharOf(text, tag.close, k, 0);
    CharOf(text, tag.close, k, 1);
    CharOf(text, tag.close, k, 2);
    CharOf(text, tag.close, k, 3);
  }

  /** Where one tag opens or closes no other does. */
  lemma OtherTagHere(text: string, tag: Tag, other: Tag, k: nat)
    requires IsPair(tag) && IsPair(other) && tag != other
    requires OccursAt(text, other.open, k) || OccursAt(text, other.close, k)
    ensures NoTag(text, tag, k, k + 1)
  {
    hide IsPair, OccursAt;
    if OccursAt(text, other.open, k) {
      OpenChars(text, other, k);
    } else {
      CloseChars(text, other, k);
    }
    if OccursAt(text, tag.open, k) {
      OpenChars(text, tag, k);
      SameKey(tag, other);
    }
    if OccursAt(text, tag.close, k) {
      CloseChars(text, tag, k);
      SameKey(tag, other);
    }
  }

  lemma OpenerIsNoCloser(text: string, tag: Tag, k: nat)
    requires IsPair(tag) && OccursAt(text, tag.open, k)
    ensures !OccursAt(text, tag.close, k)
  {
    hide IsPair, OccursAt;
    OpenChars(text, tag, k);
    if OccursAt(text, tag.close, k) {
      CloseChars(text, tag, k);
    }
  }

  lemma OtherElement(pre: string, e: Element, tail: string, tag: Tag)
    requires Complete(e) && e.tag != tag && IsPair(tag)
    ensures NoTag(pre + (ElementText(e) + tail), tag, |pre|, |pre| + |ElementText(e)|)
  {
    hide *;
    ElementPair(e);
    ElementScan(pre, e, tail);
    var text := pre + (ElementText(e) + tail);
    var open := |pre| + |e.before|;
    var bad, end := open + |e.tag.open| + |e.body|, |pre| + |ElementText(e)|;
    OtherTagHere(text, tag, e.tag, open);
    OtherTagHere(text, tag, e.tag, bad);
    NoLessNoTag(text, tag, |pre|, open);
    NoLessNoTag(text, tag, open + 1, bad);
    NoLessNoTag(text, tag, bad + 1, end);
    NoTagJoin(text, tag, |pre|, open, open + 1);
    NoTagJoin(text, tag, |pre|, open + 1, bad);
    NoTagJoin(text, tag, |pre|, bad, bad + 1);
    NoTagJoin(text, tag, |pre|, bad + 1, end);
  }

  lemma ElementPair(e: Element)
    requires Complete(e)
    ensures IsPair(e.tag)
  {
  }

  ghost predicate NoCloser(text: string, tag: Tag, i: int, j: int) {
    forall k :: i <= k < j ==> !OccursAt(text, tag.close, k)
  }

  /** At `p` the tag opens, before any closer of it, and it is closed at `q`. */
  ghost predicate TagInside(text: string, tag: Tag, i: int, p: int, q: int, j: int) {
    && i <= p < q < j && OccursAt(text, tag.open, p) && OccursAt(text, tag.close, q) && NoCloser(text, tag, i, p + 1)
  }

  lemma InsideIs(text: string, tag: Tag, i: int, p: int, q: int, j: int)
    requires i <= p < q < j && OccursAt(text, tag.open, p) && OccursAt(text, tag.close, q)
    requires NoTag(text, tag, i, p) && !OccursAt(text, tag.close, p)
    ensures TagInside(text, tag, i, p, q, j)
  {
    hide OccursAt;
  }

  lemma InsideLater(text: string, tag: Tag, i: int, m: int, p: int, q: int, j: int)
    requires NoTag(text, tag, i, m) && TagInside(text, tag, m, p, q, j) && i <= m
    ensures TagInside(text, tag, i, p, q, j)
  {
    hide OccursAt;
  }

  lemma InsideWider(text: string, tag: Tag, i: int, p: int, q: int, j: int, j': int)
    requires TagInside(text, tag, i, p, q, j) && j <= j'
    ensures TagInside(text, tag, i, p, q, j')
  {
    hide OccursAt;
  }

  lemma SameElement(pre: string, e: Element, tail: string) returns (p: int, q: int)
    requires Complete(e)
    ensures TagInside(pre + (ElementText(e) + tail), e.tag, |pre|, p, q, |pre| + |ElementText(e)|)
  {
    hide *;
    ElementPair(e);
    ElementScan(pre, e, tail);
    var text := pre + (ElementText(e) + tail);
    p := |pre| + |e.before|;
    q := p + |e.tag.open| + |e.body|;
    NoLessNoTag(text, e.tag, |pre|, p);
    OpenerIsNoCloser(text, e.tag, p);
    InsideIs(text, e.tag, |pre|, p, q, |pre| + |ElementText(e)|);
  }

  /** None of the elements is of the tag. */
  ghost predicate NoneOf(es: seq<Element>, tag: Tag) {
    forall e :: e in es ==> e.tag != tag
  }

  lemma NoneFirst(es: seq<Element>, tag: Tag)
    ensures NoneOf(es, tag) <==> es == [] || (es[0].tag != tag && NoneOf(es[1..], tag))
  {
    if es != [] {
      assert es == [es[0]] + es[1..];
    }
  }

  /** Among complete elements there is either no such tag at all, or one that opens before any closer. */
  lemma {:induction false} InnerScan(pre: string, es: seq<Element>, tail: string, tag: Tag) returns (p: int, q: int)
    requires (forall e :: e in es ==> Complete(e)) && IsPair(tag)
    ensures var text := pre + (Elements(es) + tail);
            var end := |pre| + |Elements(es)|;
            if NoneOf(es, tag) then NoTag(text, tag, |pre|, end) else TagInside(text, tag, |pre|, p, q, end)
    decreases |es|
  {
    hide ElementText, Complete, NoTag, TagInside, NoneOf, IsPair;
    p, q := 0, 0;
    NoneFirst(es, tag);
    var text := pre + (Elements(es) + tail);
    if es == [] {
      NothingThere(text, tag, |pre|);
    } else {
      var first, rest := ElementText(es[0]), Elements(es[1..]);
      assert text == pre + (first + (rest + tail));
      assert text == (pre + first) + (rest + tail);
      var end := |pre| + |Elements(es)|;
      if es[0].tag == tag {
        p, q := SameElement(pre, es[0], rest + tail);
        InsideWider(text, tag, |pre|, p, q, |pre| + |first|, end);
      } else {
        OtherElement(pre, es[0], rest + tail, tag);
        p, q := InnerScan(pre + first, es[1..], tail, tag);
        if NoneOf(es, tag) {
          NoTagJoin(text, tag, |pre|, |pre| + |first|, end);
        } else {
          InsideLater(text, tag, |pre|, |pre| + |first|, p, q, end);
        }
      }
    }
  }

  // ----- the repair passes over elements -----

  /** From two places from which the same opener is found the repair does the same. */
  lemma SameSearch(text: string, tag: Tag, a: nat, b: nat)
    requires a <= |text| && b <= |text| && tag.open != "" && Find(text, tag.open, a) == Find(text, tag.open, b)
    ensures RepairFrom(text, tag, a) == RepairFrom(text, tag, b)
  {
    hide Find, FindBad, Closed, RepairFrom;
    RepairUnfold(text, tag, a);
    RepairUnfold(text, tag, b);
  }

  lemma NoOpenerBetween(text: string, tag: Tag, a: nat, b: nat)
    requires a <= b <= |text| && tag.open != "" && forall k :: a <= k < b ==> !OccursAt(text, tag.open, k)
    ensures Find(text, tag.open, a) == Find(text, tag.open, b)
    ensures RepairFrom(text, tag, a) == RepairFrom(text, tag, b)
  {
    hide OccursAt;
    var r := Find(text, tag.open, b);
    if r >= 0 {
      FindIs(text, tag.open, a, r);
    } else {
      NotFound(text, tag.open, a);
    }
    SameSearch(text, tag, a, b);
  }

  lemma NoTagBetween(text: string, tag: Tag, a: nat, b: nat)
    requires a <= b <= |text| && tag.open != "" && NoTag(text, tag, a, b)
    ensures RepairFrom(text, tag, a) == RepairFrom(text, tag, b)
  {
    hide OccursAt, RepairFrom;
    NoOpenerBetween(text, tag, a, b);
  }

  /** A complete element of the tag counts as closed, and the repair goes on behind it. */
  lemma SamePassed(pre: string, e: Element, tail: string)
    requires Complete(e)
    ensures var text := pre + (ElementText(e) + tail);
            e.tag.open != "" && RepairFrom(text, e.tag, |pre|) == RepairFrom(text, e.tag, |pre| + |ElementText(e)|)
  {
    hide *;
    ElementPair(e);
    ElementScan(pre, e, tail);
    var text, tag := pre + (ElementText(e) + tail), e.tag;
    var open := |pre| + |e.before|;
    var bad := open + |tag.open| + |e.body|;
    PairOpens(tag);
    OpenShape(tag);
    FindTag(text, tag.open, |pre|, open);
    OpenerIsNoCloser(text, tag, open);
    NoLessNoTag(text, tag, open + 1, bad);
    ClosedAt(text, tag, open, bad);
    ClosedRound(text, tag, |pre|, open, bad);
    RepairUnfold(text, tag, |pre|);
  }

  lemma PairOpens(tag: Tag)
    requires IsPair(tag)
    ensures tag in TAGS && tag.close != "" && tag.open != ""
  {
  }

  lemma ClosedAt(text: string, tag: Tag, open: nat, bad: nat)
    requires IsPair(tag) && open < bad && OccursAt(text, tag.close, bad) && NoTag(text, tag, open + 1, bad)
    requires !OccursAt(text, tag.close, open)
    ensures Closed(text, tag, open) && Find(text, tag.close, open) == bad
  {
    hide OccursAt, Find, IsPair;
    FindIs(text, tag.close, open, bad);
    if OccursAt(text, tag.open, bad) {
      OpenerIsNoCloser(text, tag, bad);
    }
  }

  lemma ClosedRound(text: string, tag: Tag, pos: nat, start: nat, bad: nat)
    requires IsPair(tag) && pos <= |text| && Find(text, tag.open, pos) == start && Closed(text, tag, start)
    requires Find(text, tag.close, start) == bad
    ensures tag.open != "" && RepairStep(text, tag, pos) == Some((text, bad + |tag.close|))
  {
    hide Find, FindBad, Closed;
  }

  /** No pass changes complete elements. */
  lemma {:induction false} ElementsPassed(pre: string, es: seq<Element>, tail: string, tag: Tag)
    requires (forall e :: e in es ==> Complete(e)) && IsPair(tag)
    ensures var text := pre + (Elements(es) + tail);
            && tag.open != "" && |pre| + |Elements(es)| <= |text|
            && RepairFrom(text, tag, |pre|) == RepairFrom(text, tag, |pre| + |Elements(es)|)
    decreases |es|
  {
    hide ElementText, Complete, RepairFrom, IsPair;
    PairOpens(tag);
    if es != [] {
      var first, rest := ElementText(es[0]), Elements(es[1..]);
      var text := pre + (Elements(es) + tail);
      assert text == pre + (first + (rest + tail));
      assert text == (pre + first) + (rest + tail);
      if es[0].tag == tag {
        SamePassed(pre, es[0], rest + tail);
      } else {
        OtherElement(pre, es[0], rest + tail, tag);
        NoTagBetween(text, tag, |pre|, |pre| + |first|);
      }
      ElementsPassed(pre + first, es[1..], tail, tag);
    }
  }
}
