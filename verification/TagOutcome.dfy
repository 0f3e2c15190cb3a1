/** When the repair of closing tags corrects every tag, and which commands are read from the repaired text
    (src/annotation/annotation.cpp, `parse_exec_tags` in src/sync/sync.cpp). */
module TagOutcome {
  import opened TagElements
  import opened TagRepair
  import opened TagSegments
  import opened Text
  import opened Wrappers

  // ----- the passes, position by position -----

  lemma {:induction false} PassAt(segments: seq<Segment>, tag: Tag, i: nat)
    requires i < |segments|
    ensures |Pass(segments, tag)| == |segments|
    ensures var g := segments[i];
            Pass(segments, tag)[i]
            == if g.tag == tag && !Misled(segments[i..], tag) then g.(name := RightName(tag)) else g
    decreases |segments|
  {
    hide Misled, RightName;
    assert segments[0..] == segments;
    if i > 0 {
      PassAt(segments[1..], tag, i - 1);
      assert segments[1..][i - 1..] == segments[i..];
    } else {
      PassLength(segments[1..], tag);
    }
  }

  lemma {:induction false} PassLength(segments: seq<Segment>, tag: Tag)
    ensures |Pass(segments, tag)| == |segments|
    decreases |segments|
  {
    if segments != [] {
      PassLength(segments[1..], tag);
    }
  }

  /** The same but for the names. */
  ghost predicate SameShape(a: seq<Segment>, b: seq<Segment>) {
    |a| == |b| && forall i :: 0 <= i < |a| ==> a[i].(name := "") == b[i].(name := "")
  }

  lemma ShapeKept(segments: seq<Segment>, tag: Tag)
    ensures SameShape(segments, Pass(segments, tag))
  {
    hide Misled, RightName;
    PassLength(segments, tag);
    forall i | 0 <= i < |segments| ensures segments[i].(name := "") == Pass(segments, tag)[i].(name := "") {
      PassAt(segments, tag, i);
    }
  }

  // ----- the order of the passes -----

  const WRITE := Tag("<write ", "</write>")
  const STR_REPLACE := Tag("<str_replace ", "</str_replace>")
  const SEARCH := Tag("<search>", "</search>")

  ghost function Rank(tag: Tag): nat {
    if tag == EXEC then 0 else if tag == WRITE then 1 else if tag == STR_REPLACE then 2 else 3
  }

  lemma Pairs(tag: Tag)
    requires IsPair(tag)
    ensures tag in {EXEC, WRITE, STR_REPLACE, SEARCH}
  {
    WhichTag(tag);
  }

  lemma PairsAre()
    ensures IsPair(EXEC) && IsPair(WRITE) && IsPair(STR_REPLACE) && IsPair(SEARCH)
    ensures Rank(EXEC) == 0 && Rank(WRITE) == 1 && Rank(STR_REPLACE) == 2 && Rank(SEARCH) == 3
  {
  }

  lemma SameRank(a: Tag, b: Tag)
    requires IsPair(a) && IsPair(b)
    ensures Rank(a) == Rank(b) <==> a == b
    ensures Rank(a) < 4
  {
    Pairs(a);
    Pairs(b);
  }

  lemma OtherName(a: Tag, b: Tag)
    requires IsPair(a) && IsPair(b) && RightName(a) == RightName(b)
    ensures a == b
  {
    hide Name, TAGS;
    SameName(a, b);
  }

  /** What all passes make of the names. */
  ghost function Final(segments: seq<Segment>): seq<Segment> {
    Pass(Pass(Pass(Pass(segments, EXEC), WRITE), STR_REPLACE), SEARCH)
  }

  lemma PassesAre(segments: seq<Segment>)
    ensures Passes(segments, TAGS) == Final(segments)
  {
    hide Pass;
    assert TAGS == [EXEC, WRITE, STR_REPLACE, SEARCH, Tag("<add_line ", ""), Tag("<delete_line ", "")];
    var t5, t6 := Tag("<add_line ", ""), Tag("<delete_line ", "");
    assert [EXEC, WRITE, STR_REPLACE, SEARCH, t5, t6][1..] == [WRITE, STR_REPLACE, SEARCH, t5, t6];
    assert [WRITE, STR_REPLACE, SEARCH, t5, t6][1..] == [STR_REPLACE, SEARCH, t5, t6];
    assert [STR_REPLACE, SEARCH, t5, t6][1..] == [SEARCH, t5, t6] && [SEARCH, t5, t6][1..] == [t5, t6];
    assert [t5, t6][1..] == [t6] && [t6][1..] == [];
    var s1 := Pass(segments, EXEC);
    var s2 := Pass(s1, WRITE);
    var s3 := Pass(s2, STR_REPLACE);
    assert Passes(Final(segments), [t5, t6]) == Passes(Final(segments), [t6]) == Final(segments);
    assert Passes(s3, [SEARCH, t5, t6]) == Passes(Final(segments), [t5, t6]);
    assert Passes(s2, [STR_REPLACE, SEARCH, t5, t6]) == Passes(s3, [SEARCH, t5, t6]);
    assert Passes(s1, [WRITE, STR_REPLACE, SEARCH, t5, t6]) == Passes(s2, [STR_REPLACE, SEARCH, t5, t6]);
  }

  // ----- when every tag is corrected -----

  ghost predicate AllRight(segments: seq<Segment>) {
    forall i :: 0 <= i < |segments| ==> segments[i].name == RightName(segments[i].tag)
  }

  /** A closing tag of the given kind on an element whose own pass comes later, before the tag opens again. */
  ghost predicate LateStray(segments: seq<Segment>, tag: Tag)
    decreases |segments|
  {
    && segments != [] && !Opens(segments[0], tag)
    && ((segments[0].name == RightName(tag) && Rank(segments[0].tag) > Rank(tag)) || LateStray(segments[1..], tag))
  }

  /** The element is closed with a wrong name, and its pass takes a later closing tag for its own. */
  ghost predicate Blocked(segments: seq<Segment>, i: nat)
    requires i < |segments|
  {
    var g := segments[i];
    g.name != RightName(g.tag) && NoneOf(g.inner, g.tag) && LateStray(segments[i + 1..], g.tag)
  }

  ghost predicate NoneBlocked(segments: seq<Segment>) {
    forall i: nat :: i < |segments| ==> !Blocked(segments, i)
  }

  /** The passes before rank `r` have been made: only names of lower rank have changed. */
  ghost predicate PassedTo(segments: seq<Segment>, current: seq<Segment>, r: nat) {
    && SameShape(segments, current)
    && forall i :: 0 <= i < |segments| && Rank(segments[i].tag) >= r ==> current[i].name == segments[i].name
  }

  ghost predicate RightBelow(segments: seq<Segment>, r: nat) {
    forall i :: 0 <= i < |segments| && Rank(segments[i].tag) < r ==> segments[i].name == RightName(segments[i].tag)
  }

  lemma ShapeAt(a: seq<Segment>, b: seq<Segment>, i: nat)
    requires SameShape(a, b) && i < |a|
    ensures i < |b| && a[i].tag == b[i].tag && a[i].inner == b[i].inner
    ensures a[i].text == b[i].text && a[i].last == b[i].last
  {
    assert a[i].(name := "") == b[i].(name := "");
  }

  lemma {:induction false} LateIsStray(segments: seq<Segment>, current: seq<Segment>, k: nat, tag: Tag)
    requires PassedTo(segments, current, Rank(tag)) && k <= |segments| && LateStray(segments[k..], tag)
    ensures k <= |current| && Stray(current[k..], tag)
    decreases |segments| - k
  {
    hide Rank, RightName, NoneOf;
    ShapeAt(segments, current, k);
    assert segments[k..][0] == segments[k] && segments[k..][1..] == segments[k + 1..];
    assert current[k..][0] == current[k] && current[k..][1..] == current[k + 1..];
    if LateStray(segments[k + 1..], tag) {
      LateIsStray(segments, current, k + 1, tag);
    }
  }

  lemma {:induction false} StrayIsLate(segments: seq<Segment>, current: seq<Segment>, k: nat, tag: Tag)
    requires PassedTo(segments, current, Rank(tag)) && RightBelow(current, Rank(tag)) && k <= |segments| == |current|
    requires Stray(current[k..], tag) && IsPair(tag) && AllPairs(segments)
    ensures LateStray(segments[k..], tag)
    decreases |segments| - k
  {
    hide Rank, RightName, NoneOf, IsPair;
    ShapeAt(segments, current, k);
    assert segments[k..][0] == segments[k] && segments[k..][1..] == segments[k + 1..];
    assert current[k..][0] == current[k] && current[k..][1..] == current[k + 1..];
    var g := current[k];
    SameRank(g.tag, tag);
    if g.name == RightName(tag) {
      if g.name == RightName(g.tag) {
        OtherName(g.tag, tag);
      }
    } else {
      StrayIsLate(segments, current, k + 1, tag);
    }
  }

  ghost predicate AllPairs(segments: seq<Segment>) {
    forall i :: 0 <= i < |segments| ==> IsPair(segments[i].tag)
  }

  /** One more pass. */
  lemma PassMade(segments: seq<Segment>, current: seq<Segment>, tag: Tag)
    requires PassedTo(segments, current, Rank(tag)) && IsPair(tag) && AllPairs(segments)
    ensures PassedTo(segments, Pass(current, tag), Rank(tag) + 1)
  {
    hide Rank, RightName, Misled, Blocked, Pass, IsPair;
    var next := Pass(current, tag);
    ShapeKept(current, tag);
    forall i | 0 <= i < |segments| ensures segments[i].(name := "") == next[i].(name := "") {
      assert current[i].(name := "") == next[i].(name := "");
    }
    forall i | 0 <= i < |segments| && Rank(segments[i].tag) >= Rank(tag) + 1 ensures next[i].name == segments[i].name {
      PassEffectHolds(segments, current, tag, i);
    }
  }

  lemma PassRights(segments: seq<Segment>, current: seq<Segment>, tag: Tag)
    requires PassedTo(segments, current, Rank(tag)) && IsPair(tag) && AllPairs(segments)
    requires NoneBlocked(segments) && RightBelow(current, Rank(tag))
    ensures RightBelow(Pass(current, tag), Rank(tag) + 1)
  {
    hide Rank, RightName, Misled, Blocked, Pass, IsPair;
    var next := Pass(current, tag);
    PassLength(current, tag);
    forall i | 0 <= i < |next| && Rank(next[i].tag) < Rank(tag) + 1 ensures next[i].name == RightName(next[i].tag) {
      PassEffectHolds(segments, current, tag, i);
      SameRank(segments[i].tag, tag);
    }
  }

  /** What the pass does at one position. */
  ghost predicate PassEffect(segments: seq<Segment>, current: seq<Segment>, tag: Tag, i: nat) {
    && i < |segments| == |current| == |Pass(current, tag)|
    && Pass(current, tag)[i].tag == segments[i].tag && current[i].tag == segments[i].tag
    && (segments[i].tag != tag ==> Pass(current, tag)[i].name == current[i].name && Rank(segments[i].tag) != Rank(tag))
    && (segments[i].tag == tag && Blocked(segments, i) ==> Pass(current, tag)[i].name == segments[i].name)
    && (segments[i].tag == tag && !Blocked(segments, i) && RightBelow(current, Rank(tag)) ==>
          Pass(current, tag)[i].name == RightName(tag))
  }

  lemma PassEffectHolds(segments: seq<Segment>, current: seq<Segment>, tag: Tag, i: nat)
    requires PassedTo(segments, current, Rank(tag)) && IsPair(tag) && i < |segments| && AllPairs(segments)
    ensures PassEffect(segments, current, tag, i)
  {
    hide Rank, RightName, NoneOf, Stray, LateStray, Pass, IsPair;
    ShapeAt(segments, current, i);
    SameRank(segments[i].tag, tag);
    PassAt(current, tag, i);
    assert current[i..][0] == current[i] && current[i..][1..] == current[i + 1..];
    if segments[i].tag == tag {
      if LateStray(segments[i + 1..], tag) {
        LateIsStray(segments, current, i + 1, tag);
      } else if RightBelow(current, Rank(tag)) && Stray(current[i + 1..], tag) {
        StrayIsLate(segments, current, i + 1, tag);
      }
    }
  }

  lemma SoundPairs(segments: seq<Segment>)
    requires Sound(segments)
    ensures AllPairs(segments)
  {
    forall i | 0 <= i < |segments| ensures IsPair(segments[i].tag) {
      assert segments[i] in segments;
    }
  }

  lemma NothingPassed(segments: seq<Segment>)
    ensures PassedTo(segments, segments, 0) && RightBelow(segments, 0)
  {
  }

  lemma RanksBelow(segments: seq<Segment>)
    requires AllPairs(segments) && RightBelow(segments, 4)
    ensures AllRight(segments)
  {
    hide Rank, RightName, IsPair;
    forall i | 0 <= i < |segments| ensures segments[i].name == RightName(segments[i].tag) {
      SameRank(segments[i].tag, segments[i].tag);
    }
  }

  lemma ShapePairs(a: seq<Segment>, b: seq<Segment>)
    requires SameShape(a, b) && AllPairs(a)
    ensures AllPairs(b)
  {
    hide IsPair;
    forall i | 0 <= i < |b| ensures IsPair(b[i].tag) {
      ShapeAt(a, b, i);
    }
  }

  lemma FinalPassed(segments: seq<Segment>)
    requires AllPairs(segments)
    ensures SameShape(segments, Final(segments))
    ensures NoneBlocked(segments) ==> AllRight(Final(segments))
  {
    hide *;
    PairsAre();
    var s1 := Pass(segments, EXEC);
    var s2 := Pass(s1, WRITE);
    var s3 := Pass(s2, STR_REPLACE);
    var s4 := Pass(s3, SEARCH);
    FinalIs(segments);
    NothingPassed(segments);
    PassMade(segments, segments, EXEC);
    PassMade(segments, s1, WRITE);
    PassMade(segments, s2, STR_REPLACE);
    PassMade(segments, s3, SEARCH);
    PassedShape(segments, s4, 4);
    if NoneBlocked(segments) {
      PassRights(segments, segments, EXEC);
      PassRights(segments, s1, WRITE);
      PassRights(segments, s2, STR_REPLACE);
      PassRights(segments, s3, SEARCH);
      ShapePairs(segments, s4);
      RanksBelow(s4);
    }
  }

  lemma PassedShape(segments: seq<Segment>, current: seq<Segment>, r: nat)
    requires PassedTo(segments, current, r)
    ensures SameShape(segments, current)
  {
  }

  lemma FinalIs(segments: seq<Segment>)
    ensures Final(segments) == Pass(Pass(Pass(Pass(segments, EXEC), WRITE), STR_REPLACE), SEARCH)
  {
  }

  /** A blocked element keeps its wrong name. */
  lemma BlockedStays(segments: seq<Segment>, i: nat)
    requires AllPairs(segments) && i < |segments| && Blocked(segments, i)
    ensures |Final(segments)| == |segments| && Final(segments)[i].name == segments[i].name
  {
    hide *;
    PairsAre();
    var s1 := Pass(segments, EXEC);
    var s2 := Pass(s1, WRITE);
    var s3 := Pass(s2, STR_REPLACE);
    FinalIs(segments);
    NothingPassed(segments);
    PassMade(segments, segments, EXEC);
    PassMade(segments, s1, WRITE);
    PassMade(segments, s2, STR_REPLACE);
    PassEffectHolds(segments, segments, EXEC, i);
    PassEffectHolds(segments, s1, WRITE, i);
    PassEffectHolds(segments, s2, STR_REPLACE, i);
    PassEffectHolds(segments, s3, SEARCH, i);
    EffectOnBlocked(segments, segments, EXEC, i);
    EffectOnBlocked(segments, s1, WRITE, i);
    EffectOnBlocked(segments, s2, STR_REPLACE, i);
    EffectOnBlocked(segments, s3, SEARCH, i);
  }

  lemma EffectOnBlocked(segments: seq<Segment>, current: seq<Segment>, tag: Tag, i: nat)
    requires i < |segments| && PassEffect(segments, current, tag, i) && Blocked(segments, i)
    ensures |current| == |Pass(current, tag)| == |segments|
    ensures current[i].name == segments[i].name ==> Pass(current, tag)[i].name == segments[i].name
  {
    hide Blocked, Pass;
  }

  /** The passes correct every closing tag exactly when no element is blocked. */
  lemma AllCorrected(segments: seq<Segment>)
    requires Sound(segments)
    ensures AllRight(Passes(segments, TAGS)) <==> NoneBlocked(segments)
  {
    hide *;
    SoundPairs(segments);
    PassesAre(segments);
    FinalPassed(segments);
    if AllRight(Final(segments)) {
      RightNotBlocked(segments);
    }
  }

  lemma RightNotBlocked(segments: seq<Segment>)
    requires AllPairs(segments) && AllRight(Final(segments)) && SameShape(segments, Final(segments))
    ensures NoneBlocked(segments)
  {
    hide Final, RightName, NoneOf, LateStray, IsPair;
    forall i: nat | i < |segments| ensures !Blocked(segments, i) {
      ShapeAt(segments, Final(segments), i);
      if Blocked(segments, i) {
        BlockedStays(segments, i);
      }
    }
  }

  // ----- the text -----

  /** The text with every closing tag right. */
  ghost function Righted(segments: seq<Segment>): seq<Segment>
    decreases |segments|
  {
    if segments == [] then [] else [segments[0].(name := RightName(segments[0].tag))] + Righted(segments[1..])
  }

  lemma {:induction false} RightedIs(a: seq<Segment>, b: seq<Segment>)
    requires SameShape(a, b)
    ensures AllRight(b) <==> b == Righted(a)
    decreases |a|
  {
    hide RightName;
    if a != [] {
      ShapeTail(a, b);
      ShapeAt(a, b, 0);
      RightedIs(a[1..], b[1..]);
      RightTail(b);
      assert b == [b[0]] + b[1..];
      assert b[0] == a[0].(name := b[0].name);
    }
  }

  lemma ShapeTail(a: seq<Segment>, b: seq<Segment>)
    requires SameShape(a, b) && a != []
    ensures SameShape(a[1..], b[1..]) && a[0].(name := "") == b[0].(name := "")
  {
    forall i | 0 <= i < |a[1..]| ensures a[1..][i].(name := "") == b[1..][i].(name := "") {
      assert a[i + 1].(name := "") == b[i + 1].(name := "");
    }
  }

  lemma RightTail(b: seq<Segment>)
    requires b != []
    ensures AllRight(b) <==> b[0].name == RightName(b[0].tag) && AllRight(b[1..])
  {
    hide RightName;
    assert forall i :: 1 <= i < |b| ==> b[i] == b[1..][i - 1];
    if AllRight(b[1..]) && b[0].name == RightName(b[0].tag) {
      forall i | 0 <= i < |b| ensures b[i].name == RightName(b[i].tag) {
        assert i > 0 ==> b[1..][i - 1] == b[i];
      }
    }
    if AllRight(b) {
      forall i | 0 <= i < |b[1..]| ensures b[1..][i].name == RightName(b[1..][i].tag) {
        assert b[1..][i] == b[i + 1];
      }
    }
  }

  lemma SameNames(x: string, a: string, b: string, c: string, d: string)
    requires '>' !in a && '>' !in b && x + a + ">" + c == x + b + ">" + d
    ensures a == b && c == d
  {
    var s := x + a + ">" + c;
    assert s[|x|..] == a + ">" + c == b + ">" + d;
    if |a| < |b| {
      LongerHolds(a, b, c, d);
    } else if |b| < |a| {
      LongerHolds(b, a, d, c);
    }
    var t := a + ">" + c;
    assert a == t[..|a|] == b && c == t[|a| + 1..] == d;
  }

  lemma LongerHolds(a: string, b: string, c: string, d: string)
    requires a + ">" + c == b + ">" + d && |a| < |b|
    ensures '>' in b
  {
    assert (a + ">" + c)[|a|] == '>' == (b + ">" + d)[|a|] == b[|a|];
  }

  /** The names can be told from the text. */
  lemma {:induction false} WrittenTells(a: seq<Segment>, b: seq<Segment>, tail: string)
    requires SameShape(a, b) && Sound(a) && Sound(b) && Written(a, tail) == Written(b, tail)
    ensures a == b
    decreases |a|
  {
    hide Shown, SoundOne, CleanName;
    if a != [] {
      ShapeTail(a, b);
      SoundParts(a);
      SoundParts(b);
      CleanIs(a[0].name);
      CleanIs(b[0].name);
      ShownAlike(a[0], b[0]);
      var x := a[0].text + a[0].tag.open + Body(a[0]) + "</";
      SameNames(x, a[0].name, b[0].name, Written(a[1..], tail), Written(b[1..], tail));
      WrittenTells(a[1..], b[1..], tail);
      assert a == [a[0]] + a[1..] && b == [b[0]] + b[1..];
    }
  }

  lemma ShownAlike(g: Segment, h: Segment)
    requires g.(name := "") == h.(name := "")
    ensures g.text == h.text && g.tag == h.tag && Body(g) == Body(h) && (g.name == h.name ==> g == h)
    ensures var x := g.text + g.tag.open + Body(g) + "</";
            Shown(g, g.name) == x + g.name + ">" && Shown(h, h.name) == x + h.name + ">"
  {
    assert g == h.(name := g.name);
  }

  lemma {:induction false} RightedSound(segments: seq<Segment>)
    requires Sound(segments)
    ensures Sound(Righted(segments)) && SameShape(segments, Righted(segments))
    decreases |segments|
  {
    hide SoundOne, CleanName, RightName;
    if segments != [] {
      SoundParts(segments);
      SoundOneIs(segments[0]);
      RightCloses(segments[0].tag);
      Renamed(segments[0], RightName(segments[0].tag));
      RightedSound(segments[1..]);
    }
  }

  lemma FinalSound(segments: seq<Segment>)
    requires Sound(segments)
    ensures Sound(Final(segments))
  {
    hide *;
    PairsAre();
    FinalIs(segments);
    PassSound(segments, EXEC);
    PassSound(Pass(segments, EXEC), WRITE);
    PassSound(Pass(Pass(segments, EXEC), WRITE), STR_REPLACE);
    PassSound(Pass(Pass(Pass(segments, EXEC), WRITE), STR_REPLACE), SEARCH);
  }

  /** The repair closes every element with the name of its tag, and changes nothing else, if and only if no element is
      blocked: closed with a wrong name, with no inner element of its tag, and followed, before its tag opens again, by
      an element of a later tag that is closed with its name. */
  lemma ElementsAreRepaired(segments: seq<Segment>, tail: string)
    requires Sound(segments) && '<' !in tail
    ensures Usable(TAGS)
    ensures RepairAll(Written(segments, tail), TAGS) == Written(Righted(segments), tail) <==> NoneBlocked(segments)
  {
    hide *;
    AllTagsAre();
    SegmentsAreRepaired(segments, tail, TAGS);
    AllCorrected(segments);
    PassesAre(segments);
    SoundPairs(segments);
    FinalPassed(segments);
    RightedIs(segments, Final(segments));
    FinalSound(segments);
    RightedSound(segments);
    if Written(Final(segments), tail) == Written(Righted(segments), tail) {
      ShapeJoins(segments, Final(segments), Righted(segments));
      WrittenTells(Final(segments), Righted(segments), tail);
    }
  }

  lemma AllTagsAre()
    ensures forall t :: t in TAGS ==> t in TAGS
  {
  }

  lemma ShapeJoins(a: seq<Segment>, b: seq<Segment>, c: seq<Segment>)
    requires SameShape(a, b) && SameShape(a, c)
    ensures SameShape(b, c)
  {
    forall i | 0 <= i < |b| ensures b[i].(name := "") == c[i].(name := "") {
      assert a[i].(name := "") == b[i].(name := "") == c[i].(name := "");
    }
  }
}
