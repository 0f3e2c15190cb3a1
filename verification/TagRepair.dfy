/** Repairing the closing tags that a language model got wrong (`fix_malformed_tags`, src/annotation/annotation.cpp),
    and the reader of the repaired text (`parse_exec_tags`, src/sync/sync.cpp). */
module TagRepair {
  import opened Text
  import opened Wrappers

  datatype Tag = Tag(open: string, close: string)

  const EXEC := Tag("<exec>", "</exec>")

  /** The tags that are not `<exec>`. */
  const OTHERS := [Tag("<write ", "</write>"), Tag("<str_replace ", "</str_replace>"), Tag("<search>", "</search>"),
                   Tag("<add_line ", ""), Tag("<delete_line ", "")]

  const TAGS := [EXEC] + OTHERS

  // ----- the repair -----

  /** The name in an opening tag, without the bracket and the last character. */
  function Name(open: string): string
    requires |open| >= 2
  {
    var name := open[1..|open| - 1];
    if name != "" && name[|name| - 1] == ' ' then name[..|name| - 1] else name
  }

  /** Whether the closing tag at `bad` closes an element that was opened after `from`: only the first of `tags` that
      has its name counts. */
  function IsInner(text: string, from: nat, bad: nat, name: string, tags: seq<Tag>): bool {
    if tags == [] then false
    else if |tags[0].open| >= 2 && name == Name(tags[0].open) then 0 <= Find(text, tags[0].open, from) < bad
    else IsInner(text, from, bad, name, tags[1..])
  }

  /** The next closing tag, from `</` to `>`, that does not close an element opened after the last one. */
  function FindBad(text: string, from: nat): (r: Option<(nat, nat)>)
    ensures r.Some? ==> from <= r.value.0 && r.value.0 + 2 <= r.value.1 < |text|
    decreases |text| - from
  {
    var bad := Find(text, "</", from);
    if bad < 0 then None
    else
      var gt := Find(text, ">", bad);
      if gt < 0 then None
      else
        CloserShape(text, bad, gt);
        if IsInner(text, from, bad, text[bad + 2..gt], TAGS) then FindBad(text, gt + 1) else Some((bad, gt))
  }

  lemma CloserShape(text: string, bad: nat, gt: nat)
    requires OccursAt(text, "</", bad) && Find(text, ">", bad) == gt
    ensures bad + 2 <= gt < |text|
  {
    OccursChars(text, "</", bad);
    OccursChars(text, ">", gt);
    assert text[bad + 0] == '<' && text[bad + 1] == '/' && text[gt + 0] == '>';
  }

  /** The opener at `start` has its closer before the next opener of its kind. */
  predicate Closed(text: string, tag: Tag, start: nat) {
    var correct := Find(text, tag.close, start);
    var nextOpen := Find(text, tag.open, start + 1);
    correct >= 0 && (nextOpen < 0 || correct < nextOpen)
  }

  /** One round of the repair for one tag: the new text and position, or nothing when there is no more to do. What is
      left to read gets strictly shorter, also when a repair makes the text longer. */
  function RepairStep(text: string, tag: Tag, pos: nat): (r: Option<(string, nat)>)
    requires pos <= |text| && tag.open != ""
    ensures r.Some? ==> r.value.1 <= |r.value.0| && |r.value.0| - r.value.1 < |text| - pos
  {
    var start := Find(text, tag.open, pos);
    if start < 0 then None
    else if tag.close == "" then Some((text, start + |tag.open|))
    else if Closed(text, tag, start) then Some((text, Find(text, tag.close, start) + |tag.close|))
    else
      match FindBad(text, start + |tag.open|)
      case None => None
      case Some((bad, gt)) => Some((text[..bad] + tag.close + text[gt + 1..], bad + |tag.close|))
  }

  /** The repair for one tag, from `pos`. */
  function RepairFrom(text: string, tag: Tag, pos: nat): string
    requires pos <= |text| && tag.open != ""
    decreases |text| - pos
  {
    match RepairStep(text, tag, pos)
    case None => text
    case Some((next, at)) => RepairFrom(next, tag, at)
  }

  predicate Usable(tags: seq<Tag>) {
    forall t :: t in tags ==> t.open != ""
  }

  function RepairAll(text: string, tags: seq<Tag>): string
    requires Usable(tags)
    decreases |tags|
  {
    if tags == [] then text else RepairAll(RepairFrom(text, tags[0], 0), tags[1..])
  }

  /** The innermost loop: the first tag with the name decides. */
  method BelongsInside(text: string, from: nat, bad: nat, badName: string) returns (isInner: bool)
    ensures isInner == IsInner(text, from, bad, badName, TAGS)
  {
    hide Find, Name;
    isInner := false;
    var k := 0;
    while k < |TAGS|
      invariant 0 <= k <= |TAGS| && !isInner
      invariant IsInner(text, from, bad, badName, TAGS[k..]) == IsInner(text, from, bad, badName, TAGS)
    {
      assert TAGS[k..][1..] == TAGS[k + 1..];
      if |TAGS[k].open| >= 2 && badName == Name(TAGS[k].open) {
        var innerStart := Find(text, TAGS[k].open, from);
        isInner := innerStart >= 0 && innerStart < bad;
        break;
      }
      k := k + 1;
    }
  }

  lemma FindBadUnfold(text: string, from: nat, bad: nat, gt: nat)
    requires bad + 2 <= gt < |text| && Find(text, "</", from) == bad && Find(text, ">", bad) == gt
    ensures FindBad(text, from) == if IsInner(text, from, bad, text[bad + 2..gt], TAGS) then FindBad(text, gt + 1)
                                   else Some((bad, gt))
  {
    hide IsInner, Find;
  }

  lemma FindBadStops(text: string, from: nat)
    requires Find(text, "</", from) < 0 || Find(text, ">", Find(text, "</", from)) < 0
    ensures FindBad(text, from) == None
  {
    hide IsInner, Find;
  }

  /** The inner loop: what closes the opener whose tag ends at `from`. */
  method SearchBad(text: string, from: nat) returns (r: Option<(nat, nat)>)
    ensures r == FindBad(text, from)
  {
    hide *;
    var searchFrom := from;
    while true
      invariant FindBad(text, searchFrom) == FindBad(text, from)
      decreases |text| - searchFrom
    {
      var bad := Find(text, "</", searchFrom);
      if bad < 0 {
        FindBadStops(text, searchFrom);
        return None;
      }
      var gt := Find(text, ">", bad);
      if gt < 0 {
        FindBadStops(text, searchFrom);
        return None;
      }
      CloserShape(text, bad, gt);
      FindBadUnfold(text, searchFrom, bad, gt);
      var isInner := BelongsInside(text, searchFrom, bad, text[bad + 2..gt]);
      if !isInner { return Some((bad, gt)); }
      searchFrom := gt + 1;
    }
  }

  /** One tag: the text as it is rewritten. */
  method RepairTag(text: string, t: Tag) returns (result: string)
    requires t.open != ""
    ensures result == RepairFrom(text, t, 0)
  {
    hide FindBad, Find, RepairFrom;
    result := text;
    var pos: nat := 0;
    while true
      invariant pos <= |result|
      invariant RepairFrom(result, t, pos) == RepairFrom(text, t, 0)
      decreases |result| - pos
    {
      RepairUnfold(result, t, pos);
      var start := Find(result, t.open, pos);
      if start < 0 { break; }
      if t.close == "" {
        pos := start + |t.open|;
        continue;
      }
      var correct := Find(result, t.close, start);
      var nextOpen := Find(result, t.open, start + 1);
      if correct >= 0 && (nextOpen < 0 || correct < nextOpen) {
        pos := correct + |t.close|;
        continue;
      }
      var found := SearchBad(result, start + |t.open|);
      if found == None { break; }
      var (bad, gt) := found.value;
      result := result[..bad] + t.close + result[gt + 1..];
      pos := bad + |t.close|;
    }
  }

  lemma RepairUnfold(text: string, tag: Tag, pos: nat)
    requires pos <= |text| && tag.open != ""
    ensures var step := RepairStep(text, tag, pos);
            RepairFrom(text, tag, pos) == if step == None then text else RepairFrom(step.value.0, tag, step.value.1)
  {
    hide RepairStep;
  }

  method FixMalformedTags(text: string) returns (result: string)
    ensures result == RepairAll(text, TAGS)
  {
    hide RepairFrom;
    result := text;
    var k := 0;
    while k < |TAGS|
      invariant 0 <= k <= |TAGS| && Usable(TAGS[k..])
      invariant RepairAll(result, TAGS[k..]) == RepairAll(text, TAGS)
    {
      assert TAGS[k] in TAGS[k..] && TAGS[k..][0] == TAGS[k];
      assert TAGS[k..][1..] == TAGS[k + 1..];
      result := RepairTag(result, TAGS[k]);
      k := k + 1;
    }
  }

  // ----- well-formed text is left alone -----

  /** Every opener that wants a closer has it before the next opener of its kind. */
  ghost predicate WellClosed(text: string, tags: seq<Tag>) {
    forall t, k: nat :: t in tags && t.close != "" && OccursAt(text, t.open, k) ==> Closed(text, t, k)
  }

  lemma {:induction false} ClosedIsKept(text: string, tag: Tag, pos: nat)
    requires pos <= |text| && tag.open != ""
    requires tag.close != "" ==> forall k: nat :: OccursAt(text, tag.open, k) ==> Closed(text, tag, k)
    ensures RepairFrom(text, tag, pos) == text
    decreases |text| - pos
  {
    hide *;
    RepairUnfold(text, tag, pos);
    ClosedStep(text, tag, pos);
    var step := RepairStep(text, tag, pos);
    if step != None {
      ClosedIsKept(text, tag, step.value.1);
    }
  }

  lemma ClosedStep(text: string, tag: Tag, pos: nat)
    requires pos <= |text| && tag.open != ""
    requires tag.close != "" ==> forall k: nat :: OccursAt(text, tag.open, k) ==> Closed(text, tag, k)
    ensures var step := RepairStep(text, tag, pos); step.Some? ==> step.value.0 == text
  {
    hide FindBad, Closed;
    var start := Find(text, tag.open, pos);
    assert start >= 0 ==> OccursAt(text, tag.open, start);
  }

  lemma {:induction false} WellClosedIsKept(text: string, tags: seq<Tag>)
    requires Usable(tags) && WellClosed(text, tags)
    ensures RepairAll(text, tags) == text
    decreases |tags|
  {
    hide RepairFrom, Closed;
    if tags != [] {
      ClosedIsKept(text, tags[0], 0);
      WellClosedIsKept(text, tags[1..]);
    }
  }

  // ----- reading the commands -----

  function ExecTags(text: string, pos: nat): seq<string>
    decreases |text| - pos
  {
    var open := Find(text, "<exec>", pos);
    if open < 0 then []
    else
      var end := Find(text, "</exec>", open + 6);
      if end < 0 then [] else [text[open + 6..end]] + ExecTags(text, end + 7)
  }

  lemma ExecTagsUnfold(text: string, pos: nat, open: nat, end: nat)
    requires Find(text, "<exec>", pos) == open && Find(text, "</exec>", open + 6) == end
    ensures open + 6 <= end && end + 7 <= |text|
    ensures ExecTags(text, pos) == [text[open + 6..end]] + ExecTags(text, end + 7)
  {
    hide Find;
    assert OccursAt(text, "</exec>", end);
  }

  lemma ExecTagsStop(text: string, pos: nat)
    requires var open := Find(text, "<exec>", pos); open < 0 || Find(text, "</exec>", open + 6) < 0
    ensures ExecTags(text, pos) == []
  {
    hide Find;
  }

  method ParseExecTags(text: string) returns (cmds: seq<string>)
    ensures cmds == ExecTags(text, 0)
  {
    hide *;
    cmds := [];
    var pos: nat := 0;
    while true
      invariant cmds + ExecTags(text, pos) == ExecTags(text, 0)
      decreases |text| - pos
    {
      var open := Find(text, "<exec>", pos);
      if open < 0 {
        ExecTagsStop(text, pos);
        break;
      }
      var start: nat := open + 6;
      var end := Find(text, "</exec>", start);
      if end < 0 {
        ExecTagsStop(text, pos);
        break;
      }
      ExecTagsUnfold(text, pos, open, end);
      ghost var now := [text[start..end]];
      assert (cmds + now) + ExecTags(text, end + 7) == cmds + (now + ExecTags(text, end + 7));
      cmds := cmds + [text[start..end]];
      pos := end + 7;
    }
  }
}
