/** `show_diff` (src/repl/repl_annotations.cpp): from an edit script to the printed hunks.

    The edit script is the output of the diff library and is arbitrary here: its old side is the old
    file and its new side the new file. A printed line is a hunk header or a body line. */
module UnifiedDiff {
  import opened Wrappers

  datatype EditKind = Common | Delete | Add

  datatype Edit = Edit(kind: EditKind, text: string)

  /** One element of the script with the 1-based line numbers it starts at in the two files. */
  datatype Entry = Entry(kind: EditKind, text: string, oldLn: nat, newLn: nat)

  datatype OutLine =
    | Header(oldStart: nat, oldCount: nat, newStart: nat, newCount: nat)
    | Body(kind: EditKind, text: string)

  const CONTEXT: nat := 3

  // ----- the two sides of a script -----

  function OldLine(e: Edit): seq<string> {
    if e.kind.Add? then [] else [e.text]
  }

  function NewLine(e: Edit): seq<string> {
    if e.kind.Delete? then [] else [e.text]
  }

  function OldSide(es: seq<Edit>): seq<string> {
    if es == [] then [] else OldLine(es[0]) + OldSide(es[1..])
  }

  function NewSide(es: seq<Edit>): seq<string> {
    if es == [] then [] else NewLine(es[0]) + NewSide(es[1..])
  }

  lemma {:induction false} SidesConcat(a: seq<Edit>, b: seq<Edit>)
    ensures OldSide(a + b) == OldSide(a) + OldSide(b)
    ensures NewSide(a + b) == NewSide(a) + NewSide(b)
    decreases |a|
  {
    hide *;
    if a == [] {
      assert a + b == b;
      EmptySides(a);
    } else {
      SidesConcat(a[1..], b);
      SidesUnfold(a);
      SidesUnfold(a + b);
      TailConcat(a, b);
      Associative(OldLine(a[0]), OldSide(a[1..]), OldSide(b));
      Associative(NewLine(a[0]), NewSide(a[1..]), NewSide(b));
    }
  }

  lemma TailConcat<T>(a: seq<T>, b: seq<T>)
    requires a != []
    ensures a + b != [] && (a + b)[0] == a[0] && (a + b)[1..] == a[1..] + b
  {
  }

  lemma Associative<T>(a: seq<T>, b: seq<T>, c: seq<T>)
    ensures a + (b + c) == (a + b) + c
  {
  }

  lemma SidesUnfold(es: seq<Edit>)
    requires es != []
    ensures OldSide(es) == OldLine(es[0]) + OldSide(es[1..]) && NewSide(es) == NewLine(es[0]) + NewSide(es[1..])
  {
  }

  lemma EmptySides(es: seq<Edit>)
    requires es == []
    ensures OldSide(es) == [] && NewSide(es) == []
  {
  }

  lemma SidesSnoc(es: seq<Edit>, i: nat)
    requires i < |es|
    ensures OldSide(es[..i + 1]) == OldSide(es[..i]) + OldLine(es[i])
    ensures NewSide(es[..i + 1]) == NewSide(es[..i]) + NewLine(es[i])
  {
    assert es[..i + 1] == es[..i] + [es[i]];
    SidesConcat(es[..i], [es[i]]);
  }

  lemma SidesSplit(es: seq<Edit>, i: nat, j: nat)
    requires i <= j <= |es|
    ensures OldSide(es[i..]) == OldSide(es[i..j]) + OldSide(es[j..])
    ensures NewSide(es[i..]) == NewSide(es[i..j]) + NewSide(es[j..])
  {
    assert es[i..] == es[i..j] + es[j..];
    SidesConcat(es[i..j], es[j..]);
  }

  lemma SidesSplitPrefix(es: seq<Edit>, i: nat, j: nat)
    requires i <= j <= |es|
    ensures OldSide(es[..j]) == OldSide(es[..i]) + OldSide(es[i..j])
    ensures NewSide(es[..j]) == NewSide(es[..i]) + NewSide(es[i..j])
  {
    assert es[..j] == es[..i] + es[i..j];
    SidesConcat(es[..i], es[i..j]);
  }

  /** Where the old side of a range of entries lies in the old file. */
  lemma OldSlice(es: seq<Edit>, i: nat, j: nat)
    requires i <= j <= |es|
    ensures |OldSide(es[..i])| <= |OldSide(es[..j])| <= |OldSide(es)|
    ensures OldSide(es)[|OldSide(es[..i])|..|OldSide(es[..j])|] == OldSide(es[i..j])
    ensures OldSide(es)[|OldSide(es[..i])|..] == OldSide(es[i..])
  {
    assert es[..i] + es[i..] == es && es[..j] + es[j..] == es;
    SidesConcat(es[..i], es[i..]);
    SidesConcat(es[..j], es[j..]);
    SidesSplitPrefix(es, i, j);
  }

  lemma {:induction false} CommonSidesAgree(es: seq<Edit>)
    requires forall e :: e in es ==> e.kind.Common?
    ensures OldSide(es) == NewSide(es)
  {
    if es != [] {
      CommonSidesAgree(es[1..]);
    }
  }

  // ----- what is printed -----

  /** A change lies within three entries of entry `i`. */
  ghost predicate NearChange(es: seq<Edit>, i: nat) {
    exists k :: 0 <= k < |es| && !es[k].kind.Common? && i <= k + 3 && k <= i + 3
  }

  /** The context mask: which entries are printed. */
  ghost function Mask(es: seq<Edit>): (show: seq<bool>)
    ensures |show| == |es|
    ensures forall i :: 0 <= i < |es| ==> (show[i] <==> NearChange(es, i))
    ensures forall i :: 0 <= i < |es| && !show[i] ==> es[i].kind.Common?
  {
    var show := seq(|es|, i requires 0 <= i < |es| => NearChange(es, i));
    show
  }

  /** The end of the run of printed entries that starts at `i`. */
  ghost function RunEnd(show: seq<bool>, i: nat): (e: nat)
    requires i <= |show|
    ensures i <= e <= |show| && (e == |show| || !show[e])
    decreases |show| - i
  {
    if i < |show| && show[i] then RunEnd(show, i + 1) else i
  }

  ghost function HeaderAt(es: seq<Edit>, i: nat, e: nat): OutLine
    requires i <= e <= |es|
  {
    Header(|OldSide(es[..i])| + 1, |OldSide(es[i..e])|, |NewSide(es[..i])| + 1, |NewSide(es[i..e])|)
  }

  /** The lines printed when the loop is at entry `i`. */
  ghost function Step(es: seq<Edit>, show: seq<bool>, i: nat): seq<OutLine>
    requires i < |es| == |show|
  {
    if !show[i] then []
    else if i > 0 && show[i - 1] then [Body(es[i].kind, es[i].text)]
    else [HeaderAt(es, i, RunEnd(show, i)), Body(es[i].kind, es[i].text)]
  }

  /** The lines printed for the entries from `i` on. */
  ghost function Printed(es: seq<Edit>, show: seq<bool>, i: nat): seq<OutLine>
    requires i <= |es| == |show|
    decreases |es| - i
  {
    if i == |es| then [] else Step(es, show, i) + Printed(es, show, i + 1)
  }

  lemma Advance(es: seq<Edit>, show: seq<bool>, i: nat, out: seq<OutLine>)
    requires i <= |es| == |show|
    ensures i == |es| ==> out + Printed(es, show, i) == out
    ensures i < |es| ==> out + Printed(es, show, i) == (out + Step(es, show, i)) + Printed(es, show, i + 1)
    ensures i < |es| && !show[i] ==> Step(es, show, i) == [] && out + Step(es, show, i) == out
  {
  }

  /** The imperative code: number the entries, mark the context, print the hunks. */
  method ShowDiff(script: seq<Edit>) returns (out: seq<OutLine>)
    ensures out == Printed(script, Mask(script), 0)
  {
    hide *;
    var entries := NumberEntries(script);
    var show := MarkContext(script, entries);
    ghost var mask := Mask(script);
    out := [];
    var inHunk := false;
    var i := 0;
    while i < |entries|
      invariant 0 <= i <= |entries|
      invariant inHunk == (i > 0 && mask[i - 1])
      invariant show[..] == mask
      invariant out + Printed(script, mask, i) == Printed(script, mask, 0)
    {
      Advance(script, mask, i, out);
      if show[i] {
        var lines := PrintEntry(script, entries, show, i, inHunk);
        out := out + lines;
      }
      inHunk := show[i];
      i := i + 1;
    }
    Advance(script, mask, i, out);
  }

  /** The lines printed for a marked entry: the hunk header when no hunk is open, and the body line. */
  method PrintEntry(ghost script: seq<Edit>, entries: seq<Entry>, show: array<bool>, i: nat, inHunk: bool)
    returns (lines: seq<OutLine>)
    requires Numbered(script, entries) && show[..] == Mask(script)
    requires i < |entries| == show.Length && show[i] && inHunk == (i > 0 && show[i - 1])
    ensures lines == Step(script, Mask(script), i)
  {
    hide Mask, OldSide, NewSide, RunEnd;
    lines := [];
    if !inHunk {
      var end := FindRunEnd(show, i);
      var oCount, nCount := CountRange(script, entries, i, end);
      lines := [Header(entries[i].oldLn, oCount, entries[i].newLn, nCount)];
    }
    lines := lines + [Body(entries[i].kind, entries[i].text)];
  }

  method FindRunEnd(show: array<bool>, i: nat) returns (end: nat)
    requires i <= show.Length
    ensures end == RunEnd(show[..], i)
  {
    end := i;
    while end < show.Length && show[end]
      invariant i <= end <= show.Length
      invariant RunEnd(show[..], end) == RunEnd(show[..], i)
    {
      end := end + 1;
    }
  }

  ghost predicate Numbered(es: seq<Edit>, entries: seq<Entry>) {
    |entries| == |es| &&
    forall i :: 0 <= i < |es| ==>
      entries[i] == Entry(es[i].kind, es[i].text, |OldSide(es[..i])| + 1, |NewSide(es[..i])| + 1)
  }

  method NumberEntries(script: seq<Edit>) returns (entries: seq<Entry>)
    ensures Numbered(script, entries)
  {
    entries := [];
    var oln, nln := 1, 1;
    for i := 0 to |script|
      invariant |entries| == i
      invariant oln == |OldSide(script[..i])| + 1 && nln == |NewSide(script[..i])| + 1
      invariant forall k :: 0 <= k < i ==>
        entries[k] == Entry(script[k].kind, script[k].text, |OldSide(script[..k])| + 1, |NewSide(script[..k])| + 1)
    {
      entries := entries + [Entry(script[i].kind, script[i].text, oln, nln)];
      SidesSnoc(script, i);
      match script[i].kind
      case Delete => oln := oln + 1;
      case Add => nln := nln + 1;
      case Common => oln, nln := oln + 1, nln + 1;
    }
  }

  /** Marks exactly the entries within `CONTEXT` of a change. */
  method MarkContext(ghost script: seq<Edit>, entries: seq<Entry>) returns (show: array<bool>)
    requires Numbered(script, entries)
    ensures fresh(show) && show.Length == |entries|
    ensures show[..] == Mask(script)
  {
    show := new bool[|entries|](_ => false);
    for i := 0 to |entries|
      invariant forall j :: 0 <= j < |entries| ==>
        (show[j] <==> exists k :: 0 <= k < i && !entries[k].kind.Common? && j <= k + CONTEXT && k <= j + CONTEXT)
    {
      if !entries[i].kind.Common? {
        var lo := if i >= CONTEXT then i - CONTEXT else 0;
        var hi := if i + CONTEXT < |entries| - 1 then i + CONTEXT else |entries| - 1;
        ghost var before := show[..];
        for j := lo to hi + 1
          invariant forall m :: 0 <= m < |entries| ==> show[m] == (before[m] || lo <= m < j)
        {
          show[j] := true;
        }
      }
    }
    assert forall k :: 0 <= k < |script| ==> entries[k].kind == script[k].kind;
  }

  method CountRange(ghost script: seq<Edit>, entries: seq<Entry>, i: nat, end: nat) returns (oCount: nat, nCount: nat)
    requires Numbered(script, entries) && i <= end <= |entries|
    ensures oCount == |OldSide(script[i..end])| && nCount == |NewSide(script[i..end])|
  {
    hide OldSide, NewSide;
    oCount, nCount := 0, 0;
    EmptySides(script[i..i]);
    for j := i to end
      invariant oCount == |OldSide(script[i..j])| && nCount == |NewSide(script[i..j])|
    {
      assert script[i..][..j - i] == script[i..j] && script[i..][..j + 1 - i] == script[i..j + 1];
      SidesSnoc(script[i..], j - i);
      if !entries[j].kind.Add? { oCount := oCount + 1; }
      if !entries[j].kind.Delete? { nCount := nCount + 1; }
    }
  }

  // ----- applying what is printed -----

  ghost function BodyOf(out: seq<OutLine>): (n: nat)
    ensures n <= |out| && forall k :: 0 <= k < n ==> out[k].Body?
  {
    if out == [] || out[0].Header? then 0 else 1 + BodyOf(out[1..])
  }

  ghost function BodyEdits(out: seq<OutLine>): (es: seq<Edit>)
    requires forall k :: 0 <= k < |out| ==> out[k].Body?
    ensures |es| == |out|
  {
    seq(|out|, k requires 0 <= k < |out| => Edit(out[k].kind, out[k].text))
  }

  /** A strict patch tool reading the printed lines. `at` old lines have been consumed and `made` new
      lines produced. It fails on a body line outside a hunk, on a hunk that starts before the
      previous one ended, on a header whose counts or start lines are not those of its body, and on
      a context or deleted line that is not in the old file at that place. */
  ghost function Patch(lines: seq<string>, out: seq<OutLine>, at: nat, made: nat): Option<seq<string>>
    decreases |out|
  {
    if at > |lines| then None
    else if out == [] then Some(lines[at..])
    else if out[0].Body? then None
    else
      var h := out[0];
      var n := BodyOf(out[1..]);
      var body := BodyEdits(out[1..][..n]);
      var start := h.oldStart - 1;
      if start < at || start + h.oldCount > |lines| then None
      else if OldSide(body) != lines[start..start + h.oldCount] then None
      else if |NewSide(body)| != h.newCount || made + (start - at) + 1 != h.newStart then None
      else
        match Patch(lines, out[1 + n..], start + h.oldCount, made + (start - at) + h.newCount)
        case None => None
        case Some(rest) => Some(lines[at..start] + NewSide(body) + rest)
  }

  /** The bodies of one run, as printed. */
  lemma {:induction false} PrintedRun(es: seq<Edit>, show: seq<bool>, i: nat)
    requires 0 < i <= |es| == |show| && show[i - 1]
    ensures IsRun(Printed(es, show, i), es[i..RunEnd(show, i)], Printed(es, show, RunEnd(show, i)))
    decreases |es| - i
  {
    hide OldSide, NewSide, IsRun;
    if i == |es| || !show[i] {
      NoLeadingBody(es, show, i);
      assert RunEnd(show, i) == i && es[i..i] == [];
      EmptyRun(Printed(es, show, i));
    } else {
      PrintedRun(es, show, i + 1);
      NextBody(es, show, i);
      RunGrows(es[i], Printed(es, show, i + 1), es[i + 1..RunEnd(show, i)], Printed(es, show, RunEnd(show, i)));
    }
  }

  lemma EmptyRun(out: seq<OutLine>)
    requires out == [] || out[0].Header?
    ensures IsRun(out, [], out)
  {
  }

  lemma NextBody(es: seq<Edit>, show: seq<bool>, i: nat)
    requires 0 < i < |es| == |show| && show[i - 1] && show[i]
    ensures Printed(es, show, i) == [Body(es[i].kind, es[i].text)] + Printed(es, show, i + 1)
    ensures RunEnd(show, i) == RunEnd(show, i + 1) && es[i..RunEnd(show, i)] == [es[i]] + es[i + 1..RunEnd(show, i)]
  {
    hide OldSide, NewSide;
  }

  /** Outside a run the next printed line, if any, is a header. */
  lemma {:induction false} NoLeadingBody(es: seq<Edit>, show: seq<bool>, i: nat)
    requires i <= |es| == |show|
    requires i == |es| || !show[i]
    ensures Printed(es, show, i) == [] || Printed(es, show, i)[0].Header?
    decreases |es| - i
  {
    if i < |es| {
      assert Printed(es, show, i) == Printed(es, show, i + 1);
      if i + 1 < |es| && show[i + 1] {
        assert Step(es, show, i + 1)[0].Header?;
      } else {
        NoLeadingBody(es, show, i + 1);
      }
    }
  }

  /** `out` starts with exactly the body lines of `body`, and goes on with `rest`. */
  ghost predicate IsRun(out: seq<OutLine>, body: seq<Edit>, rest: seq<OutLine>) {
    BodyOf(out) == |body| && BodyEdits(out[..|body|]) == body && out[|body|..] == rest
  }

  lemma RunGrows(b: Edit, out: seq<OutLine>, body: seq<Edit>, rest: seq<OutLine>)
    requires IsRun(out, body, rest)
    ensures IsRun([Body(b.kind, b.text)] + out, [b] + body, rest)
  {
    var tail := [Body(b.kind, b.text)] + out;
    assert tail[1..] == out;
    assert tail[|body| + 1..] == out[|body|..];
  }

  /** One step of the patch tool over a hunk that fits. */
  lemma PatchStep(lines: seq<string>, h: OutLine, run: seq<OutLine>, at: nat, made: nat, body: seq<Edit>,
                  rest: seq<OutLine>, done: seq<string>)
    requires IsRun(run, body, rest) && h.Header? && h.oldStart >= 1
    requires at <= h.oldStart - 1 && h.oldStart - 1 + h.oldCount <= |lines|
    requires OldSide(body) == lines[h.oldStart - 1..h.oldStart - 1 + h.oldCount]
    requires |NewSide(body)| == h.newCount && made + (h.oldStart - 1 - at) + 1 == h.newStart
    requires Patch(lines, rest, h.oldStart - 1 + h.oldCount, h.newStart - 1 + h.newCount) == Some(done)
    ensures Patch(lines, [h] + run, at, made) == Some(lines[at..h.oldStart - 1] + NewSide(body) + done)
  {
    hide OldSide, NewSide;
    var out := [h] + run;
    assert out[1..] == run;
    assert out[1 + |body|..] == run[|body|..];
  }

  lemma PatchOneHunk(es: seq<Edit>, p: nat, i: nat, e: nat, run: seq<OutLine>, rest: seq<OutLine>)
    requires p <= i <= e <= |es| && OldSide(es[p..i]) == NewSide(es[p..i])
    requires IsRun(run, es[i..e], rest)
    requires Patch(OldSide(es), rest, |OldSide(es[..e])|, |NewSide(es[..e])|) == Some(NewSide(es[e..]))
    ensures Patch(OldSide(es), [HeaderAt(es, i, e)] + run, |OldSide(es[..p])|, |NewSide(es[..p])|)
            == Some(NewSide(es[p..]))
  {
    hide OldSide, NewSide, Patch;
    var lines, at, made := OldSide(es), |OldSide(es[..p])|, |NewSide(es[..p])|;
    OldSlice(es, p, i);
    OldSlice(es, i, e);
    SidesSplitPrefix(es, p, i);
    SidesSplitPrefix(es, i, e);
    PatchStep(lines, HeaderAt(es, i, e), run, at, made, es[i..e], rest, NewSide(es[e..]));
    SidesSplit(es, i, e);
    SidesSplit(es, p, i);
    assert NewSide(es[p..]) == OldSide(es[p..i]) + NewSide(es[i..e]) + NewSide(es[e..]);
  }

  /** The patch from entry `i` on, when entries `p..i` are common lines not yet copied. */
  lemma {:induction false} PatchFrom(es: seq<Edit>, show: seq<bool>, p: nat, i: nat)
    requires p <= i <= |es| == |show|
    requires forall k :: 0 <= k < |es| && !show[k] ==> es[k].kind.Common?
    requires forall k :: p <= k < i ==> es[k].kind.Common?
    requires i == 0 || i == |es| || !show[i] || !show[i - 1]
    ensures Patch(OldSide(es), Printed(es, show, i), |OldSide(es[..p])|, |NewSide(es[..p])|) == Some(NewSide(es[p..]))
    decreases |es| - i
  {
    hide *;
    CommonSidesAgree(es[p..i]);
    if i == |es| {
      PatchTail(es, show, p);
    } else if !show[i] {
      Advance(es, show, i, []);
      assert [] + Printed(es, show, i) == Printed(es, show, i);
      assert [] + Printed(es, show, i + 1) == Printed(es, show, i + 1);
      PatchFrom(es, show, p, i + 1);
    } else {
      var e := RunEnd(show, i);
      PatchFrom(es, show, e, e);
      PrintedHunk(es, show, i, e);
      PatchOneHunk(es, p, i, e, Printed(es, show, i)[1..], Printed(es, show, e));
      assert Printed(es, show, i) == [HeaderAt(es, i, e)] + Printed(es, show, i)[1..];
    }
  }

  lemma PatchTail(es: seq<Edit>, show: seq<bool>, p: nat)
    requires p <= |es| == |show| && OldSide(es[p..|es|]) == NewSide(es[p..|es|])
    ensures Patch(OldSide(es), Printed(es, show, |es|), |OldSide(es[..p])|, |NewSide(es[..p])|)
            == Some(NewSide(es[p..]))
  {
    hide OldSide, NewSide;
    OldSlice(es, p, |es|);
    assert es[p..] == es[p..|es|];
  }

  /** One printed hunk, taken apart. */
  lemma PrintedHunk(es: seq<Edit>, show: seq<bool>, i: nat, e: nat)
    requires i < |es| == |show| && show[i] && (i == 0 || !show[i - 1]) && e == RunEnd(show, i)
    ensures var out := Printed(es, show, i);
            out != [] && out[0] == HeaderAt(es, i, e) && IsRun(out[1..], es[i..e], Printed(es, show, e))
  {
    hide *;
    FirstBody(es, show, i, e);
    PrintedRun(es, show, i + 1);
    RunGrows(es[i], Printed(es, show, i + 1), es[i + 1..e], Printed(es, show, e));
  }

  lemma FirstBody(es: seq<Edit>, show: seq<bool>, i: nat, e: nat)
    requires i < |es| == |show| && show[i] && (i == 0 || !show[i - 1]) && e == RunEnd(show, i)
    ensures var out := Printed(es, show, i);
            && out != [] && out[0] == HeaderAt(es, i, e) && i < e && e == RunEnd(show, i + 1)
            && out[1..] == [Body(es[i].kind, es[i].text)] + Printed(es, show, i + 1)
            && es[i..e] == [es[i]] + es[i + 1..e]
  {
    hide OldSide, NewSide;
  }

  /** Applying the printed hunks to the old file gives the new file, whatever the script. */
  lemma HunksPatchOldIntoNew(es: seq<Edit>)
    ensures Patch(OldSide(es), Printed(es, Mask(es), 0), 0, 0) == Some(NewSide(es))
  {
    PatchFrom(es, Mask(es), 0, 0);
    assert es[..0] == [] && es[0..] == es;
  }

  // ----- which entries are printed -----

  ghost function BodyLine(l: OutLine): seq<Edit> {
    if l.Body? then [Edit(l.kind, l.text)] else []
  }

  ghost function Bodies(out: seq<OutLine>): seq<Edit> {
    if out == [] then [] else BodyLine(out[0]) + Bodies(out[1..])
  }

  ghost function ShownEdits(es: seq<Edit>, i: nat): seq<Edit>
    requires i <= |es|
    decreases |es| - i
  {
    if i == |es| then [] else (if NearChange(es, i) then [es[i]] else []) + ShownEdits(es, i + 1)
  }

  lemma {:induction false} BodiesConcat(a: seq<OutLine>, b: seq<OutLine>)
    ensures Bodies(a + b) == Bodies(a) + Bodies(b)
    decreases |a|
  {
    if a == [] {
      assert a + b == b;
    } else {
      hide Bodies, BodyLine;
      BodiesConcat(a[1..], b);
      BodiesUnfold(a);
      BodiesUnfold(a + b);
      TailConcat(a, b);
      Associative(BodyLine(a[0]), Bodies(a[1..]), Bodies(b));
    }
  }

  lemma BodiesUnfold(out: seq<OutLine>)
    requires out != []
    ensures Bodies(out) == BodyLine(out[0]) + Bodies(out[1..])
  {
  }

  /** The body lines are exactly the entries with a change within three entries, in order. */
  lemma {:induction false} ExactlyTheContextIsPrinted(es: seq<Edit>, i: nat)
    requires i <= |es|
    ensures Bodies(Printed(es, Mask(es), i)) == ShownEdits(es, i)
    decreases |es| - i
  {
    hide OldSide, NewSide, Mask, NearChange, Step, Bodies;
    if i == |es| {
      assert Bodies([]) == [] by { NoBodies(); }
    } else {
      ExactlyTheContextIsPrinted(es, i + 1);
      BodiesConcat(Step(es, Mask(es), i), Printed(es, Mask(es), i + 1));
      StepBodies(es, i);
    }
  }

  lemma NoBodies()
    ensures Bodies([]) == []
  {
  }

  lemma StepBodies(es: seq<Edit>, i: nat)
    requires i < |es|
    ensures Bodies(Step(es, Mask(es), i)) == if NearChange(es, i) then [es[i]] else []
  {
    hide OldSide, NewSide, NearChange;
    var lines := Step(es, Mask(es), i);
    if lines != [] {
      BodiesUnfold(lines);
      if |lines| == 2 {
        BodiesUnfold(lines[1..]);
      }
    }
  }
}
