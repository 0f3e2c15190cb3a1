/** What `strip_annotations` makes of a text with complete annotations (src/annotation/annotation.cpp): each annotation
    becomes its summary, and nothing else changes. */
module AnnotationSummaries {
  import opened Text
  import opened StripAnnotations
  import opened StrReplaceLoop
  import opened Wrappers

  // ----- the whole function -----

  ghost function Stripped(text: string, theme: Theme): string
    requires Codes(theme) && !ReachesTrap(Loop(Write, text, theme), theme)
  {
    var replaced := StrLoop(Loop(Write, text, theme), theme);
    var searched := Loop(Search, Loop(Read, replaced, theme), theme);
    Loop(DeleteLine, Loop(AddLine, searched, theme), theme)
  }

  method Strip(text: string, theme: Theme) returns (result: string)
    requires Codes(theme) && !ReachesTrap(Loop(Write, text, theme), theme)
    ensures result == Stripped(text, theme)
  {
    hide Loop, StrLoop, Codes, ReachesTrap;
    result := StripWrite(text, theme);
    result := StripStrReplace(result, theme);
    result := StripRead(result, theme);
    result := StripSearch(result, theme);
    result := StripLine(AddLine, result, theme);
    result := StripLine(DeleteLine, result, theme);
  }

  // ----- annotated texts -----

  /** An annotation: its attribute, or the query of a search, and what stands before and after it. An annotation that
      is not `named` has no attribute. */
  datatype Note = Note(kind: Kind, named: bool, before: string, path: string, rest: string)

  /** Some text and an annotation. */
  datatype Piece = Piece(text: string, note: Note)

  function Body(n: Note): string {
    match n.kind
    case Write => n.path + "\"" + n.rest
    case Search => n.path
    case _ => if n.named then n.before + "path=\"" + n.path + "\"" + n.rest else n.before
  }

  function Source(n: Note): string {
    Open(n.kind) + (Body(n) + Close(n.kind))
  }

  /** No tag of any kind begins in `s`. */
  ghost predicate Untagged(s: string) {
    forall kind: Kind, k: int :: !OccursAt(s, Open(kind), k)
  }

  /** A tag whose attribute may be missing. */
  ghost predicate MayBeBare(kind: Kind) {
    kind == Read || kind == AddLine || kind == DeleteLine
  }

  /** The annotation is closed by its own closer, its attribute is the first one and is quoted, and it holds no other
      annotation. The content may hold any other `<`. A tag that stands alone may lack its attribute. */
  ghost predicate Complete(n: Note) {
    && Untagged(Body(n) + Close(n.kind)) && Find(Body(n) + Close(n.kind), Close(n.kind), 0) == |Body(n)|
    && (n.kind != Search ==> '"' !in n.path)
    && (n.kind != Search && n.kind != Write && n.named ==> Find(n.before + PATH, PATH, 0) == |n.before|)
    && (!n.named ==> MayBeBare(n.kind) && n.path == "" && Find(Source(n), PATH, 0) < 0)
  }

  ghost predicate AllComplete(pieces: seq<Piece>) {
    forall p :: p in pieces ==> Untagged(p.text) && Complete(p.note)
  }

  /** The order of the loops. */
  function Rank(kind: Kind): nat {
    match kind
    case Write => 0
    case StrReplace => 1
    case Read => 2
    case Search => 3
    case AddLine => 4
    case DeleteLine => 5
  }

  /** An annotation after the first `n` loops. */
  function After(note: Note, n: nat, theme: Theme): string {
    if Rank(note.kind) < n then Summary(note.kind, note.path, theme) else Source(note)
  }

  /** The text after the first `n` loops: the annotations of their kinds are summarised. */
  function Doc(pieces: seq<Piece>, tail: string, n: nat, theme: Theme): string {
    if pieces == [] then tail
    else pieces[0].text + After(pieces[0].note, n, theme) + Doc(pieces[1..], tail, n, theme)
  }

  // ----- where no tag begins -----

  ghost predicate Absent(s: string, t: string) {
    forall k: int :: !OccursAt(s, t, k)
  }

  /** Characters that no opener has in front of another, and characters that no opener has behind another. */
  lemma OpenerChars(kind: Kind, i: nat)
    requires i < |Open(kind)|
    ensures i + 1 < |Open(kind)| ==> Open(kind)[i] != '>' && Open(kind)[i] != 'm'
    ensures i > 0 ==> Open(kind)[i] != '<' && Open(kind)[i] != ESC && Open(kind)[i] != '[' && Open(kind)[i] != ']'
    ensures Open(kind)[0] == '<'
  {
  }

  lemma OpenLong(kind: Kind)
    ensures |Open(kind)| >= 6
  {
  }

  predicate Seam(a: string, b: string) {
    || a == "" || b == "" || a[|a| - 1] == '>' || a[|a| - 1] == 'm'
    || b[0] == '<' || b[0] == ESC || b[0] == '[' || b[0] == ']'
  }

  /** No opener crosses a seam. */
  lemma NoCrossing(a: string, b: string, kind: Kind, k: nat)
    requires Seam(a, b) && k < |a| < k + |Open(kind)|
    ensures b != "" ==> !OccursAt(a + b, Open(kind), k)
  {
    hide Open;
    if k + |Open(kind)| <= |a + b| && b != "" {
      var i := |a| - k;
      OpenerChars(kind, i);
      OpenerChars(kind, i - 1);
      if Open(kind)[i] != b[0] {
        Mismatch(a + b, Open(kind), k, i);
      } else {
        Mismatch(a + b, Open(kind), k, i - 1);
      }
    }
  }

  lemma OccursInLeft(a: string, b: string, t: string, k: int)
    requires k + |t| <= |a|
    ensures OccursAt(a + b, t, k) <==> OccursAt(a, t, k)
  {
    if k >= 0 {
      assert (a + b)[k..k + |t|] == a[k..k + |t|];
    }
  }

  lemma AbsentJoin(a: string, b: string, kind: Kind)
    requires Absent(a, Open(kind)) && Absent(b, Open(kind)) && Seam(a, b)
    ensures Absent(a + b, Open(kind))
  {
    hide OccursAt, Open, Seam;
    forall k: int ensures !OccursAt(a + b, Open(kind), k) {
      AbsentAt(a, b, kind, k);
    }
  }

  lemma AbsentAt(a: string, b: string, kind: Kind, k: int)
    requires !OccursAt(a, Open(kind), k) && !OccursAt(b, Open(kind), k - |a|) && Seam(a, b)
    ensures !OccursAt(a + b, Open(kind), k)
  {
    hide Open, Seam;
    if k < 0 || k + |Open(kind)| > |a + b| {
    } else if k + |Open(kind)| <= |a| {
      OccursInLeft(a, b, Open(kind), k);
    } else if k >= |a| {
      OccursBehind(a, b, Open(kind), k - |a|);
    } else {
      NoCrossing(a, b, kind, k);
    }
  }

  lemma AbsentPlain(s: string, kind: Kind)
    requires '<' !in s
    ensures Absent(s, Open(kind))
  {
    hide Open;
    forall k: int ensures !OccursAt(s, Open(kind), k) {
      PlainAt(s, kind, k);
    }
  }

  lemma PlainAt(s: string, kind: Kind, k: int)
    requires '<' !in s
    ensures !OccursAt(s, Open(kind), k)
  {
    Openers(kind, 0);
    if 0 <= k && k + |Open(kind)| <= |s| {
      OpenerChars(kind, 0);
      Mismatch(s, Open(kind), k, 0);
    }
  }

  lemma AbsentPart(a: string, b: string, c: string, kind: Kind)
    requires Absent(a + b + c, Open(kind))
    ensures Absent(b, Open(kind))
  {
    hide Open, OccursAt;
    forall k: int ensures !OccursAt(b, Open(kind), k) {
      if OccursAt(b, Open(kind), k) {
        OccursInPart(a, b, c, Open(kind), k);
      }
    }
  }

  lemma OccursInPart(a: string, b: string, c: string, t: string, k: int)
    requires OccursAt(b, t, k)
    ensures OccursAt(a + b + c, t, |a| + k)
  {
    OccursBehind(a, b, t, k);
    OccursInLeft(a + b, c, t, |a| + k);
  }

  // ----- summaries and other annotations hold no opener -----

  lemma PathAbsent(note: Note, kind: Kind)
    requires Complete(note)
    ensures Absent(note.path, Open(kind))
  {
    hide Open, Close, OccursAt, Find;
    var all := Body(note) + Close(note.kind);
    assert Absent(all, Open(kind));
    match note.kind
    case Write =>
      assert all == "" + note.path + ("\"" + note.rest + Close(note.kind));
      AbsentPart("", note.path, "\"" + note.rest + Close(note.kind), kind);
    case Search =>
      assert all == "" + note.path + Close(note.kind);
      AbsentPart("", note.path, Close(note.kind), kind);
    case _ =>
      if note.named {
        var front, back := note.before + "path=\"", "\"" + note.rest + Close(note.kind);
        assert all == front + note.path + back;
        AbsentPart(front, note.path, back, kind);
      } else {
        AbsentPlain("", kind);
      }
  }

  lemma SummaryAbsent(note: Note, kind: Kind, theme: Theme)
    requires Codes(theme) && Complete(note)
    ensures var s := Summary(note.kind, note.path, theme);
            Absent(s, Open(kind)) && s != "" && s[|s| - 1] == 'm' && (s[0] == ESC || s[0] == '[')
  {
    hide Complete, Absent, Open;
    var front, back := Color(note.kind, theme) + Label(note.kind), "]" + theme.reset;
    SummaryFront(note.kind, theme);
    assert '<' !in back;
    AbsentPlain(front, kind);
    AbsentPlain(back, kind);
    PathAbsent(note, kind);
    AbsentJoin(note.path, back, kind);
    SeamAfterSpace(front, note.path, kind);
    assert Summary(note.kind, note.path, theme) == front + note.path + back;
    AbsentJoin(front + note.path, back, kind);
  }

  lemma SummaryFront(kind: Kind, theme: Theme)
    requires Codes(theme)
    ensures var front := Color(kind, theme) + Label(kind);
            '<' !in front && front != "" && (front[0] == ESC || front[0] == '[')
  {
    assert '<' !in Label(kind) && Label(kind)[0] == '[';
  }

  /** Behind a text without `<` an opener can only begin in what follows. */
  lemma SeamAfterSpace(a: string, b: string, kind: Kind)
    requires '<' !in a && Absent(b, Open(kind))
    ensures Absent(a + b, Open(kind))
  {
    hide Open, OccursAt;
    forall k: int ensures !OccursAt(a + b, Open(kind), k) {
      BehindPlain(a, b, kind, k);
    }
  }

  lemma BehindPlain(a: string, b: string, kind: Kind, k: int)
    requires '<' !in a && !OccursAt(b, Open(kind), k - |a|)
    ensures !OccursAt(a + b, Open(kind), k)
  {
    hide Open;
    if k >= |a| {
      OccursBehind(a, b, Open(kind), k - |a|);
    } else if k >= 0 && k + |Open(kind)| <= |a + b| {
      OpenLong(kind);
      OpenerChars(kind, 0);
      assert (a + b)[k] == a[k];
      Mismatch(a + b, Open(kind), k, 0);
    }
  }

  /** Openers of different kinds differ in one of their first three characters. */
  lemma KindsDiffer(kind: Kind, other: Kind)
    requires kind != other
    ensures |Open(kind)| >= 3 && |Open(other)| >= 3
    ensures Open(kind)[1] != Open(other)[1] || Open(kind)[2] != Open(other)[2]
  {
  }

  lemma SourceAbsent(note: Note, kind: Kind)
    requires Complete(note) && note.kind != kind
    ensures Absent(Source(note), Open(kind))
  {
    hide Open, Close, Body, Find, OccursAt;
    var rest := Body(note) + Close(note.kind);
    assert Absent(rest, Open(kind));
    forall k: int ensures !OccursAt(Source(note), Open(kind), k) {
      SourceAt(note.kind, rest, kind, k);
    }
  }

  lemma SourceAt(kind: Kind, rest: string, other: Kind, k: int)
    requires kind != other && !OccursAt(rest, Open(other), k - |Open(kind)|)
    ensures !OccursAt(Open(kind) + rest, Open(other), k)
  {
    hide Open;
    var s := Open(kind) + rest;
    if k >= |Open(kind)| {
      OccursBehind(Open(kind), rest, Open(other), k - |Open(kind)|);
    } else if k >= 0 && k + |Open(other)| <= |s| {
      KindsDiffer(kind, other);
      assert s[k] == Open(kind)[k];
      OpenerChars(kind, k);
      OpenerChars(other, 0);
      if k > 0 {
        Mismatch(s, Open(other), k, 0);
      } else if Open(kind)[1] != Open(other)[1] {
        Mismatch(s, Open(other), 0, 1);
      } else {
        Mismatch(s, Open(other), 0, 2);
      }
    }
  }

  lemma SourceEnds(note: Note)
    ensures Source(note) != "" && Source(note)[0] == '<' && Source(note)[|Source(note)| - 1] == '>'
  {
    hide Body;
    Openers(note.kind, 0);
    assert Close(note.kind)[|Close(note.kind)| - 1] == '>';
    assert Source(note)[0] == Open(note.kind)[0];
  }

  // ----- one round on one annotation -----

  /** A quoted attribute, where it stands. */
  lemma QuotedIs(a: string, path: string, rest: string)
    requires '"' !in path
    ensures Quoted(a + (path + "\"" + rest), |a|) == Some(path)
  {
    var s := a + (path + "\"" + rest);
    var end := |a| + |path|;
    assert s[|a|..end] == path && s[end] == '"';
    forall k | |a| <= k < end ensures s[k] != '"' {
      assert s[k] == path[k - |a|];
    }
    FindChar(s, '"', |a|, end);
  }

  /** The closer of an annotation is found where it is. */
  lemma CloserFound(note: Note, after: string)
    requires Complete(note)
    ensures Find(Source(note) + after, Close(note.kind), 0) == |Open(note.kind)| + |Body(note)|
  {
    hide Open, Close, Body, OccursAt, Find, Untagged;
    var kind, closing := note.kind, Body(note) + Close(note.kind);
    var s := Source(note) + after;
    var end := |Open(kind)| + |Body(note)|;
    assert s == Open(kind) + (closing + after);
    assert OccursAt(closing, Close(kind), |Body(note)|);
    forall k: nat | k <= end ensures OccursAt(s, Close(kind), k) <==> k == end {
      CloserAt(kind, closing, after, |Body(note)|, k);
    }
    FindIs(s, Close(kind), 0, end);
  }

  lemma CloserAt(kind: Kind, closing: string, after: string, n: nat, k: nat)
    requires n + |Close(kind)| == |closing| && k <= |Open(kind)| + n && Find(closing, Close(kind), 0) == n
    ensures OccursAt(Open(kind) + (closing + after), Close(kind), k) <==> k == |Open(kind)| + n
  {
    hide Open, Close, Find;
    var s := Open(kind) + (closing + after);
    if k < |Open(kind)| {
      assert s[0..|Open(kind)|] == Open(kind);
      NotInOpener(kind, s, 0, k);
    } else {
      OccursBehind(Open(kind), closing + after, Close(kind), k - |Open(kind)|);
      OccursInLeft(closing, after, Close(kind), k - |Open(kind)|);
    }
  }

  /** An annotation with an attribute, taken apart. */
  lemma SourceParts(note: Note, after: string)
    requires note.kind != Write && note.kind != Search && note.named
    ensures Source(note) + after
            == Open(note.kind) + ((note.before + PATH) + (note.path + "\"" + (note.rest + Close(note.kind) + after)))
  {
    hide Open, Close;
    var body := note.before + "path=\"" + note.path + "\"" + note.rest;
    assert Body(note) == body;
    var back := note.rest + Close(note.kind) + after;
    assert (body + Close(note.kind)) + after == (note.before + PATH) + (note.path + "\"" + back);
  }

  /** The attribute of an annotation is found where it is. */
  lemma AttributeFound(note: Note, after: string)
    requires Complete(note) && note.kind != Write && note.kind != Search && note.named
    ensures Find(Source(note) + after, PATH, 0) == |Open(note.kind)| + |note.before|
    ensures Quoted(Source(note) + after, |Open(note.kind)| + |note.before| + 6) == Some(note.path)
  {
    hide Open, Close, OccursAt, Find, Untagged, Quoted, Source, Body;
    var kind, named := note.kind, note.before + PATH;
    var back := note.path + "\"" + (note.rest + Close(kind) + after);
    var s := Source(note) + after;
    SourceParts(note, after);
    var at := |Open(kind)| + |note.before|;
    assert OccursAt(named, PATH, |note.before|);
    forall k: nat | k <= at ensures OccursAt(s, PATH, k) <==> k == at {
      PathAt(kind, named, back, |note.before|, k);
    }
    FindIs(s, PATH, 0, at);
    assert Open(kind) + (named + back) == (Open(kind) + named) + back;
    QuotedIs(Open(kind) + named, note.path, note.rest + Close(kind) + after);
  }

  lemma PathNotInOpener(kind: Kind, i: nat)
    requires i < |Open(kind)| && kind != Write && kind != Search
    ensures Open(kind)[i] == 'p' ==> i + 1 < |Open(kind)| && Open(kind)[i + 1] != 'a'
  {
  }

  lemma PathAt(kind: Kind, named: string, back: string, n: nat, k: nat)
    requires kind != Write && kind != Search
    requires n + 6 == |named| && k <= |Open(kind)| + n && Find(named, PATH, 0) == n
    ensures OccursAt(Open(kind) + (named + back), PATH, k) <==> k == |Open(kind)| + n
  {
    hide Open, Find;
    var s := Open(kind) + (named + back);
    if k < |Open(kind)| {
      PathNotInOpener(kind, k);
      assert s[k] == Open(kind)[k];
      if s[k] == 'p' {
        assert s[k + 1] == Open(kind)[k + 1];
        Mismatch(s, PATH, k, 1);
      } else {
        Mismatch(s, PATH, k, 0);
      }
    } else {
      OccursBehind(Open(kind), named + back, PATH, k - |Open(kind)|);
      OccursInLeft(named, back, PATH, k - |Open(kind)|);
    }
  }

  /** What is shown of an annotation is its attribute, or its query. */
  lemma NamedHere(note: Note)
    requires Complete(note) && note.kind == StrReplace
    ensures note.named
  {
    hide Untagged, Body, Close, Find;
  }

  lemma NoteShown(note: Note, front: string, after: string)
    requires Complete(note)
    ensures var text := front + (Source(note) + after);
            var start := |front|;
            var end := start + |Open(note.kind)| + |Body(note)|;
            && end + |Close(note.kind)| <= |text|
            && Shown(note.kind, text, start, end) == Some(note.path)
  {
    hide Find, Quoted, Untagged, Complete, Attr, Source, Body, Open, Close;
    var kind := note.kind;
    var text := front + (Source(note) + after);
    SourceLength(note);
    Opens();
    if kind == Write {
      WriteShown(note, front, after);
    } else if kind == Search {
      SearchShown(note, front, after);
    } else if kind == StrReplace {
      NamedHere(note);
      AttributeFound(note, after);
      FindBehind(front, Source(note) + after, PATH, 0);
      QuotedBehind(front, Source(note) + after, 13 + |note.before| + 6);
    } else {
      assert text[|front|..|front| + |Source(note)|] == Source(note);
      AttrFound(note);
    }
  }

  lemma Opens()
    ensures |Open(Write)| == 13 && |Open(StrReplace)| == 13 && |Open(Search)| == 8
  {
  }

  lemma SourceLength(note: Note)
    ensures |Source(note)| == |Open(note.kind)| + |Body(note)| + |Close(note.kind)|
  {
    hide Open, Close, Body;
  }

  lemma WriteShown(note: Note, front: string, after: string)
    requires Complete(note) && note.kind == Write
    ensures Quoted(front + (Source(note) + after), |front| + 13) == Some(note.path)
  {
    hide Quoted, Complete, Close;
    NoQuoteInPath(note);
    var back := note.rest + Close(Write) + after;
    assert front + (Source(note) + after) == (front + Open(Write)) + (note.path + "\"" + back);
    QuotedIs(front + Open(Write), note.path, back);
  }

  lemma SearchShown(note: Note, front: string, after: string)
    requires note.kind == Search
    ensures var text := front + (Source(note) + after);
            |Body(note)| == |note.path| && |front| + 8 + |note.path| <= |text|
            && text[|front| + 8..|front| + 8 + |note.path|] == note.path
  {
  }

  lemma NoQuoteInPath(note: Note)
    requires Complete(note) && note.kind != Search
    ensures '"' !in note.path
  {
  }

  lemma AttrFound(note: Note)
    requires Complete(note) && note.kind != Write && note.kind != Search
    ensures Attr(Source(note), "path") == note.path
  {
    hide Find, Untagged, Open, Close, Body, Source, Quoted, Complete;
    assert "path" + "=\"" == PATH;
    if note.named {
      AttributeFound(note, "");
      assert Source(note) + "" == Source(note);
      QuotedEnds(Source(note), |Open(note.kind)| + |note.before| + 6);
    } else {
      BareIs(note);
    }
  }

  lemma BareIs(note: Note)
    requires Complete(note) && !note.named
    ensures note.path == "" && Find(Source(note), PATH, 0) < 0
  {
    hide Find, Untagged, Body, Close;
  }

  lemma QuotedEnds(s: string, from: nat)
    requires Quoted(s, from).Some?
    ensures var end := Find(s, "\"", from); end >= 0 && from <= end <= |s| && Quoted(s, from) == Some(s[from..end])
  {
    QuoteHere(s, from, Find(s, "\"", from));
    hide Find;
  }

  /** The first annotation of a kind is replaced by its summary, wherever it stands. */
  lemma NoteStep(front: string, note: Note, after: string, theme: Theme)
    requires Complete(note) && Absent(front, Open(note.kind))
    ensures Step(note.kind, front + (Source(note) + after), theme)
            == Some(front + (Summary(note.kind, note.path, theme) + after))
  {
    hide Find, Quoted, Complete, Body, Open, Close, Absent, Shown, Summary;
    var kind := note.kind;
    var text := front + (Source(note) + after);
    OpenerFound(front, note, after);
    CloserFound(note, after);
    FindBehind(front, Source(note) + after, Close(kind), 0);
    NoteShown(note, front, after);
    var end := |front| + |Open(kind)| + |Body(note)|;
    assert text[..|front|] == front;
    assert text[end + |Close(kind)|..] == after;
    assert front + Summary(kind, note.path, theme) + after == front + (Summary(kind, note.path, theme) + after);
  }

  lemma OpenerFound(front: string, note: Note, after: string)
    requires Absent(front, Open(note.kind))
    ensures Find(front + (Source(note) + after), Open(note.kind), 0) == |front|
  {
    hide Find, Body, Open, Close, OccursAt;
    var kind, s := note.kind, Source(note) + after;
    SourceEnds(note);
    assert s[0..|Open(kind)|] == Open(kind);
    OpensHere(s, kind);
    OccursBehind(front, s, Open(kind), 0);
    forall k: nat | k < |front| ensures !OccursAt(front + s, Open(kind), k) {
      NotBefore(front, s, kind, k);
    }
    FindIs(front + s, Open(kind), 0, |front|);
  }

  lemma OpensHere(s: string, kind: Kind)
    requires |Open(kind)| <= |s| && s[0..|Open(kind)|] == Open(kind)
    ensures OccursAt(s, Open(kind), 0)
  {
  }

  lemma NotBefore(front: string, s: string, kind: Kind, k: nat)
    requires s != "" && s[0] == '<' && !OccursAt(front, Open(kind), k) && k < |front|
    ensures !OccursAt(front + s, Open(kind), k)
  {
    hide Open;
    if k + |Open(kind)| <= |front| {
      OccursInLeft(front, s, Open(kind), k);
    } else {
      NoCrossing(front, s, kind, k);
    }
  }

  // ----- one loop over the whole text -----

  /** A front in which a loop finds nothing, and after which any text may follow. */
  ghost predicate Quiet(front: string, kind: Kind) {
    Absent(front, Open(kind)) && (front == "" || front[|front| - 1] == '>' || front[|front| - 1] == 'm')
  }

  lemma QuietText(front: string, text: string, kind: Kind)
    requires Quiet(front, kind) && Untagged(text)
    ensures Absent(front + text, Open(kind))
  {
    hide Open, OccursAt;
    AbsentJoin(front, text, kind);
  }

  /** A summarised annotation, or one of another kind, keeps the front quiet. */
  lemma QuietAfter(front: string, p: Piece, shown: string, kind: Kind, theme: Theme)
    requires Codes(theme) && Quiet(front, kind) && Untagged(p.text) && Complete(p.note)
    requires shown == Summary(p.note.kind, p.note.path, theme) || (shown == Source(p.note) && p.note.kind != kind)
    ensures Quiet(front + p.text + shown, kind)
  {
    hide Complete, Open, Absent, Summary, Source, Codes;
    QuietText(front, p.text, kind);
    if shown == Source(p.note) && p.note.kind != kind {
      SourceAbsent(p.note, kind);
      SourceEnds(p.note);
    } else {
      SummaryAbsent(p.note, kind, theme);
    }
    AbsentJoin(front + p.text, shown, kind);
    LastOf(front + p.text, shown);
  }

  lemma LastOf(a: string, b: string)
    requires b != ""
    ensures a + b != "" && (a + b)[|a + b| - 1] == b[|b| - 1]
  {
  }

  lemma QuietStops(front: string, tail: string, kind: Kind, theme: Theme)
    requires Quiet(front, kind) && Untagged(tail)
    ensures Step(kind, front + tail, theme) == None
  {
    hide Open, OccursAt, Summary, Shown;
    QuietText(front, tail, kind);
    NotFound(front + tail, Open(kind), 0);
  }

  lemma DocUnfold(pieces: seq<Piece>, tail: string, n: nat, theme: Theme)
    requires pieces != []
    ensures Doc(pieces, tail, n, theme)
            == pieces[0].text + After(pieces[0].note, n, theme) + Doc(pieces[1..], tail, n, theme)
  {
  }

  /** The loop of a kind summarises the annotations of its kind, one in each round, and then ends. */
  lemma {:induction false} LoopSummarises(front: string, pieces: seq<Piece>, tail: string, kind: Kind, theme: Theme)
    returns (m: nat)
    requires Codes(theme) && AllComplete(pieces) && Untagged(tail) && Quiet(front, kind)
    ensures var n := Rank(kind);
            && Rounds(kind, front + Doc(pieces, tail, n, theme), m, theme)
               == Some(front + Doc(pieces, tail, n + 1, theme))
            && Step(kind, front + Doc(pieces, tail, n + 1, theme), theme) == None
    decreases |pieces|
  {
    hide *;
    var n := Rank(kind);
    if pieces == [] {
      m := 0;
      NoPieces(front, tail, kind, theme);
    } else {
      var p, more := pieces[0], pieces[1..];
      FirstComplete(pieces);
      DocUnfold(pieces, tail, n, theme);
      DocUnfold(pieces, tail, n + 1, theme);
      var now, later := After(p.note, n, theme), After(p.note, n + 1, theme);
      AfterRank(p.note, kind, theme);
      QuietAfter(front, p, later, kind, theme);
      m := LoopSummarises(front + p.text + later, more, tail, kind, theme);
      var rest, rest' := Doc(more, tail, n, theme), Doc(more, tail, n + 1, theme);
      assert front + (p.text + later + rest') == front + p.text + later + rest';
      assert front + (p.text + later + rest) == front + p.text + later + rest;
      if p.note.kind == kind {
        QuietText(front, p.text, kind);
        assert front + (p.text + now + rest) == (front + p.text) + (now + rest);
        assert front + p.text + later + rest == (front + p.text) + (later + rest);
        NoteStep(front + p.text, p.note, rest, theme);
        OneMore(kind, front + Doc(pieces, tail, n, theme), front + p.text + later + rest, m, theme);
        m := m + 1;
      }
    }
  }

  lemma NoPieces(front: string, tail: string, kind: Kind, theme: Theme)
    requires Untagged(tail) && Quiet(front, kind)
    ensures var n := Rank(kind);
            && Rounds(kind, front + Doc([], tail, n, theme), 0, theme) == Some(front + Doc([], tail, n + 1, theme))
            && Step(kind, front + Doc([], tail, n + 1, theme), theme) == None
  {
    hide Quiet, Untagged, Step, Rank;
    QuietStops(front, tail, kind, theme);
  }

  lemma FirstComplete(pieces: seq<Piece>)
    requires pieces != [] && AllComplete(pieces)
    ensures Untagged(pieces[0].text) && Complete(pieces[0].note) && AllComplete(pieces[1..])
  {
    hide Untagged, Complete;
    assert pieces[0] in pieces;
  }

  lemma AfterRank(note: Note, kind: Kind, theme: Theme)
    ensures var (now, later) := (After(note, Rank(kind), theme), After(note, Rank(kind) + 1, theme));
            if note.kind == kind then now == Source(note) && later == Summary(note.kind, note.path, theme)
            else now == later && (later == Summary(note.kind, note.path, theme) || later == Source(note))
  {
    hide Source, Summary;
  }

  lemma OneMore(kind: Kind, text: string, next: string, m: nat, theme: Theme)
    requires Step(kind, text, theme) == Some(next)
    ensures Rounds(kind, text, m + 1, theme) == Rounds(kind, next, m, theme)
  {
    hide Step;
  }

  // ----- the annotations as they are written and shown -----

  ghost function Attributes(n: Note): string {
    if n.named then n.before + "path=\"" + n.path + "\"" + n.rest else n.before
  }

  /** An annotation as it is written. */
  ghost function Annotation(n: Note): string {
    match n.kind
    case Write => "<write file=\"" + n.path + "\"" + n.rest + "</write>"
    case StrReplace => "<str_replace " + Attributes(n) + "</str_replace>"
    case Read => "<read " + Attributes(n) + ">"
    case Search => "<search>" + n.path + "</search>"
    case AddLine => "<add_line " + Attributes(n) + "/>"
    case DeleteLine => "<delete_line " + Attributes(n) + "/>"
  }

  /** Its summary. */
  ghost function Short(n: Note, theme: Theme): string {
    match n.kind
    case Write => theme.warning + "[proposed: write " + n.path + "]" + theme.reset
    case StrReplace => theme.warning + "[proposed: str_replace " + n.path + "]" + theme.reset
    case Read => theme.info + "[read " + n.path + "]" + theme.reset
    case Search => theme.info + "[search: " + n.path + "]" + theme.reset
    case AddLine => theme.warning + "[proposed: add line to " + n.path + "]" + theme.reset
    case DeleteLine => theme.warning + "[proposed: delete line from " + n.path + "]" + theme.reset
  }

  ghost function Annotated(pieces: seq<Piece>, tail: string): string {
    if pieces == [] then tail else pieces[0].text + Annotation(pieces[0].note) + Annotated(pieces[1..], tail)
  }

  ghost function Summarised(pieces: seq<Piece>, tail: string, theme: Theme): string {
    if pieces == [] then tail else pieces[0].text + Short(pieces[0].note, theme) + Summarised(pieces[1..], tail, theme)
  }

  lemma NoteIs(n: Note, theme: Theme)
    ensures Source(n) == Annotation(n) && Summary(n.kind, n.path, theme) == Short(n, theme) && Rank(n.kind) < 6
  {
    var c := theme.reset;
    match n.kind
    case Write => assert Open(Write) + (n.path + "\"" + n.rest + Close(Write)) == Annotation(n);
    case StrReplace => assert Open(StrReplace) + (Attributes(n) + Close(StrReplace)) == Annotation(n);
    case Read => assert Open(Read) + (Attributes(n) + Close(Read)) == Annotation(n);
    case Search => assert Open(Search) + (n.path + Close(Search)) == Annotation(n);
    case AddLine => assert Open(AddLine) + (Attributes(n) + Close(AddLine)) == Annotation(n);
    case DeleteLine => assert Open(DeleteLine) + (Attributes(n) + Close(DeleteLine)) == Annotation(n);
  }

  lemma {:induction false} DocIs(pieces: seq<Piece>, tail: string, theme: Theme)
    ensures Doc(pieces, tail, 0, theme) == Annotated(pieces, tail)
    ensures Doc(pieces, tail, 6, theme) == Summarised(pieces, tail, theme)
    decreases |pieces|
  {
    hide Source, Summary, Annotation, Short;
    if pieces != [] {
      NoteIs(pieces[0].note, theme);
      DocIs(pieces[1..], tail, theme);
    }
  }

  /** A whole text: each annotation becomes its summary, the text between the annotations stays. */
  lemma AnnotationsAreSummarised(pieces: seq<Piece>, tail: string, theme: Theme)
    requires Codes(theme) && AllComplete(pieces) && Untagged(tail)
    ensures var text := Annotated(pieces, tail);
            && !ReachesTrap(Loop(Write, text, theme), theme)
            && Stripped(text, theme) == Summarised(pieces, tail, theme)
  {
    hide *;
    DocIs(pieces, tail, theme);
    LoopsSummarise(pieces, tail, theme);
  }

  lemma LoopsSummarise(pieces: seq<Piece>, tail: string, theme: Theme)
    requires Codes(theme) && AllComplete(pieces) && Untagged(tail)
    ensures var text := Doc(pieces, tail, 0, theme);
            && !ReachesTrap(Loop(Write, text, theme), theme)
            && Stripped(text, theme) == Doc(pieces, tail, 6, theme)
  {
    hide *;
    Ranks();
    LoopOnDoc(pieces, tail, Write, theme);
    var m := LoopSummarises("", pieces, tail, StrReplace, theme) by {
      QuietNothing(StrReplace);
    }
    var one, two := Doc(pieces, tail, 1, theme), Doc(pieces, tail, 2, theme);
    assert "" + one == one && "" + two == two;
    StrLoopIsRounds(one, m, two, theme);
    LoopOnDoc(pieces, tail, Read, theme);
    LoopOnDoc(pieces, tail, Search, theme);
    LoopOnDoc(pieces, tail, AddLine, theme);
    LoopOnDoc(pieces, tail, DeleteLine, theme);
    StrippedIs(Doc(pieces, tail, 0, theme), theme);
  }

  lemma Ranks()
    ensures Rank(Write) == 0 && Rank(StrReplace) == 1 && Rank(Read) == 2
    ensures Rank(Search) == 3 && Rank(AddLine) == 4 && Rank(DeleteLine) == 5
  {
  }

  lemma QuietNothing(kind: Kind)
    ensures Quiet("", kind)
  {
    AbsentPlain("", kind);
  }

  lemma LoopOnDoc(pieces: seq<Piece>, tail: string, kind: Kind, theme: Theme)
    requires Codes(theme) && AllComplete(pieces) && Untagged(tail) && kind != StrReplace
    ensures Loop(kind, Doc(pieces, tail, Rank(kind), theme), theme) == Doc(pieces, tail, Rank(kind) + 1, theme)
  {
    hide *;
    QuietNothing(kind);
    var m := LoopSummarises("", pieces, tail, kind, theme);
    var now, later := Doc(pieces, tail, Rank(kind), theme), Doc(pieces, tail, Rank(kind) + 1, theme);
    assert "" + now == now && "" + later == later;
    LoopIsRounds(kind, now, m, later, theme);
  }

  lemma StrippedIs(text: string, theme: Theme)
    requires Codes(theme) && !ReachesTrap(Loop(Write, text, theme), theme)
    ensures Stripped(text, theme)
            == Loop(DeleteLine, Loop(AddLine, Loop(Search, Loop(Read, StrLoop(Loop(Write, text, theme), theme), theme),
                                                   theme), theme), theme)
  {
    hide Loop, StrLoop, ReachesTrap, Codes;
  }
}
